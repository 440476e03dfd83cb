/** worker_cluster.py: the cluster's read operations and task assignment,
    over the plain-dict worker registry, the bridge factory and a task
    repository. Each `start` sent to a worker is recorded in `starts`. */
module WorkerClusters {
  import opened Common
  import opened Dicts
  import opened Model
  import opened MemoryWorkerStorages
  import opened WorkerBridges

  /** `bridge.start(WorkerStartOptions(task_path=...))` */
  datatype StartCall = StartCall(bridge: WorkerBridge, taskPath: string)

  /** `task_repo.get_by_id(task_id)`: the task, or RepoError when there is none. */
  function GetById(tasks: map<int, TrainingTask>, taskId: int): (r: Result<TrainingTask>)
    ensures r.Ok? <==> taskId in tasks
    ensures r.Ok? ==> r.value == tasks[taskId]
    ensures r.Err? ==> r.error == RepoError
  {
    if taskId in tasks then Ok(tasks[taskId]) else Err(RepoError)
  }

  /** What `assign_training_task(task_id)` decides over the stored records
      `rs`: the task and the worker to start it on, None when no worker is
      idle, or the lookup's error. */
  function Assignment(tasks: map<int, TrainingTask>, rs: seq<WorkerRecord>, taskId: int)
    : (a: Result<Option<(TrainingTask, WorkerRecord)>>)
    ensures a.Err? <==> taskId !in tasks
    ensures a.Err? ==> a.error == RepoError
    ensures a == Ok(None) <==> taskId in tasks && forall i :: 0 <= i < |rs| ==> !IsIdleOfType(rs[i], tasks[taskId].taskType)
    ensures a.Ok? && a.value.Some? ==>
      && a.value.value.0 == tasks[taskId]
      && a.value.value.1 == FirstIdle(rs, tasks[taskId].taskType).value
      && IsIdleOfType(a.value.value.1, tasks[taskId].taskType)
  {
    match GetById(tasks, taskId)
    case Err(e) => Err(e)
    case Ok(task) =>
      match FirstIdle(rs, task.taskType)
      case None => Ok(None)
      case Some(w) =>
        assert IsIdleOfType(w, task.taskType);
        Ok(Some((task, w)))
  }

  class WorkerCluster {
    const storage: MemoryWorkerStorage
    const factory: WorkerBridgeFactory
    const tasks: map<int, TrainingTask>
    var starts: seq<StartCall>

    ghost predicate Valid()
      reads this, storage, factory, factory.Repr
    {
      storage.Valid() && factory.Valid() && this !in factory.Repr && storage !in factory.Repr
    }

    constructor (storage: MemoryWorkerStorage, factory: WorkerBridgeFactory, tasks: map<int, TrainingTask>)
      ensures this.storage == storage && this.factory == factory && this.tasks == tasks && starts == []
    {
      this.storage := storage;
      this.factory := factory;
      this.tasks := tasks;
      starts := [];
    }

    /** `get_workers_status()`: the status of every stored worker, in
        storage order. */
    function GetWorkersStatus(): (r: seq<WorkerStatus>)
      requires storage.Valid()
      reads this, storage
      ensures |r| == |storage.workers.keys|
      ensures forall i :: 0 <= i < |r| ==> r[i] == storage.workers.items[storage.workers.keys[i]].status
    {
      var rs := storage.GetAll();
      seq(|rs|, i requires 0 <= i < |rs| => rs[i].status)
    }

    /** `get_worker_status(worker_id)`: None for an unknown worker, else its status. */
    function GetWorkerStatus(id: string): (r: Option<WorkerStatus>)
      reads this, storage
      ensures r.None? <==> id !in storage.workers.items
      ensures r.Some? ==> r.value == storage.workers.items[id].status
    {
      match storage.Get(id)
      case None => None
      case Some(record) => Some(record.status)
    }

    /** The two read operations agree: position `i` of the list is the status
        of the `i`-th stored worker, and every known worker's status is in
        the list. */
    lemma StatusesAgree()
      requires storage.Valid()
      ensures forall i :: 0 <= i < |GetWorkersStatus()| ==>
        GetWorkerStatus(storage.workers.keys[i]) == Some(GetWorkersStatus()[i])
      ensures forall id :: id in storage.workers.items ==>
        GetWorkerStatus(id).Some? && GetWorkerStatus(id).value in GetWorkersStatus()
    {
      var all := GetWorkersStatus();
      forall id | id in storage.workers.items
        ensures GetWorkerStatus(id).value in all
      {
        var i :| 0 <= i < |storage.workers.keys| && storage.workers.keys[i] == id;
        assert all[i] == GetWorkerStatus(id).value;
      }
    }

    /** `assign_training_task(task_id)`: look the task up, pick the first
        idle worker of its type, and start the task on that worker's bridge.
        The chosen worker's record is not changed. */
    method AssignTrainingTask(taskId: int) returns (r: Result<Option<WorkerStatus>>)
      requires Valid()
      modifies this, factory
      ensures Valid()
      ensures storage.workers == old(storage.workers)
      ensures var a := Assignment(tasks, storage.GetAll(), taskId);
        // a failing lookup, or no idle worker: nothing requested, nothing started
        && (a.Err? ==> r == Err(a.error) && starts == old(starts) && factory.cache == old(factory.cache))
        && (a == Ok(None) ==> r == Ok(None) && starts == old(starts) && factory.cache == old(factory.cache))
        // otherwise one bridge request for that worker and one start on that bridge
        && (a.Ok? && a.value.Some? ==>
              var (task, w) := a.value.value;
              && r == Ok(Some(w.status))
              && w.connection in factory.cache
              && var b := factory.cache[w.connection].bridge;
              && b.connection == w.connection
              && (w.connection in old(factory.cache) ==> b == old(factory.cache)[w.connection].bridge)
              && factory.cache == old(factory.cache)[w.connection := CachedRecord(b, InitialBreathSec)]
              && starts == old(starts) + [StartCall(b, task.inputDir)])
    {
      var task := GetById(tasks, taskId);
      if task.Err? {
        return Err(task.error);
      }
      var worker := storage.GetFirstIdleByType(task.value.taskType);
      if worker.None? {
        return Ok(None);
      }
      StartOn(worker.value, task.value);
      return Ok(Some(worker.value.status));
    }

    /** The tail of `assign_training_task`: request the worker's bridge and
        send it `start` with the task's input directory. */
    method StartOn(w: WorkerRecord, task: TrainingTask)
      requires Valid()
      modifies this, factory
      ensures Valid()
      ensures w.connection in factory.cache
      ensures var b := factory.cache[w.connection].bridge;
        && b.connection == w.connection
        && (w.connection in old(factory.cache) ==> b == old(factory.cache)[w.connection].bridge)
        && factory.cache == old(factory.cache)[w.connection := CachedRecord(b, InitialBreathSec)]
        && starts == old(starts) + [StartCall(b, task.inputDir)]
    {
      var bridge := factory.GetWorkerBridge(w.connection);
      starts := starts + [StartCall(bridge, task.inputDir)];
    }
  }
}
