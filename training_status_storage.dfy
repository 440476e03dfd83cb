/** training_status_storage.py: the latest progress report of each training
    task, kept in a dict from task id to status. A report never replaces one
    that is at least as recent. */
module TrainingStatusStorages {
  import opened Common
  import opened Model

  type Statuses = map<string, TrainingStatus>

  /** The store after `save(s)`. */
  function Saved(m: Statuses, s: TrainingStatus): (r: Statuses)
    ensures r.Keys == m.Keys + {s.taskId}
    // other tasks are untouched
    ensures forall id :: id in m && id != s.taskId ==> r[id] == m[id]
    // a new task, or a strictly newer report, is stored
    ensures s.taskId !in m || m[s.taskId].updatedAt < s.updatedAt ==> r[s.taskId] == s
    // an older or equally recent report is ignored
    ensures s.taskId in m && m[s.taskId].updatedAt >= s.updatedAt ==> r == m
  {
    if s.taskId in m && m[s.taskId].updatedAt >= s.updatedAt then m
    else m[s.taskId := s]
  }

  /** Saving the same report twice is the same as saving it once. */
  lemma SavedIdempotent(m: Statuses, s: TrainingStatus)
    ensures Saved(Saved(m, s), s) == Saved(m, s)
  {
  }

  /** A sequence of saves, oldest call first. */
  function SaveAll(m: Statuses, ss: seq<TrainingStatus>): Statuses
    decreases |ss|
  {
    if ss == [] then m else SaveAll(Saved(m, ss[0]), ss[1..])
  }

  /** After any sequence of saves, the tasks with a status are those that
      had one before and those a report was saved for. */
  lemma {:induction false} SaveAllKeys(m: Statuses, ss: seq<TrainingStatus>)
    ensures forall id :: id in SaveAll(m, ss) <==> id in m || exists j :: 0 <= j < |ss| && ss[j].taskId == id
    decreases |ss|
  {
    if ss != [] {
      var m1 := Saved(m, ss[0]);
      SaveAllKeys(m1, ss[1..]);
      forall id | id in SaveAll(m, ss)
        ensures id in m || exists j :: 0 <= j < |ss| && ss[j].taskId == id
      {
        if id !in m1 {
          var j :| 0 <= j < |ss[1..]| && ss[1..][j].taskId == id;
          assert ss[j + 1].taskId == id;
        } else if id !in m {
          assert ss[0].taskId == id;
        }
      }
      forall id | exists j :: 0 <= j < |ss| && ss[j].taskId == id
        ensures id in SaveAll(m, ss)
      {
        var j :| 0 <= j < |ss| && ss[j].taskId == id;
        if j > 0 {
          assert ss[1..][j - 1].taskId == id;
        }
      }
    }
  }

  /** After any sequence of saves, each task holds a report at least as
      recent as every report saved for it and as the one it held before. */
  lemma {:induction false} SaveAllNewest(m: Statuses, ss: seq<TrainingStatus>)
    ensures var r := SaveAll(m, ss);
      && (forall j :: 0 <= j < |ss| ==> ss[j].taskId in r && r[ss[j].taskId].updatedAt >= ss[j].updatedAt)
      && (forall id :: id in m ==> id in r && r[id].updatedAt >= m[id].updatedAt)
    decreases |ss|
  {
    if ss != [] {
      var m1 := Saved(m, ss[0]);
      SaveAllNewest(m1, ss[1..]);
      forall j | 1 <= j < |ss|
        ensures ss[j] == ss[1..][j - 1]
      {
      }
    }
  }

  /** After any sequence of saves, each task's report is the one it held
      before or one of those saved for it. */
  lemma {:induction false} SaveAllFrom(m: Statuses, ss: seq<TrainingStatus>)
    requires forall id :: id in m ==> m[id].taskId == id
    ensures var r := SaveAll(m, ss);
      forall id :: id in r ==> r[id].taskId == id && ((id in m && r[id] == m[id]) || exists j :: 0 <= j < |ss| && r[id] == ss[j])
    decreases |ss|
  {
    if ss != [] {
      var m1 := Saved(m, ss[0]);
      SaveAllFrom(m1, ss[1..]);
      var r := SaveAll(m, ss);
      forall id | id in r && !(id in m && r[id] == m[id])
        ensures exists j :: 0 <= j < |ss| && r[id] == ss[j]
      {
        if id in m1 && r[id] == m1[id] {
          assert r[id] == ss[0];
        } else {
          var j :| 0 <= j < |ss[1..]| && r[id] == ss[1..][j];
          assert r[id] == ss[j + 1];
        }
      }
    }
  }

  class TrainingStatusStorage {
    var storage: Statuses

    constructor ()
      ensures storage == map[]
    {
      storage := map[];
    }

    /** `get(task_id)` */
    function Get(taskId: string): (r: Option<TrainingStatus>)
      reads this
      ensures r.Some? <==> taskId in storage
      ensures r.Some? ==> r.value == storage[taskId]
    {
      if taskId in storage then Some(storage[taskId]) else None
    }

    /** `save(training_status)` */
    method Save(s: TrainingStatus)
      modifies this
      ensures storage == Saved(old(storage), s)
    {
      if s.taskId in storage && storage[s.taskId].updatedAt >= s.updatedAt {
        return;
      }
      storage := storage[s.taskId := s];
    }

    /** `delete(task_id)`: whether the task had a status; it has none afterwards. */
    method Delete(taskId: string) returns (deleted: bool)
      modifies this
      ensures deleted <==> taskId in old(storage)
      ensures storage == old(storage) - {taskId}
    {
      if taskId in storage {
        storage := storage - {taskId};
        return true;
      }
      return false;
    }
  }
}
