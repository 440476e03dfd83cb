/** memory_worker_storage.py: the worker registry over a plain dict from
    worker id to record, in insertion order. */
module MemoryWorkerStorages {
  import opened Common
  import opened Dicts
  import opened Model

  /** The first record of `rs` that is healthy, has no task and has the
      given type. */
  function FirstIdle(rs: seq<WorkerRecord>, taskType: string): (r: Option<WorkerRecord>)
    ensures r.None? <==> forall i :: 0 <= i < |rs| ==> !IsIdleOfType(rs[i], taskType)
    ensures r.Some? ==> exists i :: 0 <= i < |rs| && rs[i] == r.value && IsIdleOfType(rs[i], taskType) &&
                                   forall j :: 0 <= j < i ==> !IsIdleOfType(rs[j], taskType)
  {
    if rs == [] then None
    else if IsIdleOfType(rs[0], taskType) then Some(rs[0])
    else
      var r := FirstIdle(rs[1..], taskType);
      assert forall i :: 1 <= i < |rs| ==> rs[i] == rs[1..][i - 1];
      r
  }

  /** The ids of the unhealthy records. */
  function Unhealthy(d: Dict<string, WorkerRecord>): set<string> {
    set k | k in d.items && !d.items[k].status.healthy
  }

  /** What `cleanup` leaves: the store without its unhealthy records. */
  function Cleaned(d: Dict<string, WorkerRecord>): Dict<string, WorkerRecord> {
    d.RemoveAll(Unhealthy(d))
  }

  /** `cleanup` removes exactly the unhealthy records, keeps the healthy
      ones unchanged and in their order, and leaves only healthy ones. */
  lemma CleanedExactly(d: Dict<string, WorkerRecord>)
    requires d.Valid()
    ensures Cleaned(d).Valid()
    ensures forall k :: k in d.items ==> (k in Cleaned(d).items <==> d.items[k].status.healthy)
    ensures forall k :: k in Cleaned(d).items ==> k in d.items && Cleaned(d).items[k] == d.items[k]
    ensures forall k :: k in Cleaned(d).items ==> Cleaned(d).items[k].status.healthy
    ensures Cleaned(d).keys == Without(d.keys, Unhealthy(d))
  {
  }

  /** Running `cleanup` twice is the same as running it once. */
  lemma CleanedIdempotent(d: Dict<string, WorkerRecord>)
    requires d.Valid()
    ensures Cleaned(Cleaned(d)) == Cleaned(d)
  {
    var c := Cleaned(d);
    assert Unhealthy(c) == {};
    c.RemoveNothing();
  }

  class MemoryWorkerStorage {
    var workers: Dict<string, WorkerRecord>

    ghost predicate Valid()
      reads this
    {
      workers.Valid()
    }

    constructor ()
      ensures Valid() && workers == EmptyDict()
    {
      workers := EmptyDict();
    }

    /** `get(worker_id)` */
    function Get(id: string): (r: Option<WorkerRecord>)
      reads this
      ensures r.Some? <==> id in workers.items
      ensures r.Some? ==> r.value == workers.items[id]
    {
      workers.Get(id)
    }

    /** `get_all()`: every record, in insertion order. */
    function GetAll(): (rs: seq<WorkerRecord>)
      requires Valid()
      reads this
      ensures |rs| == |workers.keys|
      ensures forall i :: 0 <= i < |rs| ==> rs[i] == workers.items[workers.keys[i]]
      ensures forall id :: id in workers.items ==> workers.items[id] in rs
    {
      workers.Values()
    }

    /** `delete(worker_id)`: whether a record was there; it is gone afterwards. */
    method Delete(id: string) returns (deleted: bool)
      requires Valid()
      modifies this
      ensures Valid()
      ensures deleted <==> id in old(workers.items)
      ensures workers.items == old(workers.items) - {id}
      ensures workers.keys == Without(old(workers.keys), {id})
    {
      deleted := id in workers.items;
      workers := workers.RemoveAll({id});
    }

    /** `save(worker_record)`: store the record under its worker id. */
    method Save(r: WorkerRecord)
      requires Valid()
      modifies this
      ensures Valid()
      ensures workers.items == old(workers.items)[r.status.id := r]
      ensures r.status.id in old(workers.items) ==> workers.keys == old(workers.keys)
      ensures r.status.id !in old(workers.items) ==> workers.keys == old(workers.keys) + [r.status.id]
    {
      workers := workers.Put(r.status.id, r);
    }

    /** `clear()` */
    method Clear()
      modifies this
      ensures Valid() && workers == EmptyDict()
    {
      workers := EmptyDict();
    }

    /** `get_first_idle_by_type(task_type)`: the loop over `workers.values()`
        that returns at the first idle record of the type. */
    method GetFirstIdleByType(taskType: string) returns (r: Option<WorkerRecord>)
      requires Valid()
      ensures r == FirstIdle(GetAll(), taskType)
    {
      var values := workers.Values();
      var i := 0;
      while i < |values|
        invariant 0 <= i <= |values|
        invariant FirstIdle(values[i..], taskType) == FirstIdle(values, taskType)
      {
        assert values[i..][0] == values[i] && values[i..][1..] == values[i + 1..];
        var status := values[i].status;
        if status.healthy && !status.hasTask && status.taskType == taskType {
          return Some(values[i]);
        }
        i := i + 1;
      }
      return None;
    }

    /** `cleanup()`: walk a snapshot of the ids and delete each unhealthy record. */
    method Cleanup()
      requires Valid()
      modifies this
      ensures Valid()
      ensures workers == Cleaned(old(workers))
    {
      ghost var d0 := workers;
      var ids := workers.keys;
      ghost var removed: set<string> := {};
      d0.RemoveNothing();
      var i := 0;
      while i < |ids|
        invariant 0 <= i <= |ids| && ids == d0.keys
        invariant workers == d0.RemoveAll(removed)
        invariant removed == Unhealthy(d0) * Elems(ids[..i])
      {
        var id := ids[i];
        NextElem(ids, i);
        removed := CleanKey(id, d0, removed);
        i := i + 1;
      }
      assert ids[..i] == ids;
      assert Elems(ids) == d0.items.Keys;
      assert removed == Unhealthy(d0);
    }

    /** One round of the loop of `cleanup`, on `id`. */
    method CleanKey(id: string, ghost d0: Dict<string, WorkerRecord>, ghost removed: set<string>)
      returns (ghost removed': set<string>)
      requires id in d0.items && id !in removed
      requires workers == d0.RemoveAll(removed)
      modifies this
      ensures removed' == if d0.items[id].status.healthy then removed else removed + {id}
      ensures workers == d0.RemoveAll(removed')
    {
      removed' := removed;
      if !workers.items[id].status.healthy {
        d0.RemoveAllTwice(removed, {id});
        workers := workers.RemoveAll({id});
        removed' := removed + {id};
      }
    }
  }
}
