/** worker_storage.py: the worker registry expressed through the public
    operations of a transactional store from worker id to record. The
    functions below give each operation's effect on the store's entries; the
    class is proved to do exactly that. */
module WorkerStorages {
  import opened Common
  import opened Dicts
  import opened Model
  import opened TxSpec
  import opened TxDict
  import opened MemoryWorkerStorages

  type Workers = Data<string, WorkerRecord>

  /** The predicate `get_first_idle_by_type(task_type)` searches with. */
  function IdleOf(taskType: string): (string, WorkerRecord) -> bool {
    (id: string, v: WorkerRecord) => IsIdleOfType(v, taskType)
  }

  /** The predicate `cleanup` searches with. */
  function NotHealthy(): (string, WorkerRecord) -> bool {
    (id: string, v: WorkerRecord) => !v.status.healthy
  }

  /** `get_first_idle_by_type(task_type)`: the value of the single pair a
      search with `limit=1` returns, if any. */
  function FirstIdleStep(d: Workers, view: Option<TxId>, taskType: string): Step<Option<WorkerRecord>, string, WorkerRecord>
    requires Inv(d)
  {
    var s := SearchForUpdate(d, view, IdleOf(taskType), Some(1));
    match s.out
    case Err(e) => Step(Err(e), s.state)
    case Ok(found) => Step(Ok(if |found| > 0 then Some(found[0].1) else None), s.state)
  }

  /** Deleting a committed key that no other transaction holds locks it and
      marks it deleted, and does nothing else. */
  lemma DelItemMarks(d: Workers, tx: TxId, id: string)
    requires Inv(d) && id in Committed(d) && !HeldByOther(d, id, tx)
    ensures DelItem(d, Some(tx), id) == Step(Ok(()), d.Put(id, d.items[id].(tx := Some(tx), newValue := Deleted)))
  {
    if d.items[id].tx.None? {
      var a := d.Put(id, d.items[id].(tx := Some(tx)));
      assert Acquire(d, id, tx, false) == Step(Ok(true), a);
      assert a.Put(id, a.items[id].(newValue := Deleted)) == d.Put(id, d.items[id].(tx := Some(tx), newValue := Deleted));
    } else {
      assert Acquire(d, id, tx, false) == Step(Ok(true), d);
    }
  }

  /** `delete(worker_id)`, which is `pop(worker_id, None) is not None`: pop
      reads the committed value and, if there is one, deletes the key. */
  function DeleteStep(d: Workers, view: Option<TxId>, id: string): (s: Step<bool, string, WorkerRecord>)
    requires Inv(d)
    ensures Inv(s.state) && Committed(s.state) == Committed(d)
    // no committed value: False, and nothing changes, inside a transaction or not
    ensures id !in Committed(d) ==> s == Step(Ok(false), d)
    ensures id in Committed(d) && view.None? ==> s == Step(Err(RuntimeError(OutsideTransaction)), d)
    ensures id in Committed(d) && view.Some? && HeldByOther(d, id, view.value) ==> s == Step(Err(TimeoutError), d)
    // otherwise True, and the record is locked and marked for deletion
    ensures id in Committed(d) && view.Some? && !HeldByOther(d, id, view.value) ==>
      s == Step(Ok(true), d.Put(id, d.items[id].(tx := view, newValue := Deleted)))
  {
    match GetItem(d, id)
    case Err(_) => Step(Ok(false), d)
    case Ok(_) =>
      var s := DelItem(d, view, id);
      if view.Some? && !HeldByOther(d, id, view.value) then DelItemMarks(d, view.value, id); Step(Ok(true), s.state)
      else if s.out.Err? then Step(Err(s.out.error), s.state) else Step(Ok(true), s.state)
  }

  /** The loop of `cleanup` over the pairs the search returned: delete each
      id, stopping at the first exception. */
  function DeleteAll(d: Workers, view: Option<TxId>, found: seq<(string, WorkerRecord)>): Step<(), string, WorkerRecord>
    requires Inv(d)
    decreases |found|
  {
    if found == [] then Step(Ok(()), d)
    else
      var s := DeleteStep(d, view, found[0].0);
      if s.out.Err? then Step(Err(s.out.error), s.state) else DeleteAll(s.state, view, found[1..])
  }

  /** `cleanup()`: search for the unhealthy records, then delete them one by one. */
  function CleanupStep(d: Workers, view: Option<TxId>): Step<(), string, WorkerRecord>
    requires Inv(d)
  {
    SearchForUpdateSound(d, view, NotHealthy(), None);
    var s := SearchForUpdate(d, view, NotHealthy(), None);
    match s.out
    case Err(e) => Step(Err(e), s.state)
    case Ok(found) => DeleteAll(s.state, view, found)
  }

  lemma FirstsOfCons<K, V>(ps: seq<(K, V)>)
    requires ps != []
    ensures FirstsOf(ps) == {ps[0].0} + FirstsOf(ps[1..])
  {
    forall k | k in FirstsOf(ps) && k != ps[0].0
      ensures k in FirstsOf(ps[1..])
    {
      var i :| 0 <= i < |ps| && ps[i].0 == k;
      assert ps[1..][i - 1] == ps[i];
    }
    forall k | k in FirstsOf(ps[1..])
      ensures k in FirstsOf(ps)
    {
      var i :| 0 <= i < |ps[1..]| && ps[1..][i].0 == k;
      assert ps[i + 1] == ps[1..][i];
    }
    assert ps[0].0 in FirstsOf(ps);
  }

  /** Deleting ids that have a committed value and that no other transaction
      holds marks exactly those ids as pending deletes held by `tx`. */
  lemma {:induction false} DeleteAllMarks(d: Workers, tx: TxId, found: seq<(string, WorkerRecord)>)
    requires Inv(d)
    requires forall i :: 0 <= i < |found| ==> found[i].0 in Committed(d) && !HeldByOther(d, found[i].0, tx)
    ensures var s := DeleteAll(d, Some(tx), found);
      && s.out == Ok(())
      && s.state.keys == d.keys
      && s.state.items.Keys == d.items.Keys
      && forall k :: k in d.items ==>
           s.state.items[k] == if k in FirstsOf(found) then d.items[k].(tx := Some(tx), newValue := Deleted) else d.items[k]
    decreases |found|
  {
    if found != [] {
      var k0 := found[0].0;
      var d1 := d.Put(k0, d.items[k0].(tx := Some(tx), newValue := Deleted));
      assert DeleteStep(d, Some(tx), k0) == Step(Ok(true), d1);
      assert DeleteAll(d, Some(tx), found) == DeleteAll(d1, Some(tx), found[1..]);
      forall i | 0 <= i < |found[1..]|
        ensures found[1..][i].0 in Committed(d1) && !HeldByOther(d1, found[1..][i].0, tx)
      {
        assert found[1..][i] == found[i + 1];
      }
      DeleteAllMarks(d1, tx, found[1..]);
      FirstsOfCons(found);
    }
  }

  /** Cleanup schedules the deletion of exactly the unhealthy records, as the
      transaction sees them, and leaves every other entry untouched; it only
      fails when another transaction holds an unhealthy record. */
  lemma CleanupMarksUnhealthy(d: Workers, tx: TxId)
    requires Inv(d)
    requires forall k :: k in d.items ==> !Blocks(k, d.items[k], tx, NotHealthy())
    ensures var s := CleanupStep(d, Some(tx));
      && s.out == Ok(())
      && s.state.keys == d.keys
      && s.state.items.Keys == d.items.Keys
      && forall k :: k in d.items ==>
           s.state.items[k] == if Matches(k, d.items[k], tx, NotHealthy())
                               then d.items[k].(tx := Some(tx), newValue := Deleted)
                               else d.items[k]
  {
    var pred := NotHealthy();
    SearchForUpdateSound(d, Some(tx), pred, None);
    var scan := ScanKeys(d.keys, d.items, tx, pred, None, [], {});
    ScanTimeout(d.keys, d.items, tx, pred, None, [], {});
    ScanFound(d.keys, d.items, tx, pred, None, [], {});
    ScanComplete(d.keys, d.items, tx, pred, [], {});
    var s1 := SearchForUpdate(d, Some(tx), pred, None);
    var found := scan.found;
    assert s1.out == Ok(found);
    forall i | 0 <= i < |found|
      ensures found[i].0 in Committed(s1.state) && !HeldByOther(s1.state, found[i].0, tx)
    {
      assert Matches(found[i].0, d.items[found[i].0], tx, pred);
    }
    DeleteAllMarks(s1.state, tx, found);
    forall k | k in d.items
      ensures k in FirstsOf(found) <==> Matches(k, d.items[k], tx, pred)
    {
      if k in FirstsOf(found) {
        var i :| 0 <= i < |found| && found[i].0 == k;
      }
    }
  }

  /** A second cleanup in the same transaction deletes nothing more. */
  lemma CleanupIdempotent(d: Workers, tx: TxId)
    requires Inv(d)
    requires forall k :: k in d.items ==> !Blocks(k, d.items[k], tx, NotHealthy())
    ensures var d1 := CleanupStep(d, Some(tx)).state;
      Inv(d1) && CleanupStep(d1, Some(tx)) == Step(Ok(()), d1)
  {
    CleanupMarksUnhealthy(d, tx);
    var d1 := CleanupStep(d, Some(tx)).state;
    forall k | k in d1.items
      ensures !Matches(k, d1.items[k], tx, NotHealthy()) && !Blocks(k, d1.items[k], tx, NotHealthy())
    {
    }
    assert Inv(d1) by {
      forall k | k in d1.items
        ensures EntryOk(d1.items[k])
      {
      }
    }
    CleanupMarksUnhealthy(d1, tx);
    var d2 := CleanupStep(d1, Some(tx)).state;
    assert d2.items == d1.items;
  }

  /** One entry through cleanup and commit: what is left committed is healthy. */
  lemma CleanCommitEntry(k: string, e: Entry<WorkerRecord>, tx: TxId)
    requires EntryOk(e) && !Blocks(k, e, tx, NotHealthy())
    requires e.tx == Some(tx) && !e.value.Value? && e.newValue.Value? ==> e.newValue.value.status.healthy
    ensures var e1 := if Matches(k, e, tx, NotHealthy()) then e.(tx := Some(tx), newValue := Deleted) else e;
      !Popped(e1, tx, true) ==>
        var e2 := if e1.tx == Some(tx) then Entry(if e1.newValue.Value? then e1.newValue else e1.value, None, NoValue) else e1;
        e2.value.Value? ==> e2.value.value.status.healthy
  {
  }

  /** When the transaction has not itself inserted an unhealthy record, a
      committed cleanup leaves only healthy records in the store. */
  lemma CleanupThenCommit(d: Workers, tx: TxId)
    requires Inv(d)
    requires forall k :: k in d.items ==> !Blocks(k, d.items[k], tx, NotHealthy())
    requires forall k :: (k in d.items && d.items[k].tx == Some(tx) && !d.items[k].value.Value? &&
                          d.items[k].newValue.Value?) ==> d.items[k].newValue.value.status.healthy
    ensures var d1 := CleanupStep(d, Some(tx)).state;
      Inv(d1) &&
      var d2 := ExitTransaction(d1, tx, true);
      forall k :: k in Committed(d2) ==> Committed(d2)[k].status.healthy
  {
    CleanupMarksUnhealthy(d, tx);
    var d1 := CleanupStep(d, Some(tx)).state;
    assert Inv(d1) by {
      forall k | k in d1.items
        ensures EntryOk(d1.items[k])
      {
      }
    }
    var d2 := ExitTransaction(d1, tx, true);
    forall k | k in Committed(d2)
      ensures Committed(d2)[k].status.healthy
    {
      assert k in d1.items && k in d.items;
      CleanCommitEntry(k, d.items[k], tx);
    }
  }

  /** On contents whose committed records are all healthy, a cleanup by a
      transaction that holds no key finds and changes nothing. */
  lemma CleanupOnHealthyNoop(d: Workers, tx: TxId)
    requires Inv(d)
    requires forall k :: k in Committed(d) ==> Committed(d)[k].status.healthy
    requires HeldBy(d, tx) == {}
    ensures CleanupStep(d, Some(tx)) == Step(Ok(()), d)
  {
    forall k | k in d.items
      ensures !Blocks(k, d.items[k], tx, NotHealthy()) && !Matches(k, d.items[k], tx, NotHealthy())
    {
      assert k !in HeldBy(d, tx);
      if d.items[k].value.Value? {
        assert k in Committed(d);
      }
    }
    CleanupMarksUnhealthy(d, tx);
    assert CleanupStep(d, Some(tx)).state.items == d.items;
  }

  /** Cleanup is idempotent across a commit: once a cleanup has been
      committed, a cleanup in a later transaction deletes nothing more. */
  lemma CleanupAfterCommit(d: Workers, tx: TxId, next: TxId)
    requires Inv(d)
    requires forall k :: k in d.items ==> !Blocks(k, d.items[k], tx, NotHealthy())
    requires forall k :: (k in d.items && d.items[k].tx == Some(tx) && !d.items[k].value.Value? &&
                          d.items[k].newValue.Value?) ==> d.items[k].newValue.value.status.healthy
    requires HeldBy(d, next) == {} && next != tx
    ensures var d1 := CleanupStep(d, Some(tx)).state;
      Inv(d1) &&
      var d2 := ExitTransaction(d1, tx, true);
      CleanupStep(d2, Some(next)) == Step(Ok(()), d2)
  {
    CleanupThenCommit(d, tx);
    CleanupMarksUnhealthy(d, tx);
    var d1 := CleanupStep(d, Some(tx)).state;
    var d2 := ExitTransaction(d1, tx, true);
    forall k | k in d2.items
      ensures d2.items[k].tx != Some(next)
    {
      assert k in d1.items && k in d.items;
      assert k !in HeldBy(d, next);
    }
    assert HeldBy(d2, next) == {};
    CleanupOnHealthyNoop(d2, next);
  }

  /** The quirk behind the condition above: a record the same transaction
      inserted has no committed value, so the search skips it, and the commit
      then stores it unhealthy. */
  lemma CleanupMissesOwnInsert(r: WorkerRecord)
    requires !r.status.healthy
    ensures var d: Workers := Dict(["w"], map["w" := Entry(NoValue, Some(0), Value(r))]);
      && Inv(d)
      && var d1 := CleanupStep(d, Some(0)).state;
      && Inv(d1)
      && Committed(ExitTransaction(d1, 0, true)) == map["w" := r]
  {
    var d: Workers := Dict(["w"], map["w" := Entry(NoValue, Some(0), Value(r))]);
    assert Inv(d);
    CleanupMarksUnhealthy(d, 0);
    var d1 := CleanupStep(d, Some(0)).state;
    assert d1.items == d.items;
    var d2 := ExitTransaction(d1, 0, true);
    assert d2.items["w"] == Entry(Value(r), None, NoValue);
    assert d2.items.Keys == {"w"};
  }

  /** The store's committed records, in store order: what a plain dict
      holding the same workers would contain. */
  function CommittedRecords(d: Workers): (m: Dict<string, WorkerRecord>)
    requires Inv(d)
    ensures m.Valid()
  {
    Dict(Without(d.keys, GhostKeys(d)), Committed(d))
  }

  /** get_first_idle_by_type, for any contents: it answers from the first
      key, in store order, whose record the scan's test accepts (the dirty
      record for a key the transaction already holds, the committed one
      otherwise). If no key is accepted it returns None; if that key is held
      by another transaction it raises TimeoutError; otherwise it returns
      that key's committed record. */
  lemma FirstIdleFirstMatch(d: Workers, tx: TxId, taskType: string)
    requires Inv(d)
    ensures var out := FirstIdleStep(d, Some(tx), taskType).out;
      match FirstMatch(d.keys, d.items, tx, IdleOf(taskType))
      case None => out == Ok(None)
      case Some(i) =>
        out == if Blocks(d.keys[i], d.items[d.keys[i]], tx, IdleOf(taskType)) then Err(TimeoutError)
               else Ok(Some(d.items[d.keys[i]].value.value))
  {
    var pred := IdleOf(taskType);
    ScanFirstMatch(d.keys, d.items, tx, pred, {});
    var scan := ScanKeys(d.keys, d.items, tx, pred, Some(1), [], {});
    if !scan.timedOut && scan.found != [] {
      assert Prefix(scan.found, Some(1)) == scan.found;
    }
  }

  /** With no key held by any transaction, the first key the scan accepts is
      the first idle record of the plain dict holding the committed records. */
  lemma {:induction false} FirstMatchIsFirstIdle(keys: seq<string>, items: map<string, Entry<WorkerRecord>>, tx: TxId,
                                                 taskType: string, ghosts: set<string>,
                                                 committed: map<string, WorkerRecord>)
    requires forall k :: k in keys ==> k in items && items[k].tx.None?
    requires forall k :: k in keys ==> (k in ghosts <==> !items[k].value.Value?)
    requires forall k :: k in keys && items[k].value.Value? ==> k in committed && committed[k] == items[k].value.value
    ensures forall k :: k in Without(keys, ghosts) ==> k in committed
    ensures FirstIdle(Dict(Without(keys, ghosts), committed).Values(), taskType) ==
      match FirstMatch(keys, items, tx, IdleOf(taskType))
      case None => None
      case Some(i) => Some(items[keys[i]].value.value)
    decreases |keys|
  {
    if keys != [] {
      var k, rest := keys[0], keys[1..];
      FirstMatchIsFirstIdle(rest, items, tx, taskType, ghosts, committed);
      var pred := IdleOf(taskType);
      var r := FirstMatch(rest, items, tx, pred);
      var vs' := Dict(Without(rest, ghosts), committed).Values();
      var e := items[k];
      if k in ghosts {
        assert !Matches(k, e, tx, pred);
        assert Without(keys, ghosts) == Without(rest, ghosts);
      } else {
        var v := committed[k];
        var vs := Dict(Without(keys, ghosts), committed).Values();
        ValuesCons(k, Without(rest, ghosts), committed);
        assert vs == [v] + vs';
        assert vs[0] == v && vs[1..] == vs';
        assert e.value == Value(v) && e.tx.None?;
        if IsIdleOfType(v, taskType) {
          assert Matches(k, e, tx, pred);
        } else {
          assert !Matches(k, e, tx, pred);
        }
      }
      if r.Some? && !Matches(k, e, tx, pred) {
        assert keys[r.value + 1] == rest[r.value];
      }
    }
  }

  /** On unheld entries, the limit-1 scan never times out and finds the
      first idle record of the committed records, in store order. */
  lemma ScanFirstIdle(keys: seq<string>, items: map<string, Entry<WorkerRecord>>, tx: TxId,
                      taskType: string, ghosts: set<string>, committed: map<string, WorkerRecord>,
                      locked: set<string>)
    requires forall k :: k in keys ==> k in items && items[k].tx.None?
    requires forall k :: k in keys ==> (k in ghosts <==> !items[k].value.Value?)
    requires forall k :: k in keys && items[k].value.Value? ==> k in committed && committed[k] == items[k].value.value
    ensures forall k :: k in Without(keys, ghosts) ==> k in committed
    ensures var s := ScanKeys(keys, items, tx, IdleOf(taskType), Some(1), [], locked);
      && !s.timedOut
      && FirstIdle(Dict(Without(keys, ghosts), committed).Values(), taskType) ==
         if s.found == [] then None else Some(s.found[0].1)
  {
    ScanFirstMatch(keys, items, tx, IdleOf(taskType), locked);
    FirstMatchIsFirstIdle(keys, items, tx, taskType, ghosts, committed);
  }

  /** On committed data (no key held by any transaction), the transactional
      registry picks the same worker as the plain-dict registry holding the
      committed records, and locks nothing else. */
  lemma FirstIdleRefines(d: Workers, tx: TxId, taskType: string)
    requires Inv(d)
    requires forall k :: k in d.items ==> d.items[k].tx.None?
    ensures FirstIdleStep(d, Some(tx), taskType).out == Ok(FirstIdle(CommittedRecords(d).Values(), taskType))
  {
    FirstIdleFirstMatch(d, tx, taskType);
    FirstMatchIsFirstIdle(d.keys, d.items, tx, taskType, GhostKeys(d), Committed(d));
  }

  /** The same, for a MemoryWorkerStorage object holding those records. */
  lemma FirstIdleAgrees(d: Workers, tx: TxId, taskType: string, m: MemoryWorkerStorage)
    requires Inv(d)
    requires forall k :: k in d.items ==> d.items[k].tx.None?
    requires m.workers == CommittedRecords(d)
    ensures m.Valid()
    ensures FirstIdleStep(d, Some(tx), taskType).out == Ok(FirstIdle(m.GetAll(), taskType))
  {
    FirstIdleRefines(d, tx, taskType);
  }

  /** get_first_idle_by_type locks at most one record, and only one that
      nobody held; a record it returns is the committed value of a key that
      matched. */
  lemma FirstIdleLocksAtMostOne(d: Workers, tx: TxId, taskType: string)
    requires Inv(d)
    ensures var s := FirstIdleStep(d, Some(tx), taskType);
      && s.state.keys == d.keys && s.state.items.Keys == d.items.Keys
      && (forall k1, k2 :: (k1 in d.items && k2 in d.items &&
            s.state.items[k1] != d.items[k1] && s.state.items[k2] != d.items[k2]) ==> k1 == k2)
      && (forall k :: k in d.items && s.state.items[k] != d.items[k] ==>
            d.items[k].tx.None? && s.state.items[k] == d.items[k].(tx := Some(tx)))
      && (s.out.Ok? && s.out.value.Some? ==>
            exists k :: k in d.items && d.items[k].value == Value(s.out.value.value) &&
                        Matches(k, d.items[k], tx, IdleOf(taskType)))
  {
    var pred := IdleOf(taskType);
    SearchForUpdateSound(d, Some(tx), pred, Some(1));
    SearchLocksFound(d, tx, pred, Some(1));
    var scan := ScanKeys(d.keys, d.items, tx, pred, Some(1), [], {});
    var s := FirstIdleStep(d, Some(tx), taskType);
    forall k | k in d.items && s.state.items[k] != d.items[k]
      ensures k == scan.found[0].0
    {
      assert k in scan.locked;
    }
    var out := SearchForUpdate(d, Some(tx), pred, Some(1)).out;
    if out.Ok? && |out.value| > 0 {
      assert Matches(out.value[0].0, d.items[out.value[0].0], tx, pred);
    }
  }

  /** `WorkerStorage.transaction()` as written: `_Transaction.__init__` calls
      `storage.transaction()` on the WorkerStorage again instead of on the
      wrapped store, so the calls nest until the interpreter's recursion
      limit. `depth` counts the frames on the stack. */
  const RecursionLimit := 1000

  function TransactionAsWritten(depth: nat): Result<()>
    decreases RecursionLimit - depth
  {
    if depth >= RecursionLimit then Err(RecursionError) else TransactionAsWritten(depth + 2)
  }

  /** As written, opening a transaction on a WorkerStorage always fails.
      The lemma only unfolds the definition above: the frame counter stands
      in for the unbounded self-call, so the fact it records is the one the
      definition is built to express, stated for every starting depth. */
  lemma {:induction false} TransactionAsWrittenFails(depth: nat)
    ensures TransactionAsWritten(depth) == Err(RecursionError)
    decreases RecursionLimit - depth
  {
    if depth < RecursionLimit {
      TransactionAsWrittenFails(depth + 2);
    }
  }

  class WorkerStorage {
    const workers: TransactionalDict<string, WorkerRecord>

    ghost predicate Valid()
      reads this, workers, workers.shared
    {
      workers.Valid()
    }

    constructor (workers: TransactionalDict<string, WorkerRecord>)
      ensures this.workers == workers
    {
      this.workers := workers;
    }

    /** `save(worker_record)`: set the record under its worker id. */
    method Save(r: WorkerRecord) returns (res: Result<()>)
      requires Valid()
      modifies workers.shared
      ensures Valid() && workers.shared.issued == old(workers.shared.issued)
      ensures Step(res, workers.shared.data) == TxSpec.SetItem(old(workers.shared.data), workers.tx, r.status.id, r)
    {
      res := workers.SetItem(r.status.id, r);
    }

    /** `get_first_idle_by_type(task_type)` */
    method GetFirstIdleByType(taskType: string) returns (r: Result<Option<WorkerRecord>>)
      requires Valid()
      modifies workers.shared
      ensures Valid() && workers.shared.issued == old(workers.shared.issued)
      ensures Step(r, workers.shared.data) == FirstIdleStep(old(workers.shared.data), workers.tx, taskType)
    {
      var found := workers.SearchForUpdate(IdleOf(taskType), Some(1));
      if found.Err? {
        return Err(found.error);
      }
      if |found.value| > 0 {
        return Ok(Some(found.value[0].1));
      }
      return Ok(None);
    }

    /** `cleanup()` */
    method Cleanup() returns (r: Result<()>)
      requires Valid()
      modifies workers.shared
      ensures Valid() && workers.shared.issued == old(workers.shared.issued)
      ensures Step(r, workers.shared.data) == CleanupStep(old(workers.shared.data), workers.tx)
    {
      SearchForUpdateSound(workers.shared.data, workers.tx, NotHealthy(), None);
      var found := workers.SearchForUpdate(NotHealthy(), None);
      if found.Err? {
        return Err(found.error);
      }
      var pairs := found.value;
      ghost var d1 := workers.shared.data;
      var i := 0;
      while i < |pairs|
        invariant 0 <= i <= |pairs|
        invariant Valid() && workers.shared.issued == old(workers.shared.issued)
        invariant DeleteAll(workers.shared.data, workers.tx, pairs[i..]) == DeleteAll(d1, workers.tx, pairs)
      {
        assert pairs[i..][0] == pairs[i] && pairs[i..][1..] == pairs[i + 1..];
        var deleted := Delete(pairs[i].0);
        if deleted.Err? {
          return Err(deleted.error);
        }
        i := i + 1;
      }
      return Ok(());
    }

    /** `__iter__` */
    function Iter(): (ks: seq<string>)
      requires Valid()
      reads this, workers, workers.shared
      ensures Distinct(ks)
      ensures forall k :: k in ks <==> k in workers.shared.data.items
    {
      workers.Iter()
    }

    /** `__len__` */
    function Len(): (n: nat)
      requires Valid()
      reads this, workers, workers.shared
      ensures n == |workers.shared.data.items.Keys|
    {
      workers.Len()
    }

    /** `__getitem__` */
    function GetItem(key: string): (r: Result<WorkerRecord>)
      reads this, workers, workers.shared
      ensures r.Ok? <==> key in Committed(workers.shared.data)
      ensures r.Ok? ==> r.value == Committed(workers.shared.data)[key]
      ensures r.Err? ==> r.error == KeyError
    {
      workers.GetItem(key)
    }

    /** `__setitem__` */
    method SetItem(key: string, value: WorkerRecord) returns (r: Result<()>)
      requires Valid()
      modifies workers.shared
      ensures Valid() && workers.shared.issued == old(workers.shared.issued)
      ensures Step(r, workers.shared.data) == TxSpec.SetItem(old(workers.shared.data), workers.tx, key, value)
    {
      r := workers.SetItem(key, value);
    }

    /** `__delitem__` */
    method DelItem(key: string) returns (r: Result<()>)
      requires Valid()
      modifies workers.shared
      ensures Valid() && workers.shared.issued == old(workers.shared.issued)
      ensures Step(r, workers.shared.data) == TxSpec.DelItem(old(workers.shared.data), workers.tx, key)
    {
      r := workers.DelItem(key);
    }

    /** `delete(worker_id)` */
    method Delete(id: string) returns (r: Result<bool>)
      requires Valid()
      modifies workers.shared
      ensures Valid() && workers.shared.issued == old(workers.shared.issued)
      ensures Step(r, workers.shared.data) == DeleteStep(old(workers.shared.data), workers.tx, id)
    {
      var current := workers.GetItem(id);
      if current.Err? {
        return Ok(false);
      }
      var deleted := workers.DelItem(id);
      if deleted.Err? {
        return Err(deleted.error);
      }
      return Ok(true);
    }

    /** `search_for_update(predicate, limit=limit)` */
    method SearchForUpdate(pred: (string, WorkerRecord) -> bool, limit: Option<int>)
      returns (r: Result<seq<(string, WorkerRecord)>>)
      requires Valid()
      modifies workers.shared
      ensures Valid() && workers.shared.issued == old(workers.shared.issued)
      ensures Step(r, workers.shared.data) == TxSpec.SearchForUpdate(old(workers.shared.data), workers.tx, pred, limit)
    {
      r := workers.SearchForUpdate(pred, limit);
    }

    /** `get_for_update(key[, default])` */
    method GetForUpdate(key: string, hasDefault: bool) returns (r: Result<Option<WorkerRecord>>)
      requires Valid()
      modifies workers.shared
      ensures Valid() && workers.shared.issued == old(workers.shared.issued)
      ensures Step(r, workers.shared.data) == TxSpec.GetForUpdate(old(workers.shared.data), workers.tx, key, hasDefault)
    {
      r := workers.GetForUpdate(key, hasDefault);
    }

    /** `transaction()`, as intended: a transaction of the wrapped store. */
    method NewTransaction() returns (r: Result<WorkerTransaction>)
      requires Valid()
      modifies workers.shared
      ensures Valid()
      ensures workers.shared.data == old(workers.shared.data)
      ensures workers.tx.Some? ==> r == Err(RuntimeError(TransactionInProgress))
      ensures workers.tx.None? ==>
        && r.Ok? && fresh(r.value) && fresh(r.value.underlying) && fresh(r.value.underlying.storage)
        && r.value.underlying.storage.shared == workers.shared
        && r.value.underlying.storage.tx == Some(r.value.underlying.id)
        && r.value.underlying.level == 0 && r.value.underlying.Valid()
        && HeldBy(workers.shared.data, r.value.underlying.id) == {}
    {
      var t := workers.NewTransaction();
      if t.Err? {
        return Err(t.error);
      }
      var wt := new WorkerTransaction(t.value);
      return Ok(wt);
    }
  }

  /** `worker_storage._Transaction`: wraps a transaction of the store. */
  class WorkerTransaction {
    const underlying: Transaction<string, WorkerRecord>

    constructor (underlying: Transaction<string, WorkerRecord>)
      ensures this.underlying == underlying
    {
      this.underlying := underlying;
    }

    /** `__enter__`: a WorkerStorage over the view the store's transaction returns. */
    method Enter() returns (r: Result<WorkerStorage>)
      modifies underlying
      ensures old(underlying.level) > 0 ==> r == Err(RuntimeError(NestedTransaction)) && underlying.level == old(underlying.level)
      ensures old(underlying.level) <= 0 ==>
        r.Ok? && fresh(r.value) && r.value.workers == underlying.storage && underlying.level == old(underlying.level) + 1
    {
      var v := underlying.Enter();
      if v.Err? {
        return Err(v.error);
      }
      var s := new WorkerStorage(v.value);
      return Ok(s);
    }

    /** `__exit__`: the store's transaction exits. */
    method Exit(commit: bool)
      requires underlying.Valid()
      modifies underlying, underlying.storage, underlying.storage.shared
      ensures underlying.Valid()
      ensures underlying.level == old(underlying.level) - 1
      ensures underlying.storage.shared.data == ExitTransaction(old(underlying.storage.shared.data), underlying.id, commit)
      ensures underlying.storage.tx == None
    {
      underlying.Exit(commit);
    }
  }
}
