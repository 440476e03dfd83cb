/** The semantics of the transactional key/value store
    (transactional_dict.py) as functions on the store's contents: the ordered
    dict of entries that every view of one store shares. A transaction is
    identified by a number; the view calling an operation passes the
    transaction it is bound to (`None` for a view outside any transaction).
    The classes in module TxDict are proved to do exactly what these
    functions say. */
module TxSpec {
  import opened Common
  import opened Dicts

  type TxId = nat

  /** A stored value, or one of the two markers `NO_VALUE` and `DELETED`. */
  datatype Slot<V> = NoValue | Deleted | Value(value: V)

  /** `_Entry`: the committed value, the transaction holding the key's lock,
      and the value that transaction has written but not yet committed. */
  datatype Entry<V> = Entry(value: Slot<V>, tx: Option<TxId>, newValue: Slot<V>) {
    /** `dirty_value`: what the owning transaction sees. */
    function DirtyValue(): Slot<V> {
      if newValue != NoValue then newValue else value
    }
  }

  type Data<K(==), V> = Dict<K, Entry<V>>

  /** The outcome of an operation together with the contents it leaves behind
      (an exception can be raised after a lock was already taken). */
  datatype Step<T, K(==), V> = Step(out: Result<T>, state: Data<K, V>)

  /** A committed value is never `DELETED`, and an entry nobody holds has no
      pending write. */
  ghost predicate EntryOk<V>(e: Entry<V>) {
    e.value != Deleted && (e.tx.None? ==> e.newValue == NoValue)
  }

  ghost predicate Inv<K, V>(d: Data<K, V>) {
    d.Valid() && forall k :: k in d.items ==> EntryOk(d.items[k])
  }

  /** The committed contents: what snapshot reads see. */
  function Committed<K, V>(d: Data<K, V>): map<K, V> {
    map k | k in d.items && d.items[k].value.Value? :: d.items[k].value.value
  }

  /** Keys whose committed value is a marker: entries created by a write that
      has not been committed (or was rolled back). */
  function GhostKeys<K, V>(d: Data<K, V>): set<K> {
    set k | k in d.items && !d.items[k].value.Value?
  }

  /** The entry of `k` is the same in both contents. */
  ghost predicate SameEntry<K, V>(d: Data<K, V>, d': Data<K, V>, k: K) {
    (k in d.items <==> k in d'.items) && (k in d.items ==> d'.items[k] == d.items[k])
  }

  /** Every key held by a transaction other than `view` keeps its entry. */
  ghost predicate OthersUntouched<K, V>(d: Data<K, V>, d': Data<K, V>, view: Option<TxId>) {
    forall k :: k in d.items && d.items[k].tx.Some? && d.items[k].tx != view ==> SameEntry(d, d', k)
  }

  /** The key is held by a transaction other than `tx`: acquiring it would block. */
  predicate HeldByOther<K, V>(d: Data<K, V>, key: K, tx: TxId) {
    key in d.items && d.items[key].tx.Some? && d.items[key].tx != Some(tx)
  }

  /** Every key is held, if at all, by one of the transactions `0 .. n-1`
      issued so far. */
  ghost predicate OwnersBelow<K, V>(d: Data<K, V>, n: nat) {
    forall k :: k in d.items && d.items[k].tx.Some? ==> d.items[k].tx.value < n
  }

  /** `__getitem__`: a snapshot read. */
  function GetItem<K, V>(d: Data<K, V>, key: K): (r: Result<V>)
    ensures r == if key in Committed(d) then Ok(Committed(d)[key]) else Err(KeyError)
  {
    if key !in d.items then Err(KeyError)
    else match d.items[key].value
      case Value(v) => Ok(v)
      case _ => Err(KeyError)
  }

  /** Writing an entry that is well formed keeps the invariant. */
  lemma PutInv<K, V>(d: Data<K, V>, key: K, e: Entry<V>)
    requires Inv(d) && EntryOk(e)
    ensures Inv(d.Put(key, e))
  {
  }

  /** Writing an entry whose committed value is the old one (or, for a new
      key, a marker) changes no committed value. */
  lemma PutKeepsCommitted<K, V>(d: Data<K, V>, key: K, e: Entry<V>)
    requires if key in d.items then e.value == d.items[key].value else !e.value.Value?
    ensures Committed(d.Put(key, e)) == Committed(d)
  {
  }

  /** `__get_entry`: find the entry and take its lock for `tx`, creating an
      entry locked by `tx` when `create` is set. Waiting for another
      transaction to release the key can only end in a timeout when nothing
      else runs, so a key held by another transaction fails at once. The
      result says whether an entry was found (`None` in the source). */
  function Acquire<K, V>(d: Data<K, V>, key: K, tx: TxId, create: bool): (s: Step<bool, K, V>)
    requires Inv(d)
    ensures Inv(s.state)
    ensures s.out.Err? <==> HeldByOther(d, key, tx)
    ensures s.out.Err? ==> s.out.error == TimeoutError && s.state == d
    ensures s.out == Ok(false) <==> key !in d.items && !create
    ensures s.out == Ok(false) ==> s.state == d
    ensures s.out == Ok(true) ==> key in s.state.items && s.state.items[key].tx == Some(tx)
    ensures s.out == Ok(true) && key in d.items ==>
      s.state.items[key] == d.items[key].(tx := Some(tx)) && s.state.keys == d.keys
    ensures s.out == Ok(true) && key !in d.items ==>
      s.state.items[key] == Entry(NoValue, Some(tx), NoValue) && s.state.keys == d.keys + [key]
    ensures forall k :: k in d.items.Keys + s.state.items.Keys && k != key ==> SameEntry(d, s.state, k)
    ensures Committed(s.state) == Committed(d)
  {
    if key !in d.items then
      if !create then Step(Ok(false), d)
      else
        PutInv(d, key, Entry(NoValue, Some(tx), NoValue));
        PutKeepsCommitted(d, key, Entry(NoValue, Some(tx), NoValue));
        Step(Ok(true), d.Put(key, Entry(NoValue, Some(tx), NoValue)))
    else if d.items[key].tx.None? then
      PutInv(d, key, d.items[key].(tx := Some(tx)));
      PutKeepsCommitted(d, key, d.items[key].(tx := Some(tx)));
      Step(Ok(true), d.Put(key, d.items[key].(tx := Some(tx))))
    else if d.items[key].tx == Some(tx) then
      Step(Ok(true), d)
    else
      Step(Err(TimeoutError), d)
  }

  /** `__setitem__`: write `value` as the pending value of `key`, creating a
      locked entry with no committed value when the key is new. */
  function SetItem<K, V>(d: Data<K, V>, view: Option<TxId>, key: K, value: V): (s: Step<(), K, V>)
    requires Inv(d)
    ensures Inv(s.state)
    ensures view.None? ==> s == Step(Err(RuntimeError(OutsideTransaction)), d)
    ensures view.Some? && HeldByOther(d, key, view.value) ==> s == Step(Err(TimeoutError), d)
    ensures view.Some? && !HeldByOther(d, key, view.value) ==>
      && s.out.Ok?
      && key in s.state.items
      && s.state.items[key] == Entry(if key in d.items then d.items[key].value else NoValue, view, Value(value))
      && s.state.keys == if key in d.items then d.keys else d.keys + [key]
    ensures forall k :: k in d.items.Keys + s.state.items.Keys && k != key ==> SameEntry(d, s.state, k)
    ensures Committed(s.state) == Committed(d)
  {
    match view
    case None => Step(Err(RuntimeError(OutsideTransaction)), d)
    case Some(tx) =>
      var a := Acquire(d, key, tx, true);
      if a.out.Err? then Step(Err(a.out.error), a.state)
      else
        var e := a.state.items[key].(newValue := Value(value));
        PutInv(a.state, key, e);
        PutKeepsCommitted(a.state, key, e);
        Step(Ok(()), a.state.Put(key, e))
  }

  /** `__delitem__`: mark the key's pending value `DELETED`. It raises
      KeyError for an absent key, and for a key with no committed value, in
      which case the lock it has just taken stays held. */
  function DelItem<K, V>(d: Data<K, V>, view: Option<TxId>, key: K): (s: Step<(), K, V>)
    requires Inv(d)
    ensures Inv(s.state)
    ensures view.None? ==> s == Step(Err(RuntimeError(OutsideTransaction)), d)
    ensures view.Some? ==> (s.out.Ok? <==> key in Committed(d) && !HeldByOther(d, key, view.value))
    ensures view.Some? && HeldByOther(d, key, view.value) ==> s == Step(Err(TimeoutError), d)
    ensures view.Some? && key !in d.items ==> s == Step(Err(KeyError), d)
    ensures view.Some? && key in d.items && !HeldByOther(d, key, view.value) ==>
      && s.state.keys == d.keys
      && key in s.state.items
      && s.state.items[key] == d.items[key].(tx := view,
                                             newValue := if key in Committed(d) then Deleted else d.items[key].newValue)
      && (key !in Committed(d) ==> s.out == Err(KeyError))
    ensures forall k :: k in d.items.Keys + s.state.items.Keys && k != key ==> SameEntry(d, s.state, k)
    ensures Committed(s.state) == Committed(d)
  {
    match view
    case None => Step(Err(RuntimeError(OutsideTransaction)), d)
    case Some(tx) =>
      var a := Acquire(d, key, tx, false);
      if a.out.Err? then Step(Err(a.out.error), a.state)
      else if !a.out.value || !a.state.items[key].value.Value? then Step(Err(KeyError), a.state)
      else
        var e := a.state.items[key].(newValue := Deleted);
        PutInv(a.state, key, e);
        PutKeepsCommitted(a.state, key, e);
        Step(Ok(()), a.state.Put(key, e))
  }

  /** `get_for_update`: lock the key and read it as the transaction sees it.
      The result `Some(v)` is the value; `None` means the caller's default was
      returned, which happens only when a default was given and the
      transaction's view of the key is a marker. */
  function GetForUpdate<K, V>(d: Data<K, V>, view: Option<TxId>, key: K, hasDefault: bool): (s: Step<Option<V>, K, V>)
    requires Inv(d)
    ensures Inv(s.state)
    ensures view.None? ==> s == Step(Err(RuntimeError(OutsideTransaction)), d)
    ensures view.Some? && key !in d.items ==> s == Step(Err(KeyError), d)
    ensures view.Some? && HeldByOther(d, key, view.value) ==> s == Step(Err(TimeoutError), d)
    ensures view.Some? && key in d.items && !HeldByOther(d, key, view.value) ==>
      && s.state.keys == d.keys
      && key in s.state.items
      && s.state.items[key] == d.items[key].(tx := view)
      && s.out == match d.items[key].DirtyValue()
                  case Value(v) => Ok(Some(v))
                  case _ => if hasDefault then Ok(None) else Err(KeyError)
    ensures forall k :: k in d.items.Keys + s.state.items.Keys && k != key ==> SameEntry(d, s.state, k)
    ensures Committed(s.state) == Committed(d)
  {
    match view
    case None => Step(Err(RuntimeError(OutsideTransaction)), d)
    case Some(tx) =>
      if key !in d.items then Step(Err(KeyError), d)
      else
        var a := Acquire(d, key, tx, false);
        if a.out.Err? then Step(Err(a.out.error), a.state)
        else match a.state.items[key].DirtyValue()
          case Value(v) => Step(Ok(Some(v)), a.state)
          case _ => Step(if hasDefault then Ok(None) else Err(KeyError), a.state)
  }


  // ---------------------------------------------------------------------
  // search_for_update

  /** `results[:limit]` with Python's slice rules (a negative limit counts from the end). */
  function Prefix<T>(s: seq<T>, limit: Option<int>): (r: seq<T>)
    ensures |r| <= |s| && r == s[..|r|]
    ensures limit.None? ==> r == s
    ensures limit.Some? && limit.value >= 0 ==> |r| == if limit.value <= |s| then limit.value else |s|
    ensures limit.Some? && limit.value < 0 ==> |r| == if |s| + limit.value >= 0 then |s| + limit.value else 0
  {
    match limit
    case None => s
    case Some(n) =>
      if n >= 0 then (if n <= |s| then s[..n] else s)
      else if |s| + n >= 0 then s[..|s| + n] else []
  }

  /** The collected pairs have reached the limit. */
  predicate Full<T>(found: seq<T>, limit: Option<int>) {
    limit.Some? && |found| >= limit.value
  }

  /** Where the scan stands: the pairs collected, the keys it has locked, and
      whether it stopped on a key held by another transaction. */
  datatype Scan<K, V> = Scan(found: seq<(K, V)>, locked: set<K>, timedOut: bool)

  /** The test `search_for_update` applies to entry `e` of key `k`: for a key
      the transaction already holds, the predicate on its dirty value; for
      any other key, the predicate on the committed value. A key with no
      committed value never matches. */
  ghost predicate Matches<K, V>(k: K, e: Entry<V>, tx: TxId, pred: (K, V) -> bool) {
    && e.value.Value?
    && if e.tx == Some(tx) then e.DirtyValue().Value? && pred(k, e.DirtyValue().value)
       else pred(k, e.value.value)
  }

  /** A key the scan would have to wait for. */
  ghost predicate Blocks<K, V>(k: K, e: Entry<V>, tx: TxId, pred: (K, V) -> bool) {
    e.value.Value? && e.tx.Some? && e.tx != Some(tx) && pred(k, e.value.value)
  }

  /** The loop of `search_for_update` over the remaining `keys`, with the
      pairs `found` and the keys `locked` so far. */
  function ScanKeys<K, V>(keys: seq<K>, items: map<K, Entry<V>>, tx: TxId, pred: (K, V) -> bool,
                          limit: Option<int>, found: seq<(K, V)>, locked: set<K>): Scan<K, V>
    requires forall k :: k in keys ==> k in items
  {
    if keys == [] then Scan(found, locked, false)
    else
      var k := keys[0];
      var e := items[k];
      if !e.value.Value? then ScanKeys(keys[1..], items, tx, pred, limit, found, locked)
      else if e.tx == Some(tx) then
        var current := e.DirtyValue();
        if current.Value? && pred(k, current.value) then
          var found' := found + [(k, e.value.value)];
          if Full(found', limit) then Scan(found', locked, false)
          else ScanKeys(keys[1..], items, tx, pred, limit, found', locked)
        else ScanKeys(keys[1..], items, tx, pred, limit, found, locked)
      else if !pred(k, e.value.value) then ScanKeys(keys[1..], items, tx, pred, limit, found, locked)
      else if e.tx.Some? then Scan(found, locked, true)
      else
        var found' := found + [(k, e.value.value)];
        if Full(found', limit) then Scan(found', locked + {k}, false)
        else ScanKeys(keys[1..], items, tx, pred, limit, found', locked + {k})
  }

  /** The keys of a list of pairs. */
  function FirstsOf<K, V>(ps: seq<(K, V)>): set<K> {
    set i | 0 <= i < |ps| :: ps[i].0
  }

  /** The scan only appends, and what it appends matches and carries the committed value. */
  lemma {:induction false} ScanFound<K, V>(keys: seq<K>, items: map<K, Entry<V>>, tx: TxId, pred: (K, V) -> bool,
                                          limit: Option<int>, found: seq<(K, V)>, locked: set<K>)
    requires forall k :: k in keys ==> k in items
    ensures var s := ScanKeys(keys, items, tx, pred, limit, found, locked);
      && |found| <= |s.found| && s.found[..|found|] == found
      && forall i :: |found| <= i < |s.found| ==>
           && s.found[i].0 in keys
           && items[s.found[i].0].value == Value(s.found[i].1)
           && Matches(s.found[i].0, items[s.found[i].0], tx, pred)
    decreases |keys|
  {
    if keys != [] {
      var k, e, rest := keys[0], items[keys[0]], keys[1..];
      var found' := if e.value.Value? then found + [(k, e.value.value)] else found;
      if !e.value.Value? {
        ScanFound(rest, items, tx, pred, limit, found, locked);
      } else if e.tx == Some(tx) {
        if e.DirtyValue().Value? && pred(k, e.DirtyValue().value) {
          if !Full(found', limit) {
            ScanFound(rest, items, tx, pred, limit, found', locked);
            var s := ScanKeys(rest, items, tx, pred, limit, found', locked);
            assert s.found[..|found|] == found'[..|found|];
            assert s.found[|found|] == found'[|found|];
          }
        } else {
          ScanFound(rest, items, tx, pred, limit, found, locked);
        }
      } else if !pred(k, e.value.value) {
        ScanFound(rest, items, tx, pred, limit, found, locked);
      } else if e.tx.None? && !Full(found', limit) {
        ScanFound(rest, items, tx, pred, limit, found', locked + {k});
        var s := ScanKeys(rest, items, tx, pred, limit, found', locked + {k});
        assert s.found[..|found|] == found'[..|found|];
        assert s.found[|found|] == found'[|found|];
      }
    }
  }

  /** The scan locks only keys nobody held, and only keys it collects. */
  lemma {:induction false} ScanLocks<K, V>(keys: seq<K>, items: map<K, Entry<V>>, tx: TxId, pred: (K, V) -> bool,
                                          limit: Option<int>, found: seq<(K, V)>, locked: set<K>)
    requires forall k :: k in keys ==> k in items
    ensures var s := ScanKeys(keys, items, tx, pred, limit, found, locked);
      && locked <= s.locked
      && forall k :: k in s.locked - locked ==> k in keys && items[k].tx.None? && k in FirstsOf(s.found)
    decreases |keys|
  {
    if keys != [] {
      var k, e, rest := keys[0], items[keys[0]], keys[1..];
      var found' := if e.value.Value? then found + [(k, e.value.value)] else found;
      if !e.value.Value? {
        ScanLocks(rest, items, tx, pred, limit, found, locked);
      } else if e.tx == Some(tx) {
        if e.DirtyValue().Value? && pred(k, e.DirtyValue().value) {
          if !Full(found', limit) {
            ScanLocks(rest, items, tx, pred, limit, found', locked);
            var s := ScanKeys(rest, items, tx, pred, limit, found', locked);
          }
        } else {
          ScanLocks(rest, items, tx, pred, limit, found, locked);
        }
      } else if !pred(k, e.value.value) {
        ScanLocks(rest, items, tx, pred, limit, found, locked);
      } else if e.tx.None? {
        assert found'[|found|].0 == k;
        if !Full(found', limit) {
          ScanLocks(rest, items, tx, pred, limit, found', locked + {k});
          ScanFound(rest, items, tx, pred, limit, found', locked + {k});
          var s := ScanKeys(rest, items, tx, pred, limit, found', locked + {k});
          assert s.found[|found|] == found'[|found|];
          assert k in FirstsOf(s.found);
          assert s == ScanKeys(keys, items, tx, pred, limit, found, locked);
          forall x | x in s.locked - locked
            ensures x in keys && items[x].tx.None? && x in FirstsOf(s.found)
          {
            if x != k {
              assert x in s.locked - (locked + {k});
            }
          }
        } else {
          assert k in FirstsOf(found');
        }
      }
    }
  }

  /** The scan times out only on a key it would have to wait for, and a scan
      that ran to the end without filling up passed no such key. */
  lemma {:induction false} ScanTimeout<K, V>(keys: seq<K>, items: map<K, Entry<V>>, tx: TxId, pred: (K, V) -> bool,
                                            limit: Option<int>, found: seq<(K, V)>, locked: set<K>)
    requires forall k :: k in keys ==> k in items
    ensures var s := ScanKeys(keys, items, tx, pred, limit, found, locked);
      && (s.timedOut ==> exists k :: k in keys && Blocks(k, items[k], tx, pred))
      && (!s.timedOut && !Full(s.found, limit) ==> forall k :: k in keys ==> !Blocks(k, items[k], tx, pred))
    decreases |keys|
  {
    if keys != [] {
      var k, e, rest := keys[0], items[keys[0]], keys[1..];
      var found' := if e.value.Value? then found + [(k, e.value.value)] else found;
      if !e.value.Value? {
        ScanTimeout(rest, items, tx, pred, limit, found, locked);
      } else if e.tx == Some(tx) {
        if e.DirtyValue().Value? && pred(k, e.DirtyValue().value) {
          if !Full(found', limit) {
            ScanTimeout(rest, items, tx, pred, limit, found', locked);
          }
        } else {
          ScanTimeout(rest, items, tx, pred, limit, found, locked);
        }
      } else if !pred(k, e.value.value) {
        ScanTimeout(rest, items, tx, pred, limit, found, locked);
      } else if e.tx.None? && !Full(found', limit) {
        ScanTimeout(rest, items, tx, pred, limit, found', locked + {k});
      }
    }
  }

  /** The scan stops as soon as it has collected `limit` pairs (it always
      collects at least one more before checking). */
  lemma {:induction false} ScanLength<K, V>(keys: seq<K>, items: map<K, Entry<V>>, tx: TxId, pred: (K, V) -> bool,
                                           limit: Option<int>, found: seq<(K, V)>, locked: set<K>)
    requires forall k :: k in keys ==> k in items
    requires limit.Some?
    ensures var s := ScanKeys(keys, items, tx, pred, limit, found, locked);
      |s.found| <= if limit.value <= |found| then |found| + 1 else limit.value
    decreases |keys|
  {
    if keys != [] {
      var k, e, rest := keys[0], items[keys[0]], keys[1..];
      var found' := if e.value.Value? then found + [(k, e.value.value)] else found;
      if !e.value.Value? {
        ScanLength(rest, items, tx, pred, limit, found, locked);
      } else if e.tx == Some(tx) {
        if e.DirtyValue().Value? && pred(k, e.DirtyValue().value) {
          if !Full(found', limit) {
            ScanLength(rest, items, tx, pred, limit, found', locked);
          }
        } else {
          ScanLength(rest, items, tx, pred, limit, found, locked);
        }
      } else if !pred(k, e.value.value) {
        ScanLength(rest, items, tx, pred, limit, found, locked);
      } else if e.tx.None? && !Full(found', limit) {
        ScanLength(rest, items, tx, pred, limit, found', locked + {k});
      }
    }
  }

  /** The contents after `tx` has taken the lock of every key in `locked`. */
  function LockAll<K, V>(d: Data<K, V>, locked: set<K>, tx: TxId): Data<K, V> {
    Dict(d.keys, map k | k in d.items :: if k in locked then d.items[k].(tx := Some(tx)) else d.items[k])
  }

  /** Locking one more key, as the loop of search_for_update does. */
  lemma LockOneMore<K, V>(d: Data<K, V>, locked: set<K>, tx: TxId, key: K)
    requires key in d.items && key !in locked
    ensures LockAll(d, locked + {key}, tx) == LockAll(d, locked, tx).Put(key, d.items[key].(tx := Some(tx)))
  {
    assert LockAll(d, locked + {key}, tx).items == LockAll(d, locked, tx).Put(key, d.items[key].(tx := Some(tx))).items;
  }

  lemma LockAllInv<K, V>(d: Data<K, V>, locked: set<K>, tx: TxId)
    requires Inv(d)
    requires forall k :: k in locked && k in d.items ==> d.items[k].tx.None? || d.items[k].tx == Some(tx)
    ensures Inv(LockAll(d, locked, tx))
    ensures Committed(LockAll(d, locked, tx)) == Committed(d)
  {
    var d' := LockAll(d, locked, tx);
    assert d'.items.Keys == d.items.Keys;
  }

  /** `search_for_update(predicate, limit=limit)`: collect, in store order,
      the keys matching the predicate and lock each one not yet held; stop
      once `limit` pairs are collected. The values returned are the committed
      ones. A matching key held by another transaction raises TimeoutError,
      and the locks taken before it stay held. */
  function SearchForUpdate<K, V>(d: Data<K, V>, view: Option<TxId>, pred: (K, V) -> bool, limit: Option<int>)
    : (s: Step<seq<(K, V)>, K, V>)
    requires Inv(d)
  {
    match view
    case None => Step(Err(RuntimeError(OutsideTransaction)), d)
    case Some(tx) =>
      var scan := ScanKeys(d.keys, d.items, tx, pred, limit, [], {});
      var state := LockAll(d, scan.locked, tx);
      if scan.timedOut then Step(Err(TimeoutError), state)
      else Step(Ok(Prefix(scan.found, limit)), state)
  }

  /** search_for_update never hands out or locks anything that does not
      match: every returned pair matches the predicate (against the dirty
      value for keys the transaction already held, against the committed
      value otherwise) and carries the committed value, so no key whose
      committed value is a marker is returned; at most `limit` pairs come
      back; the only entries that change are unheld matching keys, which the
      caller now holds; a timeout means some matching key is held by another
      transaction. Snapshot reads are unaffected. */
  lemma SearchForUpdateSound<K, V>(d: Data<K, V>, view: Option<TxId>, pred: (K, V) -> bool, limit: Option<int>)
    requires Inv(d)
    ensures var s := SearchForUpdate(d, view, pred, limit);
      && Inv(s.state)
      && Committed(s.state) == Committed(d)
      && (view.None? ==> s == Step(Err(RuntimeError(OutsideTransaction)), d))
      && (s.out.Ok? && limit.Some? ==> |s.out.value| <= if limit.value < 0 then 0 else limit.value)
      && (s.out.Ok? ==> forall i :: 0 <= i < |s.out.value| ==>
            && s.out.value[i].0 in d.items
            && d.items[s.out.value[i].0].value == Value(s.out.value[i].1)
            && Matches(s.out.value[i].0, d.items[s.out.value[i].0], view.value, pred))
      && (view.Some? && s.out.Err? ==>
            (s.out.error == TimeoutError && exists k :: k in d.items && Blocks(k, d.items[k], view.value, pred)))
      && s.state.keys == d.keys
      && s.state.items.Keys == d.items.Keys
      && (forall k :: k in d.items ==>
            (s.state.items[k] == d.items[k] ||
             (s.state.items[k] == d.items[k].(tx := view) && d.items[k].tx.None? && Matches(k, d.items[k], view.value, pred))))
  {
    if view.Some? {
      var tx := view.value;
      var scan := ScanKeys(d.keys, d.items, tx, pred, limit, [], {});
      ScanFound(d.keys, d.items, tx, pred, limit, [], {});
      ScanLocks(d.keys, d.items, tx, pred, limit, [], {});
      ScanTimeout(d.keys, d.items, tx, pred, limit, [], {});
      if limit.Some? {
        ScanLength(d.keys, d.items, tx, pred, limit, [], {});
      }
      LockAllInv(d, scan.locked, tx);
      var r := Prefix(scan.found, limit);
      forall i | 0 <= i < |r|
        ensures r[i] == scan.found[i]
      {
      }
      forall k | k in scan.locked
        ensures Matches(k, d.items[k], tx, pred)
      {
        var i :| 0 <= i < |scan.found| && scan.found[i].0 == k;
      }
    }
  }

  /** The position of the first of `keys` that the scan's test accepts, if any. */
  ghost function FirstMatch<K, V>(keys: seq<K>, items: map<K, Entry<V>>, tx: TxId, pred: (K, V) -> bool): (r: Option<nat>)
    requires forall k :: k in keys ==> k in items
    ensures r.Some? ==> r.value < |keys| && Matches(keys[r.value], items[keys[r.value]], tx, pred)
    ensures forall i :: 0 <= i < |keys| && (r.None? || i < r.value) ==> !Matches(keys[i], items[keys[i]], tx, pred)
    decreases |keys|
  {
    if keys == [] then None
    else if Matches(keys[0], items[keys[0]], tx, pred) then Some(0)
    else
      var r := FirstMatch(keys[1..], items, tx, pred);
      assert forall i :: 1 <= i < |keys| ==> keys[i] == keys[1..][i - 1];
      if r.None? then None else Some(r.value + 1)
  }

  /** A scan for one pair stops at the first matching key: with none, it
      finds nothing; if that key is held by another transaction it times
      out with nothing found; otherwise it finds exactly that key with its
      committed value. */
  lemma {:induction false} ScanFirstMatch<K, V>(keys: seq<K>, items: map<K, Entry<V>>, tx: TxId, pred: (K, V) -> bool,
                                                locked: set<K>)
    requires forall k :: k in keys ==> k in items
    ensures var s := ScanKeys(keys, items, tx, pred, Some(1), [], locked);
      match FirstMatch(keys, items, tx, pred)
      case None => !s.timedOut && s.found == []
      case Some(i) =>
        if Blocks(keys[i], items[keys[i]], tx, pred) then s.timedOut && s.found == []
        else !s.timedOut && s.found == [(keys[i], items[keys[i]].value.value)]
    decreases |keys|
  {
    if keys != [] {
      var k, e := keys[0], items[keys[0]];
      var rest := keys[1..];
      ScanFirstMatch(rest, items, tx, pred, locked);
      var s := ScanKeys(keys, items, tx, pred, Some(1), [], locked);
      if Matches(k, e, tx, pred) {
        assert FirstMatch(keys, items, tx, pred) == Some(0);
        if e.tx == Some(tx) {
          assert Full([] + [(k, e.value.value)], Some(1));
          assert s == Scan([] + [(k, e.value.value)], locked, false);
        } else if e.tx.Some? {
          assert s == Scan([], locked, true);
        } else {
          assert Full([] + [(k, e.value.value)], Some(1));
          assert s == Scan([] + [(k, e.value.value)], locked + {k}, false);
        }
      } else {
        assert s == ScanKeys(rest, items, tx, pred, Some(1), [], locked);
        var r := FirstMatch(rest, items, tx, pred);
        if r.Some? {
          assert keys[r.value + 1] == rest[r.value];
        }
      }
    }
  }

  /** With no limit, a scan that does not time out collects every matching key. */
  lemma {:induction false} ScanComplete<K, V>(keys: seq<K>, items: map<K, Entry<V>>, tx: TxId, pred: (K, V) -> bool,
                                             found: seq<(K, V)>, locked: set<K>)
    requires forall k :: k in keys ==> k in items
    ensures var s := ScanKeys(keys, items, tx, pred, None, found, locked);
      !s.timedOut ==> forall k :: k in keys && Matches(k, items[k], tx, pred) ==> k in FirstsOf(s.found)
    decreases |keys|
  {
    if keys != [] {
      var k, e, rest := keys[0], items[keys[0]], keys[1..];
      if !e.value.Value? || (e.tx != Some(tx) && !pred(k, e.value.value)) {
        ScanComplete(rest, items, tx, pred, found, locked);
      } else if e.tx == Some(tx) {
        if e.DirtyValue().Value? && pred(k, e.DirtyValue().value) {
          var found' := found + [(k, e.value.value)];
          ScanComplete(rest, items, tx, pred, found', locked);
          ScanFound(rest, items, tx, pred, None, found', locked);
          var s := ScanKeys(rest, items, tx, pred, None, found', locked);
          assert s.found[|found|] == found'[|found|];
          assert k in FirstsOf(s.found);
        } else {
          ScanComplete(rest, items, tx, pred, found, locked);
        }
      } else if e.tx.None? {
        var found' := found + [(k, e.value.value)];
        ScanComplete(rest, items, tx, pred, found', locked + {k});
        ScanFound(rest, items, tx, pred, None, found', locked + {k});
        var s := ScanKeys(rest, items, tx, pred, None, found', locked + {k});
        assert s.found[|found|] == found'[|found|];
        assert k in FirstsOf(s.found);
      }
    }
  }

  /** The entries search_for_update changes are those of keys its scan
      collected, and the scan collects at most `limit` pairs (one, for a limit
      of zero or less). */
  lemma SearchLocksFound<K, V>(d: Data<K, V>, tx: TxId, pred: (K, V) -> bool, limit: Option<int>)
    requires Inv(d)
    ensures var scan := ScanKeys(d.keys, d.items, tx, pred, limit, [], {});
            var s := SearchForUpdate(d, Some(tx), pred, limit);
      && s.state == LockAll(d, scan.locked, tx)
      && (forall k :: k in scan.locked ==> k in d.items && d.items[k].tx.None? && k in FirstsOf(scan.found))
      && (limit.Some? ==> |scan.found| <= if limit.value <= 0 then 1 else limit.value)
  {
    ScanLocks(d.keys, d.items, tx, pred, limit, [], {});
    if limit.Some? {
      ScanLength(d.keys, d.items, tx, pred, limit, [], {});
    }
  }

  // ---------------------------------------------------------------------
  // Leaving a transaction

  /** On commit, a key the exiting transaction holds with a pending `DELETED` is removed. */
  predicate Popped<V>(e: Entry<V>, tx: TxId, commit: bool) {
    commit && e.tx == Some(tx) && e.newValue == Deleted
  }

  /** What `__exit__` leaves in an entry it does not remove: the lock of `tx`
      released, no pending value, and on commit the pending value (if any)
      as the committed one. Entries held by others are left alone. */
  function Released<V>(e: Entry<V>, tx: TxId, commit: bool): Entry<V> {
    if e.tx != Some(tx) then e
    else Entry(if commit && e.newValue.Value? then e.newValue else e.value, None, NoValue)
  }

  /** The keys among `done` that the exit removes. */
  function Gone<K, V>(d: Data<K, V>, tx: TxId, commit: bool, done: set<K>): set<K> {
    set k | k in done && k in d.items && Popped(d.items[k], tx, commit)
  }

  /** The contents once `__exit__` has processed the keys in `done`. */
  function ExitOn<K, V>(d: Data<K, V>, tx: TxId, commit: bool, done: set<K>): Data<K, V> {
    Dict(Without(d.keys, Gone(d, tx, commit, done)),
         map k | k in d.items && k !in Gone(d, tx, commit, done) ::
           if k in done then Released(d.items[k], tx, commit) else d.items[k])
  }

  lemma ExitOnInv<K, V>(d: Data<K, V>, tx: TxId, commit: bool, done: set<K>)
    requires Inv(d)
    ensures Inv(ExitOn(d, tx, commit, done))
  {
  }

  /** `_Transaction.__exit__` on the shared contents: apply (commit) or drop
      (rollback) the pending writes of `tx` and release all of its locks. */
  function ExitTransaction<K, V>(d: Data<K, V>, tx: TxId, commit: bool): (r: Data<K, V>)
    requires Inv(d)
    ensures Inv(r)
    // a key removed is one whose pending value was DELETED, on commit
    ensures forall k :: k in d.items ==> (k in r.items <==> !Popped(d.items[k], tx, commit))
    ensures forall k :: k in r.items ==> k in d.items
    // every other key held by tx: released, the pending value committed (on commit) or dropped
    ensures forall k :: k in r.items && d.items[k].tx == Some(tx) ==>
      r.items[k] == Entry(if commit && d.items[k].newValue.Value? then d.items[k].newValue else d.items[k].value,
                          None, NoValue)
    // keys held by others, and keys nobody holds, are untouched
    ensures forall k :: k in r.items && d.items[k].tx != Some(tx) ==> r.items[k] == d.items[k]
    // the keys that stay keep their insertion order
    ensures r.keys == Without(d.keys, set k | k in d.items && Popped(d.items[k], tx, commit))
    // rollback changes no committed value and keeps every key in place
    ensures !commit ==> Committed(r) == Committed(d) && r.keys == d.keys
  {
    ExitOnInv(d, tx, commit, d.items.Keys);
    assert Gone(d, tx, commit, d.items.Keys) == set k | k in d.items && Popped(d.items[k], tx, commit);
    if !commit then RollbackKeepsKeys(d, tx); ExitOn(d, tx, commit, d.items.Keys)
    else ExitOn(d, tx, commit, d.items.Keys)
  }

  lemma RollbackKeepsKeys<K, V>(d: Data<K, V>, tx: TxId)
    ensures ExitOn(d, tx, false, d.items.Keys).keys == d.keys
    ensures Committed(ExitOn(d, tx, false, d.items.Keys)) == Committed(d)
  {
    assert Gone(d, tx, false, d.items.Keys) == {};
    WithoutNothing(d.keys, {});
  }

  /** One iteration of the `__exit__` loop, on key `k`. */
  lemma ExitOnStep<K, V>(d: Data<K, V>, tx: TxId, commit: bool, done: set<K>, k: K)
    requires k in d.items && k !in done
    ensures var cur := ExitOn(d, tx, commit, done);
      && k in cur.items && cur.items[k] == d.items[k]
      && ExitOn(d, tx, commit, done + {k}) ==
           if Popped(d.items[k], tx, commit) then cur.RemoveAll({k})
           else if d.items[k].tx == Some(tx) then cur.Put(k, Released(d.items[k], tx, commit))
           else cur
  {
    var gone := Gone(d, tx, commit, done);
    var cur := ExitOn(d, tx, commit, done);
    var next := ExitOn(d, tx, commit, done + {k});
    if Popped(d.items[k], tx, commit) {
      assert Gone(d, tx, commit, done + {k}) == gone + {k};
      WithoutTwice(d.keys, gone, {k});
      assert next.items == cur.RemoveAll({k}).items;
    } else {
      assert Gone(d, tx, commit, done + {k}) == gone;
      assert next.items == if d.items[k].tx == Some(tx) then cur.items[k := Released(d.items[k], tx, commit)] else cur.items;
    }
  }

  lemma ExitOnStart<K, V>(d: Data<K, V>, tx: TxId, commit: bool)
    requires d.Valid()
    ensures ExitOn(d, tx, commit, {}) == d
  {
    assert Gone(d, tx, commit, {}) == {};
    WithoutNothing(d.keys, {});
    assert ExitOn(d, tx, commit, {}).items == d.items;
  }

  /** Keys the transaction holds. */
  function HeldBy<K, V>(d: Data<K, V>, tx: TxId): set<K> {
    set k | k in d.items && d.items[k].tx == Some(tx)
  }

  /** On either exit, the transaction holds no lock afterwards. */
  lemma ExitReleasesAll<K, V>(d: Data<K, V>, tx: TxId, commit: bool)
    requires Inv(d)
    ensures HeldBy(ExitTransaction(d, tx, commit), tx) == {}
  {
    var r := ExitTransaction(d, tx, commit);
    forall k | k in r.items
      ensures r.items[k].tx != Some(tx)
    {
    }
  }


  /** Exiting takes no lock, so every holder is still one issued before. */
  lemma ExitKeepsOwners<K, V>(d: Data<K, V>, tx: TxId, commit: bool, n: nat)
    requires Inv(d) && OwnersBelow(d, n)
    ensures OwnersBelow(ExitTransaction(d, tx, commit), n)
  {
  }

  /** `__exit__` as written: it walks the live dict while popping from it, so
      right after the first pop the next step of the iteration raises
      RuntimeError, leaving the locks of the keys after it held and the view
      still bound to the transaction. */
  function ExitAsWritten<K, V>(d: Data<K, V>, tx: TxId, commit: bool): Step<(), K, V>
    requires Inv(d)
  {
    ExitLive(d, d.keys, tx, commit)
  }

  function ExitLive<K, V>(cur: Data<K, V>, rest: seq<K>, tx: TxId, commit: bool): Step<(), K, V>
    requires forall k :: k in rest ==> k in cur.items
    decreases |rest|
  {
    if rest == [] then Step(Ok(()), cur)
    else
      var k := rest[0];
      var e := cur.items[k];
      if e.tx != Some(tx) then ExitLive(cur, rest[1..], tx, commit)
      else if Popped(e, tx, commit) then Step(Err(RuntimeError(DictChangedSize)), cur.RemoveAll({k}))
      else ExitLive(cur.Put(k, Released(e, tx, commit)), rest[1..], tx, commit)
  }

  lemma {:induction false} ExitLiveFails<K, V>(cur: Data<K, V>, rest: seq<K>, tx: TxId, commit: bool, i: nat)
    requires forall k :: k in rest ==> k in cur.items
    requires i < |rest| && Popped(cur.items[rest[i]], tx, commit)
    ensures ExitLive(cur, rest, tx, commit).out == Err(RuntimeError(DictChangedSize))
    decreases i
  {
    var k := rest[0];
    var e := cur.items[k];
    if e.tx == Some(tx) && !Popped(e, tx, commit) {
      assert rest[i] != k;
      ExitLiveFails(cur.Put(k, Released(e, tx, commit)), rest[1..], tx, commit, i - 1);
    } else if e.tx != Some(tx) {
      assert rest[i] != k;
      ExitLiveFails(cur, rest[1..], tx, commit, i - 1);
    }
  }

  /** As written, every commit of a transaction with a pending delete raises. */
  lemma ExitAsWrittenFailsOnDelete<K, V>(d: Data<K, V>, tx: TxId, key: K)
    requires Inv(d) && key in d.items && Popped(d.items[key], tx, true)
    ensures ExitAsWritten(d, tx, true).out == Err(RuntimeError(DictChangedSize))
  {
    var i :| 0 <= i < |d.keys| && d.keys[i] == key;
    ExitLiveFails(d, d.keys, tx, true, i);
  }

  /** A concrete case: transaction 0 deletes key 1 and writes key 2. As
      written, the commit raises after removing key 1 and key 2 stays locked
      with its write uncommitted; the corrected exit commits both. */
  lemma ExitAsWrittenExample()
    ensures var d: Data<int, int> := Dict([1, 2], map[1 := Entry(Value(10), Some(0), Deleted),
                                                      2 := Entry(Value(20), Some(0), Value(21))]);
      && Inv(d)
      && var s := ExitAsWritten(d, 0, true);
      && s.out == Err(RuntimeError(DictChangedSize))
      && 1 !in s.state.items
      && 2 in s.state.items && s.state.items[2] == Entry(Value(20), Some(0), Value(21))
      && var r := ExitTransaction(d, 0, true);
      && 1 !in r.items
      && 2 in r.items && r.items[2] == Entry(Value(21), None, NoValue)
  {
    var d: Data<int, int> := Dict([1, 2], map[1 := Entry(Value(10), Some(0), Deleted),
                                              2 := Entry(Value(20), Some(0), Value(21))]);
    assert Inv(d);
    assert d.keys[0] == 1;
    ExitLiveFails(d, d.keys, 0, true, 0);
  }

  // ---------------------------------------------------------------------
  // Writes become visible exactly at commit

  /** After committing a write, snapshot reads see it. */
  lemma WriteThenCommit<K, V>(d: Data<K, V>, tx: TxId, key: K, value: V)
    requires Inv(d) && !HeldByOther(d, key, tx)
    ensures var d1 := SetItem(d, Some(tx), key, value).state;
      && GetItem(d1, key) == GetItem(d, key)
      && GetItem(ExitTransaction(d1, tx, true), key) == Ok(value)
  {
  }

  /** After committing a delete, the key is gone. */
  lemma DeleteThenCommit<K, V>(d: Data<K, V>, tx: TxId, key: K)
    requires Inv(d) && key in Committed(d) && !HeldByOther(d, key, tx)
    ensures var d1 := DelItem(d, Some(tx), key).state;
      && GetItem(d1, key) == GetItem(d, key)
      && key !in ExitTransaction(d1, tx, true).items
      && GetItem(ExitTransaction(d1, tx, true), key) == Err(KeyError)
  {
  }

  /** Inside the transaction, get_for_update sees its own pending write. */
  lemma ReadYourWrite<K, V>(d: Data<K, V>, tx: TxId, key: K, value: V, hasDefault: bool)
    requires Inv(d) && !HeldByOther(d, key, tx)
    ensures var d1 := SetItem(d, Some(tx), key, value).state;
      GetForUpdate(d1, Some(tx), key, hasDefault).out == Ok(Some(value))
  {
    var d1 := SetItem(d, Some(tx), key, value).state;
    assert d1.items[key].DirtyValue() == Value(value);
  }

  /** Inside the transaction, get_for_update sees its own pending delete. */
  lemma ReadYourDelete<K, V>(d: Data<K, V>, tx: TxId, key: K, hasDefault: bool)
    requires Inv(d) && key in Committed(d) && !HeldByOther(d, key, tx)
    ensures var d2 := DelItem(d, Some(tx), key).state;
      GetForUpdate(d2, Some(tx), key, hasDefault).out == if hasDefault then Ok(None) else Err(KeyError)
  {
    var d2 := DelItem(d, Some(tx), key).state;
    assert d2.items[key].DirtyValue() == Deleted;
  }

  // ---------------------------------------------------------------------
  // Sequences of operations by several transactions

  /** One call on a view bound to transaction `tx`. */
  datatype Op<!K, !V> =
    | SetOp(tx: TxId, key: K, value: V)
    | DelOp(tx: TxId, key: K)
    | ForUpdateOp(tx: TxId, key: K, hasDefault: bool)
    | SearchOp(tx: TxId, pred: (K, V) -> bool, limit: Option<int>)
    | ExitOp(tx: TxId, commit: bool)

  function Apply<K, V>(d: Data<K, V>, op: Op<K, V>): (r: Data<K, V>)
    requires Inv(d)
    ensures Inv(r)
  {
    match op
    case SetOp(tx, key, value) => SetItem(d, Some(tx), key, value).state
    case DelOp(tx, key) => DelItem(d, Some(tx), key).state
    case ForUpdateOp(tx, key, hasDefault) => GetForUpdate(d, Some(tx), key, hasDefault).state
    case SearchOp(tx, pred, limit) =>
      SearchForUpdateSound(d, Some(tx), pred, limit);
      SearchForUpdate(d, Some(tx), pred, limit).state
    case ExitOp(tx, commit) => ExitTransaction(d, tx, commit)
  }

  function Run<K, V>(d: Data<K, V>, ops: seq<Op<K, V>>): (r: Data<K, V>)
    requires Inv(d)
    ensures Inv(r)
    decreases |ops|
  {
    if ops == [] then d else Run(Apply(d, ops[0]), ops[1..])
  }

  /** A single call that is not a commit leaves the committed contents alone. */
  lemma ApplyKeepsCommitted<K, V>(d: Data<K, V>, op: Op<K, V>)
    requires Inv(d) && !(op.ExitOp? && op.commit)
    ensures Committed(Apply(d, op)) == Committed(d)
  {
    if op.SearchOp? {
      SearchForUpdateSound(d, Some(op.tx), op.pred, op.limit);
    }
  }

  /** Rollback isolation: as long as no transaction commits, every snapshot
      read sees exactly what it saw before, whatever the transactions wrote,
      deleted, locked or rolled back. */
  lemma {:induction false} RollbackIsolation<K, V>(d: Data<K, V>, ops: seq<Op<K, V>>)
    requires Inv(d)
    requires forall i :: 0 <= i < |ops| ==> !(ops[i].ExitOp? && ops[i].commit)
    ensures Committed(Run(d, ops)) == Committed(d)
    ensures forall k :: GetItem(Run(d, ops), k) == GetItem(d, k)
    decreases |ops|
  {
    if ops != [] {
      ApplyKeepsCommitted(d, ops[0]);
      RollbackIsolation(Apply(d, ops[0]), ops[1..]);
    }
  }

  /** A single call by a transaction other than `t` leaves the entry of a key
      `t` holds alone. */
  lemma ApplyKeepsHeld<K, V>(d: Data<K, V>, op: Op<K, V>, k: K, t: TxId)
    requires Inv(d) && k in d.items && d.items[k].tx == Some(t) && op.tx != t
    ensures SameEntry(d, Apply(d, op), k)
  {
    match op {
      case SetOp(tx, key, value) =>
        assert HeldByOther(d, k, tx);
      case DelOp(tx, key) =>
        assert HeldByOther(d, k, tx);
      case ForUpdateOp(tx, key, hasDefault) =>
        assert HeldByOther(d, k, tx);
      case SearchOp(tx, pred, limit) =>
        SearchForUpdateSound(d, Some(tx), pred, limit);
      case ExitOp(tx, commit) =>
    }
  }

  /** Mutual exclusion: once transaction `t` holds key `k`, no sequence of
      calls by other transactions changes its entry: they cannot take its
      lock, write it, delete it or commit over it. */
  lemma {:induction false} LockExclusive<K, V>(d: Data<K, V>, ops: seq<Op<K, V>>, k: K, t: TxId)
    requires Inv(d) && k in d.items && d.items[k].tx == Some(t)
    requires forall i :: 0 <= i < |ops| ==> ops[i].tx != t
    ensures k in Run(d, ops).items && Run(d, ops).items[k] == d.items[k]
    decreases |ops|
  {
    if ops != [] {
      ApplyKeepsHeld(d, ops[0], k, t);
      LockExclusive(Apply(d, ops[0]), ops[1..], k, t);
    }
  }

  /** A rolled-back write of a new key leaves a "ghost" entry behind: the key
      is still counted by `len` and listed by iteration, but a snapshot read
      raises KeyError and search_for_update never returns it. */
  lemma RolledBackInsertLeavesGhost<K, V>(d: Data<K, V>, tx: TxId, key: K, value: V,
                                          pred: (K, V) -> bool, limit: Option<int>, other: TxId)
    requires Inv(d) && key !in d.items
    ensures var d' := ExitTransaction(SetItem(d, Some(tx), key, value).state, tx, false);
      && d'.keys == d.keys + [key]
      && |d'.keys| == |d.keys| + 1
      && key in d'.items && d'.items[key] == Entry(NoValue, None, NoValue)
      && GetItem(d', key) == Err(KeyError)
      && var s := SearchForUpdate(d', Some(other), pred, limit);
         s.out.Ok? ==> forall i :: 0 <= i < |s.out.value| ==> s.out.value[i].0 != key
  {
    var d1 := SetItem(d, Some(tx), key, value).state;
    var d' := ExitTransaction(d1, tx, false);
    SearchForUpdateSound(d', Some(other), pred, limit);
  }
}
