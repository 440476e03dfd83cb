/** The classes of transactional_dict.py. A view made by `transaction()` is a
    shallow copy of the store: it shares the table of entries (`_data`) with
    the store it was made from and differs only in the transaction it is
    bound to. Every method is proved to do exactly what the function of the
    same name in TxSpec says, so the lemmas proved there hold of these
    methods. */
module TxDict {
  import opened Common
  import opened Dicts
  import opened TxSpec

  /** The `_data` dict that all views of one store share. `issued` counts the
      `_Transaction` objects made so far: a transaction is known by the
      number it was issued under, which stands for its object identity. */
  class EntryTable<K(==), V> {
    var data: Data<K, V>
    var issued: nat

    ghost predicate Valid()
      reads this
    {
      Inv(data) && OwnersBelow(data, issued)
    }

    constructor ()
      ensures Valid() && data == EmptyDict() && issued == 0
    {
      data := EmptyDict();
      issued := 0;
    }

    /** The loop of `_Transaction.__exit__` over the entries: for every key
        held by transaction `id`, apply (on commit) or drop its pending value
        and release the lock. It walks a snapshot of the keys, so popping a
        deleted key does not disturb the iteration. */
    method Release(id: TxId, commit: bool)
      requires Inv(data)
      modifies this
      ensures data == ExitTransaction(old(data), id, commit)
      ensures issued == old(issued)
    {
      ghost var d0 := data;
      var ks := data.keys;
      ghost var done: set<K> := {};
      ExitOnStart(d0, id, commit);
      var i := 0;
      while i < |ks|
        invariant 0 <= i <= |ks| && ks == d0.keys
        invariant data == ExitOn(d0, id, commit, done)
        invariant done == Elems(ks[..i])
        invariant issued == old(issued)
      {
        var key := ks[i];
        NextElem(ks, i);
        ReleaseKey(key, id, commit, d0, done);
        done := done + {key};
        i := i + 1;
      }
      assert ks[..i] == ks;
      assert done == d0.items.Keys;
    }

    /** One round of the loop of `__exit__`, on `key`. */
    method ReleaseKey(key: K, id: TxId, commit: bool, ghost d0: Data<K, V>, ghost done: set<K>)
      requires key in d0.items && key !in done
      requires data == ExitOn(d0, id, commit, done)
      modifies this
      ensures data == ExitOn(d0, id, commit, done + {key})
      ensures issued == old(issued)
    {
      ExitOnStep(d0, id, commit, done, key);
      var entry := data.items[key];
      if entry.tx == Some(id) {
        if commit && entry.newValue == Deleted {
          data := data.RemoveAll({key});
        } else {
          var value := if commit && entry.newValue.Value? then entry.newValue else entry.value;
          data := data.Put(key, Entry(value, None, NoValue));
        }
      }
    }
  }

  class TransactionalDict<K(==), V> {
    const shared: EntryTable<K, V>
    var tx: Option<TxId>

    ghost predicate Valid()
      reads this, shared
    {
      shared.Valid() && (tx.Some? ==> tx.value < shared.issued)
    }

    /** `TransactionalDict(timeout)`: an empty store, outside any transaction. */
    constructor ()
      ensures Valid() && fresh(shared) && shared.data == EmptyDict() && shared.issued == 0 && tx == None
    {
      shared := new EntryTable();
      tx := None;
    }

    /** `copy.copy(store)` with `_tx` then set: a view on the same entries. */
    constructor View(shared: EntryTable<K, V>, id: TxId)
      requires shared.Valid() && id < shared.issued
      ensures this.shared == shared && tx == Some(id) && Valid()
    {
      this.shared := shared;
      tx := Some(id);
    }

    /** `__iter__`: every key of the table in insertion order, including
        entries that have no committed value. */
    function Iter(): (ks: seq<K>)
      requires Valid()
      reads this, shared
      ensures Distinct(ks)
      ensures forall k :: k in ks ==> k in shared.data.items
      ensures forall k :: k in shared.data.items ==> k in ks
    {
      shared.data.keys
    }

    /** `__len__`: the number of entries, committed or not. */
    function Len(): (n: nat)
      requires Valid()
      reads this, shared
      ensures n == |shared.data.items.Keys|
    {
      shared.data.LengthIsSize();
      |shared.data.keys|
    }

    /** `__getitem__`: the committed value, whoever holds the key; KeyError
        for an absent key and for an entry with no committed value. */
    function GetItem(key: K): (r: Result<V>)
      reads this, shared
      ensures r.Ok? <==> key in Committed(shared.data)
      ensures r.Ok? ==> r.value == Committed(shared.data)[key]
      ensures r.Err? ==> r.error == KeyError
    {
      TxSpec.GetItem(shared.data, key)
    }

    /** `__validate_tx`: the transaction this view is bound to. */
    function ValidateTx(): (r: Result<TxId>)
      reads this
      ensures r.Ok? <==> tx.Some?
      ensures r.Ok? ==> r.value == tx.value
      ensures r.Err? ==> r.error == RuntimeError(OutsideTransaction)
    {
      if tx.None? then Err(RuntimeError(OutsideTransaction)) else Ok(tx.value)
    }

    /** `__get_entry(key, tx, create)`. The `while True` loop waits on the
        condition variable while another transaction holds the key; with no
        other thread to release it, the wait ends in TimeoutError. The result
        says whether an entry was found. */
    method GetEntry(key: K, t: TxId, create: bool) returns (r: Result<bool>)
      requires Valid() && t < shared.issued
      modifies shared
      ensures Valid() && shared.issued == old(shared.issued)
      ensures Step(r, shared.data) == Acquire(old(shared.data), key, t, create)
    {
      if key !in shared.data.items {
        if !create {
          return Ok(false);
        }
        shared.data := shared.data.Put(key, Entry(NoValue, Some(t), NoValue));
      }
      var entry := shared.data.items[key];
      if entry.tx.None? {
        entry := entry.(tx := Some(t));
        shared.data := shared.data.Put(key, entry);
      }
      if entry.tx != Some(t) {
        return Err(TimeoutError);
      }
      return Ok(true);
    }

    /** `__setitem__` */
    method SetItem(key: K, value: V) returns (r: Result<()>)
      requires Valid()
      modifies shared
      ensures Valid() && shared.issued == old(shared.issued)
      ensures Step(r, shared.data) == TxSpec.SetItem(old(shared.data), tx, key, value)
    {
      var v := ValidateTx();
      if v.Err? {
        return Err(v.error);
      }
      var a := GetEntry(key, v.value, true);
      if a.Err? {
        return Err(a.error);
      }
      shared.data := shared.data.Put(key, shared.data.items[key].(newValue := Value(value)));
      return Ok(());
    }

    /** `__delitem__` */
    method DelItem(key: K) returns (r: Result<()>)
      requires Valid()
      modifies shared
      ensures Valid() && shared.issued == old(shared.issued)
      ensures Step(r, shared.data) == TxSpec.DelItem(old(shared.data), tx, key)
    {
      var v := ValidateTx();
      if v.Err? {
        return Err(v.error);
      }
      var a := GetEntry(key, v.value, false);
      if a.Err? {
        return Err(a.error);
      }
      if !a.value || !shared.data.items[key].value.Value? {
        return Err(KeyError);
      }
      shared.data := shared.data.Put(key, shared.data.items[key].(newValue := Deleted));
      return Ok(());
    }

    /** `get_for_update(key[, default])`. `Ok(None)` stands for the default
        being returned. */
    method GetForUpdate(key: K, hasDefault: bool) returns (r: Result<Option<V>>)
      requires Valid()
      modifies shared
      ensures Valid() && shared.issued == old(shared.issued)
      ensures Step(r, shared.data) == TxSpec.GetForUpdate(old(shared.data), tx, key, hasDefault)
    {
      var v := ValidateTx();
      if v.Err? {
        return Err(v.error);
      }
      if key !in shared.data.items {
        return Err(KeyError);
      }
      var a := GetEntry(key, v.value, false);
      if a.Err? {
        return Err(a.error);
      }
      var current := shared.data.items[key].DirtyValue();
      if !current.Value? {
        return if hasDefault then Ok(None) else Err(KeyError);
      }
      return Ok(Some(current.value));
    }

    /** One round of the loop of `search_for_update`: test `key` and, if it
        matches, lock it (unless already held) and collect it. `stop` says
        the limit is reached; `err` is the failure to acquire the key. */
    method SearchKey(key: K, t: TxId, pred: (K, V) -> bool, limit: Option<int>, results: seq<(K, V)>,
                     ghost d0: Data<K, V>, ghost locked: set<K>, ghost todo: seq<K>)
      returns (results': seq<(K, V)>, stop: bool, err: Option<Exc>, ghost locked': set<K>)
      requires Valid() && t < shared.issued
      requires key in d0.items && key !in locked
      requires |todo| > 0 && todo[0] == key
      requires forall k :: k in todo ==> k in d0.items
      requires shared.data == LockAll(d0, locked, t)
      requires forall k :: k in locked ==> k in d0.items && d0.items[k].tx.None?
      modifies shared
      ensures Valid() && shared.issued == old(shared.issued)
      ensures shared.data == LockAll(d0, locked', t)
      ensures locked <= locked' <= locked + {key}
      ensures forall k :: k in locked' ==> k in d0.items && d0.items[k].tx.None?
      ensures var s := ScanKeys(todo, d0.items, t, pred, limit, results, locked);
        if err.Some? then err.value == TimeoutError && locked' == locked && s == Scan(results, locked, true)
        else if stop then s == Scan(results', locked', false)
        else s == ScanKeys(todo[1..], d0.items, t, pred, limit, results', locked')
    {
      var entry := shared.data.items[key];
      assert entry == d0.items[key];
      results', stop, err, locked' := results, false, None, locked;
      if entry.value.Value? {
        if entry.tx == Some(t) {
          // already held by this transaction: test the dirty value
          var current := entry.DirtyValue();
          if current.Value? && pred(key, current.value) {
            results' := results + [(key, entry.value.value)];
            stop := Full(results', limit);
          }
        } else if pred(key, entry.value.value) {
          var a := GetEntry(key, t, false);
          if a.Err? {
            err := Some(a.error);
            return;
          }
          var lockEntry := shared.data.items[key];
          assert lockEntry.newValue == NoValue;
          LockOneMore(d0, locked, t, key);
          locked' := locked + {key};
          results' := results + [(key, lockEntry.value.value)];
          stop := Full(results', limit);
        }
      }
    }

    /** `search_for_update(predicate, limit=limit)` */
    method SearchForUpdate(pred: (K, V) -> bool, limit: Option<int>) returns (r: Result<seq<(K, V)>>)
      requires Valid()
      modifies shared
      ensures Valid() && shared.issued == old(shared.issued)
      ensures Step(r, shared.data) == TxSpec.SearchForUpdate(old(shared.data), tx, pred, limit)
    {
      var v := ValidateTx();
      if v.Err? {
        return Err(v.error);
      }
      var t := v.value;
      ghost var d0 := shared.data;
      ghost var total := ScanKeys(d0.keys, d0.items, t, pred, limit, [], {});
      var ks := shared.data.keys;
      var results: seq<(K, V)> := [];
      ghost var locked: set<K> := {};
      var i := 0;
      while i < |ks|
        invariant 0 <= i <= |ks| && ks == d0.keys
        invariant shared.data == LockAll(d0, locked, t)
        invariant forall k :: k in locked ==> k in d0.items && d0.items[k].tx.None?
        invariant forall j :: i <= j < |ks| ==> ks[j] !in locked
        invariant ScanKeys(ks[i..], d0.items, t, pred, limit, results, locked) == total
        invariant shared.issued == old(shared.issued) && Valid()
      {
        assert ks[i..][1..] == ks[i + 1..];
        var stop, err;
        results, stop, err, locked := SearchKey(ks[i], t, pred, limit, results, d0, locked, ks[i..]);
        if err.Some? {
          return Err(err.value);
        }
        if stop {
          break;
        }
        i := i + 1;
      }
      return Ok(Prefix(results, limit));
    }

    /** `transaction()`: a fresh transaction together with a fresh view bound
        to it. A view that is already bound refuses. */
    method NewTransaction() returns (r: Result<Transaction<K, V>>)
      requires Valid()
      modifies shared
      ensures Valid()
      ensures shared.data == old(shared.data)
      ensures tx.Some? ==> r == Err(RuntimeError(TransactionInProgress)) && shared.issued == old(shared.issued)
      ensures tx.None? ==>
        && r.Ok?
        && fresh(r.value) && fresh(r.value.storage)
        && r.value.id == old(shared.issued) && shared.issued == old(shared.issued) + 1
        && r.value.storage.shared == shared && r.value.storage.tx == Some(r.value.id)
        && r.value.level == 0 && r.value.Valid()
        && HeldBy(shared.data, r.value.id) == {}
    {
      if tx.Some? {
        return Err(RuntimeError(TransactionInProgress));
      }
      var id := shared.issued;
      shared.issued := shared.issued + 1;
      var view := new TransactionalDict.View(shared, id);
      var t := new Transaction(view, id);
      return Ok(t);
    }
  }

  /** `_Transaction`: the context manager of one transaction. */
  class Transaction<K(==), V> {
    const storage: TransactionalDict<K, V>
    const id: TxId
    var level: int

    ghost predicate Valid()
      reads this, storage, storage.shared
    {
      storage.Valid() && id < storage.shared.issued
    }

    constructor (storage: TransactionalDict<K, V>, id: TxId)
      ensures this.storage == storage && this.id == id && level == 0
    {
      this.storage := storage;
      this.id := id;
      level := 0;
    }

    /** `__enter__`: the view, unless the transaction is already entered. */
    method Enter() returns (r: Result<TransactionalDict<K, V>>)
      modifies this
      ensures old(level) > 0 ==> r == Err(RuntimeError(NestedTransaction)) && level == old(level)
      ensures old(level) <= 0 ==> r == Ok(storage) && level == old(level) + 1
    {
      if level > 0 {
        return Err(RuntimeError(NestedTransaction));
      }
      level := level + 1;
      return Ok(storage);
    }

    /** `__exit__`: commit when the block ended normally, roll back when it
        raised. The loop walks a snapshot of the keys, so popping a deleted
        key does not disturb it. */
    method Exit(commit: bool)
      requires Valid()
      modifies this, storage, storage.shared
      ensures Valid()
      ensures level == old(level) - 1
      ensures storage.shared.data == ExitTransaction(old(storage.shared.data), id, commit)
      ensures storage.shared.issued == old(storage.shared.issued)
      ensures storage.tx == None
    {
      level := level - 1;
      ExitKeepsOwners(storage.shared.data, id, commit, storage.shared.issued);
      storage.shared.Release(id, commit);
      storage.tx := None;
    }
  }
}
