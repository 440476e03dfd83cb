/** worker_bridge.py: bridges to workers and the factory that caches them.
    A cached bridge lives on a lease (`breath`): asking for it again renews
    the lease, and each sweep tick shortens every lease by one, closing and
    dropping the bridges whose lease ran out. */
module WorkerBridges {
  import opened Common
  import opened Model

  /** `WorkerBridgeFactory.INITIAL_BREATH_SEC` */
  const InitialBreathSec := 120

  /** A bridge to one worker. The gRPC channel is reduced to a count of the
      times it was closed; `finalizerAlive` is the state of the single-shot
      `weakref.finalize` callback that closes it. */
  class WorkerBridge {
    const connection: WorkerConnectionInfo
    var finalizerAlive: bool
    var channelCloses: nat

    /** The channel is closed exactly when the finalizer has run, and once. */
    ghost predicate Valid()
      reads this
    {
      channelCloses == if finalizerAlive then 0 else 1
    }

    constructor (connection: WorkerConnectionInfo)
      ensures this.connection == connection
      ensures finalizerAlive && channelCloses == 0 && Valid()
    {
      this.connection := connection;
      finalizerAlive := true;
      channelCloses := 0;
    }

    /** `close()`: run the finalizer; a second call does nothing. */
    method Close()
      requires Valid()
      modifies this
      ensures Valid() && !finalizerAlive && channelCloses == 1
    {
      if finalizerAlive {
        finalizerAlive := false;
        channelCloses := channelCloses + 1;
      }
    }
  }

  /** `CachedWorkerBridgeRecord` */
  datatype CachedRecord = CachedRecord(bridge: WorkerBridge, breath: int)

  type Cache = map<WorkerConnectionInfo, CachedRecord>

  /** The cache while a sweep is part-way through: the entries of `done` have
      had their breath shortened and, at zero, been dropped. */
  function TickPart(m: Cache, done: set<WorkerConnectionInfo>): Cache {
    map k | k in m && (k !in done || m[k].breath > 1) :: if k in done then m[k].(breath := m[k].breath - 1) else m[k]
  }

  /** Every cached lease is running, and each key's bridge is its own and
      inside `footprint`. */
  ghost predicate Shaped(m: Cache, footprint: set<object>) {
    forall k :: k in m ==>
      0 < m[k].breath <= InitialBreathSec && m[k].bridge.connection == k && m[k].bridge in footprint
  }

  /** Shortening the lease of one more key during a sweep. */
  lemma TickPartStep(m: Cache, done: set<WorkerConnectionInfo>, key: WorkerConnectionInfo)
    requires key in m && key !in done
    ensures var c := TickPart(m, done);
      key in c && c[key] == m[key] &&
      var c1 := c[key := m[key].(breath := m[key].breath - 1)];
      TickPart(m, done + {key}) == if m[key].breath - 1 <= 0 then c1 - {key} else c1
  {
  }

  /** The cache after one sweep tick. */
  function Tick(m: Cache): (r: Cache)
    ensures forall k :: k in r <==> k in m && m[k].breath > 1
    ensures forall k :: k in r ==> r[k] == m[k].(breath := m[k].breath - 1)
  {
    TickPart(m, m.Keys)
  }

  /** The cache after `n` ticks with no request in between. */
  function TickN(m: Cache, n: nat): Cache
    decreases n
  {
    if n == 0 then m else TickN(Tick(m), n - 1)
  }

  /** The cache after a request for `info`: a hit renews the lease, a miss
      stores `created`. */
  function Touch(m: Cache, info: WorkerConnectionInfo, created: CachedRecord): Cache {
    if info in m then m[info := m[info].(breath := InitialBreathSec)] else m[info := created]
  }

  lemma {:induction false} TickNKeys(m: Cache, n: nat)
    ensures TickN(m, n).Keys <= m.Keys
    decreases n
  {
    if n > 0 {
      TickNKeys(Tick(m), n - 1);
    }
  }

  /** An entry with lease `b > 0` survives exactly `b - 1` ticks, its lease
      shortened by one each time and its bridge unchanged. */
  lemma {:induction false} TickNEntry(m: Cache, n: nat, k: WorkerConnectionInfo)
    requires k in m && m[k].breath > 0
    ensures k in TickN(m, n) <==> n < m[k].breath
    ensures k in TickN(m, n) ==> TickN(m, n)[k] == m[k].(breath := m[k].breath - n)
    decreases n
  {
    if n > 0 {
      if m[k].breath > 1 {
        TickNEntry(Tick(m), n - 1, k);
      } else {
        TickNKeys(Tick(m), n - 1);
      }
    }
  }

  /** An entry that is not asked for again is evicted after exactly
      `InitialBreathSec` ticks from its last request. */
  lemma EvictedAfterInitialBreath(m: Cache, info: WorkerConnectionInfo, created: CachedRecord)
    requires created.breath == InitialBreathSec
    ensures var t := Touch(m, info, created);
      && info in TickN(t, InitialBreathSec - 1)
      && TickN(t, InitialBreathSec - 1)[info].bridge == t[info].bridge
      && info !in TickN(t, InitialBreathSec)
  {
    var t := Touch(m, info, created);
    TickNEntry(t, InitialBreathSec - 1, info);
    TickNEntry(t, InitialBreathSec, info);
  }

  /** A tick touches each entry on its own: what happens to one key does not
      depend on the others. */
  lemma TickIndependent(m: Cache, m': Cache, k: WorkerConnectionInfo)
    requires k in m && k in m' && m[k] == m'[k]
    ensures k in Tick(m) <==> k in Tick(m')
    ensures k in Tick(m) ==> Tick(m)[k] == Tick(m')[k]
  {
  }

  /** `get_worker_bridge` as written assigns to a field of the immutable
      named tuple on a cache hit, which raises AttributeError; a miss stores
      `created`. */
  function TouchAsWritten(m: Cache, info: WorkerConnectionInfo, created: CachedRecord): Result<Cache> {
    if info in m then Err(AttributeError) else Ok(m[info := created])
  }

  /** As written, the second request for the same worker fails, where the
      intended one renews the lease and returns the same bridge. */
  lemma TouchAsWrittenFailsOnHit(m: Cache, info: WorkerConnectionInfo, created: CachedRecord)
    requires info in m
    ensures TouchAsWritten(m, info, created) == Err(AttributeError)
    ensures var t := Touch(m, info, created);
      info in t && t[info] == CachedRecord(m[info].bridge, InitialBreathSec)
  {
  }

  /** One `_clean` tick as written: `record.breath -= 1` on the first record
      of a non-empty cache raises AttributeError, before anything is closed
      or dropped. */
  function SweepAsWritten(m: Cache): Result<Cache> {
    if m == map[] then Ok(m) else Err(AttributeError)
  }

  /** As written, a lease at its last second is never evicted, where the
      intended tick drops it. */
  lemma SweepAsWrittenNeverEvicts(m: Cache, k: WorkerConnectionInfo)
    requires k in m && m[k].breath == 1
    ensures SweepAsWritten(m) == Err(AttributeError)
    ensures k !in Tick(m)
  {
  }

  class WorkerBridgeFactory {
    var cache: Cache

    /** The factory and every bridge it has made. */
    ghost var Repr: set<object>

    /** Every cached bridge is open, is the bridge to its key, and has a
        lease of at most `InitialBreathSec` ticks left. Bridges to different
        keys are therefore different objects. */
    ghost predicate Valid()
      reads this, Repr
    {
      && this in Repr
      && forall k :: k in cache ==>
        && cache[k].bridge in Repr
        && 0 < cache[k].breath <= InitialBreathSec
        && cache[k].bridge.connection == k
        && cache[k].bridge.finalizerAlive
        && cache[k].bridge.channelCloses == 0
    }

    constructor ()
      ensures cache == map[] && Valid() && fresh(Repr)
    {
      cache := map[];
      Repr := {this};
    }

    /** `_create_bridge`: a new open bridge with a full lease. */
    method CreateBridge(info: WorkerConnectionInfo) returns (r: CachedRecord)
      ensures fresh(r.bridge) && r.bridge.connection == info
      ensures r.bridge.finalizerAlive && r.bridge.channelCloses == 0
      ensures r.breath == InitialBreathSec
    {
      var bridge := new WorkerBridge(info);
      r := CachedRecord(bridge, InitialBreathSec);
    }

    /** `get_worker_bridge`: the cached bridge, its lease renewed, or a new
        one, cached. */
    method GetWorkerBridge(info: WorkerConnectionInfo) returns (b: WorkerBridge)
      requires Valid()
      modifies this
      ensures Valid() && old(Repr) <= Repr && fresh(Repr - old(Repr))
      ensures info in old(cache) ==> b == old(cache)[info].bridge
      ensures info !in old(cache) ==> fresh(b)
      ensures b.connection == info && b.finalizerAlive
      ensures cache == old(cache)[info := CachedRecord(b, InitialBreathSec)]
      ensures cache == Touch(old(cache), info, CachedRecord(b, InitialBreathSec))
    {
      var record: Option<CachedRecord> := if info in cache then Some(cache[info]) else None;
      var hit := record.Some?;
      var rec: CachedRecord;
      if !hit {
        rec := CreateBridge(info);
      } else {
        rec := record.value;
      }
      if hit {
        // the breath of the cached record is reset
        cache := cache[info := rec.(breath := InitialBreathSec)];
      } else {
        // `setdefault`: keep a record already there, else store the new one
        if info !in cache {
          cache := cache[info := rec];
          Repr := Repr + {rec.bridge};
        }
      }
      rec := cache[info];
      return rec.bridge;
    }

    /** The body of one `_clean` iteration: over a snapshot of the keys,
        shorten each lease and close and drop the bridges whose lease ran
        out. */
    method SweepTick()
      requires Valid()
      modifies Repr
      ensures Valid() && Repr == old(Repr)
      ensures cache == Tick(old(cache))
      ensures forall k :: k in old(cache) && old(cache)[k].breath <= 1 ==>
        !old(cache)[k].bridge.finalizerAlive && old(cache)[k].bridge.channelCloses == 1
      ensures forall k :: k in old(cache) && old(cache)[k].breath > 1 ==>
        old(cache)[k].bridge.finalizerAlive && old(cache)[k].bridge.channelCloses == 0
      // a bridge not in the cache (dropped by setdefault or by an earlier sweep) is left alone
      ensures forall b: WorkerBridge :: b in old(Repr) && (forall k :: k in old(cache) ==> old(cache)[k].bridge != b) ==>
        b.finalizerAlive == old(b.finalizerAlive) && b.channelCloses == old(b.channelCloses)
    {
      ghost var m0 := cache;
      var remaining := cache.Keys;
      ghost var done: set<WorkerConnectionInfo> := {};
      ghost var cached := set k | k in m0 :: m0[k].bridge;
      assert TickPart(m0, {}) == m0;
      assert Shaped(m0, Repr);
      while remaining != {}
        invariant remaining == m0.Keys - done && done <= m0.Keys
        invariant cache == TickPart(m0, done)
        invariant Repr == old(Repr) && this in Repr
        invariant Shaped(m0, Repr)
        invariant forall k :: k in m0 ==>
          m0[k].bridge.Valid() && (m0[k].bridge.finalizerAlive <==> k in cache)
        modifies this, cached
        decreases remaining
      {
        var key :| key in remaining;
        assert forall k :: k in m0 && k != key ==> m0[k].bridge != m0[key].bridge;
        SweepKey(key, m0, done);
        remaining := remaining - {key};
        done := done + {key};
      }
      assert done == m0.Keys;
    }

    /** One round of the loop of `_clean`, on `key`: shorten its lease, and
        at zero close its bridge and drop it. */
    method SweepKey(key: WorkerConnectionInfo, ghost m0: Cache, ghost done: set<WorkerConnectionInfo>)
      requires key in m0 && key !in done && cache == TickPart(m0, done)
      requires m0[key].bridge.Valid() && m0[key].bridge.finalizerAlive
      modifies this, m0[key].bridge
      ensures Repr == old(Repr)
      ensures cache == TickPart(m0, done + {key})
      ensures m0[key].bridge.Valid() && (m0[key].bridge.finalizerAlive <==> key in cache)
    {
      TickPartStep(m0, done, key);
      var c := cache;
      var record := c[key];
      record := record.(breath := record.breath - 1);
      c := c[key := record];
      if record.breath <= 0 {
        record.bridge.Close();
        c := c - {key};
      }
      cache := c;
    }
  }
}
