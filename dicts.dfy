/** Python's `dict`: a finite map that remembers insertion order. Iteration,
    `keys()` and `values()` follow the order in which keys were first
    inserted; assigning to an existing key keeps its place; deleting a key
    and inserting it again moves it to the end. */
module Dicts {
  import opened Common

  ghost predicate Distinct<K>(s: seq<K>) {
    forall i, j :: 0 <= i < j < |s| ==> s[i] != s[j]
  }

  /** The elements of `s` that are not in `drop`, in their original order. */
  function Without<K(==)>(s: seq<K>, drop: set<K>): (r: seq<K>)
    ensures forall x :: x in r ==> x in s && x !in drop
    ensures forall x :: x in s && x !in drop ==> x in r
    ensures |r| <= |s|
    ensures Distinct(s) ==> Distinct(r)
  {
    if s == [] then []
    else if s[0] in drop then Without(s[1..], drop)
    else
      var rest := Without(s[1..], drop);
      assert Distinct(s) ==> s[0] !in s[1..];
      [s[0]] + rest
  }

  lemma {:induction false} WithoutTwice<K>(s: seq<K>, a: set<K>, b: set<K>)
    ensures Without(Without(s, a), b) == Without(s, a + b)
  {
    if s != [] {
      WithoutTwice(s[1..], a, b);
      if s[0] !in a {
        assert Without(s, a) == [s[0]] + Without(s[1..], a);
        assert Without(s, a)[1..] == Without(s[1..], a);
      }
    }
  }

  lemma {:induction false} WithoutNothing<K>(s: seq<K>, drop: set<K>)
    requires forall x :: x in s ==> x !in drop
    ensures Without(s, drop) == s
  {
    if s != [] {
      WithoutNothing(s[1..], drop);
    }
  }

  /** The set of elements of a sequence. */
  function Elems<K>(s: seq<K>): set<K> {
    set x | x in s
  }

  /** Stepping over one more element of a sequence without repetitions. */
  lemma NextElem<K>(s: seq<K>, i: nat)
    requires Distinct(s) && i < |s|
    ensures Elems(s[..i + 1]) == Elems(s[..i]) + {s[i]}
    ensures s[i] !in Elems(s[..i])
  {
    assert s[..i + 1] == s[..i] + [s[i]];
  }

  /** A sequence without repetitions has as many elements as its set of elements. */
  lemma {:induction false} DistinctSize<K>(s: seq<K>)
    requires Distinct(s)
    ensures |set x | x in s| == |s|
  {
    if s != [] {
      DistinctSize(s[1..]);
      assert (set x | x in s) == (set x | x in s[1..]) + {s[0]};
      assert s[0] !in s[1..];
    }
  }

  datatype Dict<K(==), V> = Dict(keys: seq<K>, items: map<K, V>) {

    /** `keys` lists every key of `items` exactly once. */
    ghost predicate Valid() {
      && Distinct(keys)
      && (forall k :: k in items ==> k in keys)
      && (forall k :: k in keys ==> k in items)
    }

    /** `d.get(k)` */
    function Get(k: K): Option<V> {
      if k in items then Some(items[k]) else None
    }

    /** `d[k] = v` */
    function Put(k: K, v: V): (d: Dict<K, V>)
      ensures Valid() ==> d.Valid()
      ensures d.items == items[k := v]
      ensures k in items ==> d.keys == keys
      ensures k !in items ==> d.keys == keys + [k]
    {
      if k in items then Dict(keys, items[k := v]) else Dict(keys + [k], items[k := v])
    }

    /** Deleting every key of `ks` (`del d[k]` / `d.pop(k, None)` for each). */
    function RemoveAll(ks: set<K>): (d: Dict<K, V>)
      ensures Valid() ==> d.Valid()
      ensures d.items == items - ks
    {
      Dict(Without(keys, ks), items - ks)
    }

    /** `len(d)`: the number of keys. */
    lemma LengthIsSize()
      requires Valid()
      ensures |keys| == |items.Keys|
    {
      DistinctSize(keys);
      assert (set x | x in keys) == items.Keys;
    }

    /** Deleting in two rounds is deleting once. */
    lemma RemoveAllTwice(a: set<K>, b: set<K>)
      ensures RemoveAll(a).RemoveAll(b) == RemoveAll(a + b)
    {
      WithoutTwice(keys, a, b);
      assert RemoveAll(a).RemoveAll(b).items == RemoveAll(a + b).items;
    }

    /** Deleting nothing changes nothing. */
    lemma RemoveNothing()
      requires Valid()
      ensures RemoveAll({}) == this
    {
      WithoutNothing(keys, {});
      assert items - {} == items;
    }

    /** `list(d.values())` */
    function Values(): (vs: seq<V>)
      requires forall k :: k in keys ==> k in items
      ensures |vs| == |keys|
      ensures forall i :: 0 <= i < |keys| ==> vs[i] == items[keys[i]]
    {
      seq(|keys|, i requires 0 <= i < |keys| => items[keys[i]])
    }
  }

  /** The values of a dict whose first key is `k`. */
  lemma ValuesCons<K, V>(k: K, rest: seq<K>, m: map<K, V>)
    requires k in m && forall x :: x in rest ==> x in m
    ensures Dict([k] + rest, m).Values() == [m[k]] + Dict(rest, m).Values()
  {
    var a, b := Dict([k] + rest, m).Values(), [m[k]] + Dict(rest, m).Values();
    assert forall i :: 1 <= i < |a| ==> a[i] == m[rest[i - 1]] == b[i];
  }

  function EmptyDict<K(==), V>(): (d: Dict<K, V>)
    ensures d.Valid() && d.keys == [] && d.items == map[]
  {
    Dict([], map[])
  }
}
