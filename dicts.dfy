/**
 * Python's `dict`: a map that remembers the order in which its keys were first
 * inserted. Iterating over `d.values()` or `d.items()` follows `keys`; assigning
 * to an existing key replaces its value and keeps its place; `del` drops it.
 */
module Dicts {
  import opened Wrappers

  datatype Dict<K, V> = Dict(keys: seq<K>, entries: map<K, V>)
  {
    /**
     * The keys are listed once each, and they are exactly the keys of the map.
     * The two coverage facts fire only where a proof asks whether a key is listed
     * or whether a listed key is in the map, which keeps them cheap in the
     * larger proofs that carry several dicts at once.
     */
    ghost predicate Valid() {
      && Distinct(keys)
      && (forall k {:trigger k in keys} | k in entries :: k in keys)
      && (forall i {:trigger keys[i] in entries} | 0 <= i < |keys| :: keys[i] in entries)
    }

    /** `d.get(k)` */
    function Get(k: K): Option<V> {
      if k in entries then Some(entries[k]) else None
    }

    /** `d[k] = v` */
    function Put(k: K, v: V): (d: Dict<K, V>)
      requires Valid()
      ensures d.Valid()
      ensures d.entries == entries[k := v]
      ensures d.keys == if k in entries then keys else keys + [k]
    {
      if k in entries then Dict(keys, entries[k := v])
      else
        DistinctSnoc(keys, k);
        Dict(keys + [k], entries[k := v])
    }

    /** `del d[k]` (no-op when `k` is absent) */
    function Remove(k: K): (d: Dict<K, V>)
      requires Valid()
      ensures d.Valid()
      ensures d.entries == entries - {k}
      ensures d.keys == Without(keys, k)
    {
      var ks := Without(keys, k);
      assert forall i | 0 <= i < |ks| :: ks[i] in ks;
      Dict(ks, entries - {k})
    }

    /** `list(d.values())` */
    function Values(): (vs: seq<V>)
      requires Valid()
      ensures |vs| == |keys|
      ensures forall i | 0 <= i < |keys| :: vs[i] == entries[keys[i]]
    {
      seq(|keys|, i requires 0 <= i < |keys| => entries[keys[i]])
    }
  }

  /** `{}` */
  function Empty<K, V>(): (d: Dict<K, V>)
    ensures d.Valid() && d.keys == [] && d.entries == map[]
  {
    Dict([], map[])
  }

  /** `{key(x): x for x in xs}`: the entries in list order, a later entry replacing an earlier one with the same key. */
  function FromList<K, V>(xs: seq<V>, key: V -> K): (d: Dict<K, V>)
    ensures d.Valid()
  {
    if |xs| == 0 then Empty()
    else FromList(xs[..|xs| - 1], key).Put(key(xs[|xs| - 1]), xs[|xs| - 1])
  }

  /** The keys of `FromList` are exactly the keys of the entries. */
  lemma {:induction false} FromListKeys<K, V>(xs: seq<V>, key: V -> K)
    ensures var d := FromList(xs, key);
      && (forall i | 0 <= i < |xs| :: key(xs[i]) in d.entries)
      && (forall k | k in d.entries :: exists i | 0 <= i < |xs| :: key(xs[i]) == k)
  {
    if |xs| > 0 {
      var n := |xs| - 1;
      var init := xs[..n];
      FromListKeys(init, key);
      var d := FromList(xs, key);
      assert d.entries.Keys == FromList(init, key).entries.Keys + {key(xs[n])};
      forall i | 0 <= i < n
        ensures key(xs[i]) in d.entries
      {
        assert init[i] == xs[i];
      }
      forall k | k in d.entries
        ensures exists i | 0 <= i < |xs| :: key(xs[i]) == k
      {
        if k != key(xs[n]) {
          var i :| 0 <= i < n && key(init[i]) == k;
          assert key(xs[i]) == k;
        }
      }
    }
  }

  /** Each key of `FromList` maps to the last entry carrying it. */
  lemma {:induction false} FromListLastWins<K, V>(xs: seq<V>, key: V -> K, i: nat)
    requires i < |xs| && forall j | i < j < |xs| :: key(xs[j]) != key(xs[i])
    ensures key(xs[i]) in FromList(xs, key).entries
    ensures FromList(xs, key).entries[key(xs[i])] == xs[i]
  {
    var n := |xs| - 1;
    if i < n {
      var init := xs[..n];
      assert init[i] == xs[i];
      FromListLastWins(init, key, i);
    }
  }

  /** The sequence `s` without the element `k`, order kept. */
  function Without<K(==)>(s: seq<K>, k: K): (r: seq<K>)
    ensures forall x | x in r :: x in s && x != k
    ensures forall x | x in s && x != k :: x in r
    ensures Distinct(s) ==> Distinct(r)
  {
    if |s| == 0 then []
    else if s[0] == k then Without(s[1..], k)
    else
      var rest := Without(s[1..], k);
      assert ([s[0]] + rest)[1..] == rest;
      [s[0]] + rest
  }

  /** No element of `s` occurs twice. */
  ghost predicate Distinct<K>(s: seq<K>) {
    |s| == 0 || (s[0] !in s[1..] && Distinct(s[1..]))
  }

  /** Appending an element that is not yet listed keeps a sequence distinct. */
  lemma {:induction false} DistinctSnoc<K>(s: seq<K>, k: K)
    requires Distinct(s) && k !in s
    ensures Distinct(s + [k])
  {
    if |s| > 0 {
      DistinctSnoc(s[1..], k);
      assert (s + [k])[1..] == s[1..] + [k];
    }
  }

  /** In a distinct sequence two different positions hold different elements. */
  lemma {:induction false} DistinctIndices<K>(s: seq<K>)
    requires Distinct(s)
    ensures forall i, j | 0 <= i < j < |s| :: s[i] != s[j]
  {
    if |s| > 0 {
      DistinctIndices(s[1..]);
      forall j | 0 < j < |s|
        ensures s[0] != s[j]
      {
        assert s[j] == s[1..][j - 1];
      }
    }
  }
}
