/** Insertion-ordered maps: Python's `dict` and Kotlin's `LinkedHashMap`.
    Iteration visits the keys in the order they were first stored; storing
    again under a key that is already present replaces the value and keeps
    the key where it was. */
module OrderedMaps {
  import opened Wrappers

  /** `keys` is the iteration order, `values` the mapping. */
  datatype OrderedMap<K(==), V> = OrderedMap(keys: seq<K>, values: map<K, V>)
  {
    /** Every key is listed once, and the listed keys are exactly the mapped ones. */
    ghost predicate Valid()
    {
      && (forall i, j :: 0 <= i < j < |keys| ==> keys[i] != keys[j])
      && (forall k :: k in values ==> k in keys)
      && (forall i :: 0 <= i < |keys| ==> keys[i] in values)
    }
  }

  function Empty<K(==), V>(): (m: OrderedMap<K, V>)
    ensures m.Valid() && m.keys == [] && m.values == map[]
  {
    OrderedMap([], map[])
  }

  /** `m[k] = v` / `m.put(k, v)`: a new key is appended to the order, a present
      key keeps its position; either way `k` now maps to `v`. */
  function Put<K(==), V>(m: OrderedMap<K, V>, k: K, v: V): (r: OrderedMap<K, V>)
    requires m.Valid()
    ensures r.Valid()
    ensures r.values == m.values[k := v]
    ensures k in m.values ==> r.keys == m.keys
    ensures k !in m.values ==> r.keys == m.keys + [k]
  {
    if k in m.values then OrderedMap(m.keys, m.values[k := v])
    else OrderedMap(m.keys + [k], m.values[k := v])
  }

  /** `getOrDefault(k, null)`: the value stored under `k`, if any. */
  function Get<K(==), V>(m: OrderedMap<K, V>, k: K): (r: Option<V>)
    ensures r.Some? <==> k in m.values
    ensures r.Some? ==> r.value == m.values[k]
  {
    if k in m.values then Some(m.values[k]) else None
  }

  /** No pair after position `i` has the key of pair `i`. */
  predicate IsLastKey<K(==), V>(pairs: seq<(K, V)>, i: nat)
    requires i < |pairs|
  {
    forall j :: i < j < |pairs| ==> pairs[j].0 != pairs[i].0
  }

  /** `linkedMapOf(*pairs)`: the pairs stored one after the other, in order. */
  function FromPairs<K(==), V>(pairs: seq<(K, V)>): (m: OrderedMap<K, V>)
    ensures m.Valid()
  {
    if pairs == [] then Empty()
    else Put(FromPairs(pairs[..|pairs| - 1]), pairs[|pairs| - 1].0, pairs[|pairs| - 1].1)
  }

  /** The keys of `linkedMapOf(*pairs)` are exactly the keys of the pairs. */
  lemma {:induction false} FromPairsKeys<K, V>(pairs: seq<(K, V)>)
    ensures forall i :: 0 <= i < |pairs| ==> pairs[i].0 in FromPairs(pairs).values
    ensures forall k :: k in FromPairs(pairs).values ==> exists i :: 0 <= i < |pairs| && pairs[i].0 == k
  {
    if pairs != [] {
      var init := pairs[..|pairs| - 1];
      FromPairsKeys(init);
      assert forall i :: 0 <= i < |init| ==> init[i] == pairs[i];
      forall k | k in FromPairs(pairs).values
        ensures exists i :: 0 <= i < |pairs| && pairs[i].0 == k
      {
        if k != pairs[|pairs| - 1].0 {
          var i :| 0 <= i < |init| && init[i].0 == k;
          assert pairs[i].0 == k;
        }
      }
    }
  }

  /** A key given more than once maps to the value of its last pair. */
  lemma {:induction false} FromPairsLastWins<K, V>(pairs: seq<(K, V)>, i: nat)
    requires i < |pairs| && IsLastKey(pairs, i)
    ensures Get(FromPairs(pairs), pairs[i].0) == Some(pairs[i].1)
  {
    if i < |pairs| - 1 {
      var init := pairs[..|pairs| - 1];
      assert init[i] == pairs[i];
      assert IsLastKey(init, i);
      FromPairsLastWins(init, i);
    }
  }

  /** Looking up a key that no pair has finds nothing. */
  lemma FromPairsGetMissing<K, V>(pairs: seq<(K, V)>, k: K)
    requires forall i :: 0 <= i < |pairs| ==> pairs[i].0 != k
    ensures Get(FromPairs(pairs), k) == None
  {
    FromPairsKeys(pairs);
  }

  /** A listed key is not listed before its position. */
  lemma KeyNotBefore<K, V>(m: OrderedMap<K, V>, i: nat)
    requires m.Valid() && i < |m.keys|
    ensures m.keys[i] !in m.keys[..i]
  {
  }

  /** The sum of the values stored under `keys`, taken in that order. */
  function SumOver<K(==)>(keys: seq<K>, values: map<K, int>): int
    requires forall i :: 0 <= i < |keys| ==> keys[i] in values
  {
    if keys == [] then 0 else SumOver(keys[..|keys| - 1], values) + values[keys[|keys| - 1]]
  }
}
