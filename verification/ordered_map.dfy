/** The insertion-ordered string-keyed map that table rows are stored in.

    The Go type keeps a linked list of keys next to a built-in map from key to
    value; here it is a key sequence next to a Dafny map. Only the key/value
    iterator `KVIter` is part of the source shown; `Set` and `Delete` are used
    by the tree builder but not shown, so their semantics are stated here as
    assumptions: `Set` overwrites the value of an existing key in place and
    appends a new key at the back; `Delete` removes the key from both parts. */
module OrderedMaps {

  datatype OrderedMap<V> = OrderedMap(keys: seq<string>, values: map<string, V>)

  /** The representation invariant the Go type maintains by encapsulation:
      every key is listed exactly once, and the listed keys are the map's. */
  predicate Valid<V>(om: OrderedMap<V>)
  {
    && Distinct(om.keys)
    && (forall k | k in om.values :: k in om.keys)
    && (forall i | 0 <= i < |om.keys| :: om.keys[i] in om.values)
  }

  predicate Distinct(keys: seq<string>)
  {
    forall i, j | 0 <= i < j < |keys| :: keys[i] != keys[j]
  }

  type OMap<V> = om: OrderedMap<V> | Valid(om) witness OrderedMap([], map[])

  function Empty<V>(): (r: OMap<V>)
    ensures |r.keys| == 0
  {
    OrderedMap([], map[])
  }

  /** Assumed semantics of `Set`: overwrite in place, or append a new key. */
  function Set<V>(om: OMap<V>, k: string, v: V): (r: OMap<V>)
    ensures k in r.values && r.values[k] == v
    ensures forall k' :: k' != k ==> (k' in r.values <==> k' in om.values)
    ensures forall k' :: k' != k && k' in om.values ==> r.values[k'] == om.values[k']
    ensures k in om.values ==> r.keys == om.keys
    ensures k !in om.values ==> r.keys == om.keys + [k]
  {
    if k in om.values then OrderedMap(om.keys, om.values[k := v])
    else
      var r := OrderedMap(om.keys + [k], om.values[k := v]);
      assert forall i :: 0 <= i < |om.keys| ==> om.keys[i] in om.values;
      r
  }

  /** `Set` seen through the value map alone: `v` is stored under `k`. */
  lemma SetValues<V>(om: OMap<V>, k: string, v: V)
    ensures Set(om, k, v).values == om.values[k := v]
  {
  }

  /** The key list with every occurrence of `k` removed. */
  function Without(keys: seq<string>, k: string): (r: seq<string>)
    ensures forall x :: x in r <==> x in keys && x != k
    ensures |r| <= |keys|
  {
    if keys == [] then []
    else if keys[0] == k then Without(keys[1..], k)
    else [keys[0]] + Without(keys[1..], k)
  }

  lemma {:induction false} WithoutDistinct(keys: seq<string>, k: string)
    requires Distinct(keys)
    ensures Distinct(Without(keys, k))
  {
    if keys != [] {
      assert Distinct(keys[1..]) by {
        forall i, j | 0 <= i < j < |keys[1..]| ensures keys[1..][i] != keys[1..][j] {
          assert keys[1..][i] == keys[i + 1] && keys[1..][j] == keys[j + 1];
        }
      }
      WithoutDistinct(keys[1..], k);
      var rest := Without(keys[1..], k);
      assert keys[0] !in keys[1..];
      assert keys[0] !in rest;
      if keys[0] != k {
        var r := [keys[0]] + rest;
        forall i, j | 0 <= i < j < |r| ensures r[i] != r[j] {
          if i == 0 {
            assert r[j] == rest[j - 1] && rest[j - 1] in rest;
          } else {
            assert r[i] == rest[i - 1] && r[j] == rest[j - 1];
          }
        }
      }
    }
  }

  lemma {:induction false} WithoutAbsent(keys: seq<string>, k: string)
    requires k !in keys
    ensures Without(keys, k) == keys
  {
    if keys != [] {
      WithoutAbsent(keys[1..], k);
    }
  }

  /** Assumed semantics of `Delete`: the key leaves both the list and the map,
      the other keys keep their order and values. */
  function Delete<V>(om: OMap<V>, k: string): (r: OMap<V>)
    ensures k !in r.values
    ensures forall k' :: k' != k ==> (k' in r.values <==> k' in om.values)
    ensures forall k' :: k' in r.values ==> r.values[k'] == om.values[k']
    ensures r.keys == Without(om.keys, k)
    ensures k !in om.values ==> r == om
  {
    if k !in om.values then
      WithoutAbsent(om.keys, k);
      om
    else
      DeleteValid(om, k);
      OrderedMap(Without(om.keys, k), om.values - {k})
  }

  /** Removing a key from both parts keeps the representation invariant. */
  lemma DeleteValid<V>(om: OMap<V>, k: string)
    ensures Valid(OrderedMap(Without(om.keys, k), om.values - {k}))
  {
    WithoutDistinct(om.keys, k);
    var keys := Without(om.keys, k);
    assert forall i | 0 <= i < |keys| :: keys[i] in keys;
    assert forall k' | k' in om.values - {k} :: k' in om.keys;
  }

  /** The pairs in list order, front to back: what `KVIter` hands to a
      `yielder` that never asks to stop. */
  function Entries<V>(om: OMap<V>): (r: seq<(string, V)>)
    ensures |r| == |om.keys|
    ensures forall i :: 0 <= i < |r| ==> r[i].0 == om.keys[i] && r[i].1 == om.values[om.keys[i]]
  {
    seq(|om.keys|, i requires 0 <= i < |om.keys| => (om.keys[i], om.values[om.keys[i]]))
  }

  /** `KVIter` (libs/ordered_map/iterator.go): walks the key list front to
      back and hands each `(key, m[key])` pair to `yielder`, stopping as soon as
      `yielder` returns false. `visited` is the sequence of pairs handed over. */
  method KVIter<V>(om: OMap<V>, yielder: (string, V) -> bool) returns (visited: seq<(string, V)>)
    ensures |visited| <= |om.keys|
    ensures forall i :: 0 <= i < |visited| ==> visited[i] == (om.keys[i], om.values[om.keys[i]])
    ensures forall i :: 0 <= i < |visited| - 1 ==> yielder(visited[i].0, visited[i].1)
    ensures |visited| < |om.keys| ==> |visited| > 0 && !yielder(visited[|visited| - 1].0, visited[|visited| - 1].1)
    ensures (forall i :: 0 <= i < |om.keys| ==> yielder(om.keys[i], om.values[om.keys[i]])) ==> visited == Entries(om)
  {
    visited := [];
    var e := 0;
    while e < |om.keys|
      invariant 0 <= e <= |om.keys|
      invariant |visited| == e
      invariant forall i :: 0 <= i < e ==> visited[i] == (om.keys[i], om.values[om.keys[i]])
      invariant forall i :: 0 <= i < e ==> yielder(visited[i].0, visited[i].1)
    {
      var key := om.keys[e];
      var value := om.values[key];
      visited := visited + [(key, value)];
      if !yielder(key, value) {
        return;
      }
      e := e + 1;
    }
  }
}
