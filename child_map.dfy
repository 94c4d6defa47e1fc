/**
 * The children of a diff node: a LinkedHashMap from element selector to child,
 * modelled as the sequence of its entries in insertion order.
 */
module ChildMaps {
  import opened Wrappers

  datatype Entry<K, V> = Entry(key: K, child: V)

  type ChildMap<K, V> = seq<Entry<K, V>>

  /** No key occurs twice, as in any map. */
  predicate DistinctKeys<K(==), V>(m: ChildMap<K, V>) {
    forall i, j :: 0 <= i < j < |m| ==> m[i].key != m[j].key
  }

  /** `keySet()`, as a set. */
  ghost function KeySet<K, V>(m: ChildMap<K, V>): (keys: set<K>) {
    set e | e in m :: e.key
  }

  /** `values()`, in iteration (insertion) order. */
  function Values<K(==), V>(m: ChildMap<K, V>): (vs: seq<V>)
    ensures |vs| == |m|
    ensures forall i :: 0 <= i < |m| ==> vs[i] == m[i].child
  {
    seq(|m|, i requires 0 <= i < |m| => m[i].child)
  }

  /** `get(k)`: the child stored under `k`, or None (Java's null). */
  function Lookup<K(==), V>(m: ChildMap<K, V>, k: K): (r: Option<V>)
    requires DistinctKeys(m)
    ensures r.None? <==> k !in KeySet(m)
    ensures forall i :: 0 <= i < |m| && m[i].key == k ==> r == Some(m[i].child)
  {
    if m == [] then None
    else if m[0].key == k then Some(m[0].child)
    else
      assert m == [m[0]] + m[1..];
      Lookup(m[1..], k)
  }

  /** The position of key `k`, if it occurs. */
  function IndexOf<K(==), V>(m: ChildMap<K, V>, k: K): (r: Option<nat>)
    ensures r.Some? ==> r.value < |m| && m[r.value].key == k
    ensures r.None? ==> forall i :: 0 <= i < |m| ==> m[i].key != k
  {
    if m == [] then None
    else if m[|m| - 1].key == k then Some(|m| - 1)
    else IndexOf(m[..|m| - 1], k)
  }

  /**
   * `put(k, v)`: an existing key keeps its position and gets the new child;
   * a new key is appended at the end.
   */
  function Put<K(==), V>(m: ChildMap<K, V>, k: K, v: V): (r: ChildMap<K, V>)
    requires DistinctKeys(m)
    ensures DistinctKeys(r)
    ensures k in KeySet(m) ==> |r| == |m|
    ensures k !in KeySet(m) ==> |r| == |m| + 1 && r[|m|] == Entry(k, v)
    ensures forall i :: 0 <= i < |m| ==> r[i] == (if m[i].key == k then Entry(k, v) else m[i])
    ensures KeySet(r) == KeySet(m) + {k}
  {
    match IndexOf(m, k)
    case Some(i) =>
      var r := m[i := Entry(k, v)];
      assert k in KeySet(m) by { assert m[i] in m; }
      assert KeySet(r) == KeySet(m) by {
        forall x | x in KeySet(r) ensures x in KeySet(m) {
          var e :| e in r && e.key == x;
          var j :| 0 <= j < |r| && r[j] == e;
          assert m[j] in m;
        }
        forall x | x in KeySet(m) ensures x in KeySet(r) {
          var e :| e in m && e.key == x;
          var j :| 0 <= j < |m| && m[j] == e;
          assert r[j] in r;
        }
      }
      r
    case None =>
      var r := m + [Entry(k, v)];
      assert k !in KeySet(m);
      assert KeySet(r) == KeySet(m) + {k} by {
        assert r[|m|] in r;
        forall x | x in KeySet(r) ensures x in KeySet(m) + {k} {
          var e :| e in r && e.key == x;
          var j :| 0 <= j < |r| && r[j] == e;
          if j < |m| { assert m[j] in m; }
        }
        forall x | x in KeySet(m) ensures x in KeySet(r) {
          var e :| e in m && e.key == x;
          var j :| 0 <= j < |m| && m[j] == e;
          assert r[j] in r;
        }
      }
      r
  }

  /** After `put(k, v)`, `get(k)` is `v` and every other key still maps to what it did. */
  lemma {:induction false} LookupAfterPut<K, V>(m: ChildMap<K, V>, k: K, v: V, j: K)
    requires DistinctKeys(m)
    ensures Lookup(Put(m, k, v), j) == if j == k then Some(v) else Lookup(m, j)
  {
    var r := Put(m, k, v);
    if j == k {
      var e :| e in r && e.key == k;
    } else if j in KeySet(m) {
      var e :| e in m && e.key == j;
    }
  }

  /** `size()`: with distinct keys, one entry per key. */
  lemma {:induction false} SizeIsKeyCount<K, V>(m: ChildMap<K, V>)
    requires DistinctKeys(m)
    ensures |KeySet(m)| == |m|
  {
    if m != [] {
      assert m == [m[0]] + m[1..];
      assert KeySet(m) == {m[0].key} + KeySet(m[1..]);
      assert m[0].key !in KeySet(m[1..]);
      SizeIsKeyCount(m[1..]);
    }
  }

  /** Putting the same entry twice is the same as putting it once. */
  lemma {:induction false} PutTwice<K, V>(m: ChildMap<K, V>, k: K, v: V)
    requires DistinctKeys(m)
    ensures Put(Put(m, k, v), k, v) == Put(m, k, v)
  {
    var r := Put(m, k, v);
    var r2 := Put(r, k, v);
    assert |r2| == |r|;
    forall i | 0 <= i < |r| ensures r2[i] == r[i] {
      if i == |m| {
        assert r[i] == Entry(k, v);
      }
    }
  }
}
