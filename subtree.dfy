/**
 * What lies below a node through its child maps: the pre-order listing of its
 * subtree and the change query `hasChanges` answers.
 */
module Subtrees {
  import opened ChildMaps
  import opened Wrappers
  import opened DiffNodes
  import opened Sequences

  /** n, then the subtrees of its children in insertion order. */
  ghost function PreOrder(h: Heap, n: NodeId): (r: seq<NodeId>)
    requires Valid(h) && n in h
    ensures |r| >= 1 && r[0] == n
    ensures forall k :: 0 <= k < |r| ==> r[k] in h
    decreases Above(h, n), 1
  {
    [n] + PreOrderFrom(h, n, 0)
  }

  /** The subtrees of n's children from the i-th on, in insertion order. */
  ghost function PreOrderFrom(h: Heap, n: NodeId, i: nat): (r: seq<NodeId>)
    requires Valid(h) && n in h && i <= |h[n].children|
    ensures forall k :: 0 <= k < |r| ==> r[k] in h
    decreases Above(h, n), 0, |h[n].children| - i
  {
    if i == |h[n].children| then []
    else PreOrder(h, ChildAt(h, n, i)) + PreOrderFrom(h, n, i + 1)
  }

  /**
   * The specification of `hasChanges()`: the node's own state is ADDED, CHANGED
   * or REMOVED, or one of its children has changes.
   */
  predicate Changed(h: Heap, n: NodeId)
    requires Valid(h) && n in h
    decreases Above(h, n), 1
  {
    IsChange(h[n].state) || ChildChanged(h, n, 0)
  }

  /** Some child of n from the i-th on has changes. */
  predicate ChildChanged(h: Heap, n: NodeId, i: nat)
    requires Valid(h) && n in h && i <= |h[n].children|
    decreases Above(h, n), 0, |h[n].children| - i
  {
    i < |h[n].children| && (Changed(h, ChildAt(h, n, i)) || ChildChanged(h, n, i + 1))
  }

  /** A child with changes from the i-th on makes ChildChanged hold from i. */
  lemma {:induction false} ChangedChildCounts(h: Heap, n: NodeId, i: nat, k: nat)
    requires Valid(h) && n in h && i <= k < |h[n].children|
    requires Changed(h, ChildAt(h, n, k))
    ensures ChildChanged(h, n, i)
    decreases k - i
  {
    if i < k {
      ChangedChildCounts(h, n, i + 1, k);
    }
  }

  /** Some node of the listing has state ADDED, CHANGED or REMOVED. */
  ghost predicate SomeChange(h: Heap, ns: seq<NodeId>) {
    exists k :: 0 <= k < |ns| && ns[k] in h && IsChange(h[ns[k]].state)
  }

  lemma {:induction false} SomeChangeAppend(h: Heap, a: seq<NodeId>, b: seq<NodeId>)
    ensures SomeChange(h, a + b) == (SomeChange(h, a) || SomeChange(h, b))
  {
    var ab := a + b;
    if SomeChange(h, ab) {
      var k :| 0 <= k < |ab| && ab[k] in h && IsChange(h[ab[k]].state);
      if k < |a| { assert ab[k] == a[k]; } else { assert ab[k] == b[k - |a|]; }
    }
    if SomeChange(h, a) {
      var k :| 0 <= k < |a| && a[k] in h && IsChange(h[a[k]].state);
      assert ab[k] == a[k];
    }
    if SomeChange(h, b) {
      var k :| 0 <= k < |b| && b[k] in h && IsChange(h[b[k]].state);
      assert ab[k + |a|] == b[k];
    }
  }

  /**
   * `hasChanges()` is true exactly when the node or some node below it in the
   * child maps has state ADDED, CHANGED or REMOVED.
   */
  lemma {:induction false} ChangedIffChangeBelow(h: Heap, n: NodeId)
    requires Valid(h) && n in h
    ensures Changed(h, n) == SomeChange(h, PreOrder(h, n))
    decreases Above(h, n), 1
  {
    ChildChangedIffChangeBelow(h, n, 0);
    SomeChangeAppend(h, [n], PreOrderFrom(h, n, 0));
    assert SomeChange(h, [n]) == IsChange(h[n].state) by {
      if IsChange(h[n].state) { assert [n][0] == n; }
    }
  }

  lemma {:induction false} ChildChangedIffChangeBelow(h: Heap, n: NodeId, i: nat)
    requires Valid(h) && n in h && i <= |h[n].children|
    ensures ChildChanged(h, n, i) == SomeChange(h, PreOrderFrom(h, n, i))
    decreases Above(h, n), 0, |h[n].children| - i
  {
    if i < |h[n].children| {
      var c := ChildAt(h, n, i);
      ChangedIffChangeBelow(h, c);
      ChildChangedIffChangeBelow(h, n, i + 1);
      SomeChangeAppend(h, PreOrder(h, c), PreOrderFrom(h, n, i + 1));
    }
  }

  /** Every node listed below n has n on its ancestor chain. */
  lemma {:induction false} PreOrderBelow(h: Heap, n: NodeId, k: nat)
    requires Valid(h) && n in h && k < |PreOrder(h, n)|
    ensures n in Chain(h, PreOrder(h, n)[k])
    decreases Above(h, n), 1
  {
    if k == 0 {
      assert Chain(h, n)[|Chain(h, n)| - 1] == n;
    } else {
      PreOrderFromBelow(h, n, 0, k - 1);
    }
  }

  lemma {:induction false} PreOrderFromBelow(h: Heap, n: NodeId, i: nat, k: nat)
    requires Valid(h) && n in h && i <= |h[n].children| && k < |PreOrderFrom(h, n, i)|
    ensures n in Chain(h, PreOrderFrom(h, n, i)[k])
    decreases Above(h, n), 0, |h[n].children| - i
  {
    var c := ChildAt(h, n, i);
    var a := PreOrder(h, c);
    if k < |a| {
      PreOrderBelow(h, c, k);
      assert Chain(h, c) == Chain(h, n) + [c];
      ChainTransitive(h, n, c, a[k]);
    } else {
      PreOrderFromBelow(h, n, i + 1, k - |a|);
    }
  }

  /** A node on m's chain sits at the position its own chain's length gives. */
  lemma {:induction false} PositionOnChain(h: Heap, m: NodeId, x: NodeId)
    requires Valid(h) && m in h && x in Chain(h, m)
    ensures x in h && |Chain(h, x)| <= |Chain(h, m)| && Chain(h, m)[|Chain(h, x)| - 1] == x
  {
    var k :| 0 <= k < |Chain(h, m)| && Chain(h, m)[k] == x;
    ChainPrefix(h, m, k);
  }

  /** Two entries of a child map hold two different nodes: their selectors differ. */
  lemma ChildrenDistinct(h: Heap, n: NodeId, i: nat, j: nat)
    requires Valid(h) && n in h && i < |h[n].children| && j < |h[n].children| && i != j
    ensures ChildAt(h, n, i) != ChildAt(h, n, j)
  {
  }

  /** At most one child of n lies on any node's chain. */
  lemma {:induction false} OneChildOnChain(h: Heap, n: NodeId, i: nat, j: nat, x: NodeId)
    requires Valid(h) && n in h && x in h && i < |h[n].children| && j < |h[n].children|
    requires ChildAt(h, n, i) in Chain(h, x) && ChildAt(h, n, j) in Chain(h, x)
    ensures i == j
  {
    var c := ChildAt(h, n, i);
    var d := ChildAt(h, n, j);
    assert Chain(h, c) == Chain(h, n) + [c];
    assert Chain(h, d) == Chain(h, n) + [d];
    PositionOnChain(h, x, c);
    PositionOnChain(h, x, d);
    if i != j {
      ChildrenDistinct(h, n, i, j);
    }
  }

  /** Every node listed by PreOrderFrom(h, n, i) lies below the j-th child of n for some j >= i. */
  lemma {:induction false} PreOrderFromUnder(h: Heap, n: NodeId, i: nat, k: nat)
    requires Valid(h) && n in h && i <= |h[n].children| && k < |PreOrderFrom(h, n, i)|
    ensures exists j :: i <= j < |h[n].children| && ChildAt(h, n, j) in Chain(h, PreOrderFrom(h, n, i)[k])
    decreases |h[n].children| - i
  {
    var c := ChildAt(h, n, i);
    var a := PreOrder(h, c);
    if k < |a| {
      PreOrderBelow(h, c, k);
      assert PreOrderFrom(h, n, i)[k] == a[k];
    } else {
      PreOrderFromUnder(h, n, i + 1, k - |a|);
      assert PreOrderFrom(h, n, i)[k] == PreOrderFrom(h, n, i + 1)[k - |a|];
    }
  }

  /** No node of the i-th child's subtree is listed under a later child. */
  lemma {:induction false} ApartFromLaterSiblings(h: Heap, n: NodeId, i: nat, ka: nat, kb: nat)
    requires Valid(h) && n in h && i < |h[n].children|
    requires ka < |PreOrder(h, ChildAt(h, n, i))| && kb < |PreOrderFrom(h, n, i + 1)|
    ensures PreOrder(h, ChildAt(h, n, i))[ka] != PreOrderFrom(h, n, i + 1)[kb]
  {
    var x := PreOrderFrom(h, n, i + 1)[kb];
    PreOrderBelow(h, ChildAt(h, n, i), ka);
    PreOrderFromUnder(h, n, i + 1, kb);
    if PreOrder(h, ChildAt(h, n, i))[ka] == x {
      var j :| i + 1 <= j < |h[n].children| && ChildAt(h, n, j) in Chain(h, x);
      OneChildOnChain(h, n, i, j, x);
    }
  }

  /** The pre-order listing names every node of the subtree once. */
  lemma {:induction false} PreOrderDistinct(h: Heap, n: NodeId)
    requires Valid(h) && n in h
    ensures Distinct(PreOrder(h, n))
    decreases Above(h, n), 1
  {
    var rest := PreOrderFrom(h, n, 0);
    PreOrderFromDistinct(h, n, 0);
    forall k | 0 <= k < |rest|
      ensures [n][0] != rest[k]
    {
      PreOrderFromUnder(h, n, 0, k);
      var j :| 0 <= j < |h[n].children| && ChildAt(h, n, j) in Chain(h, rest[k]);
      var c := ChildAt(h, n, j);
      assert Chain(h, c) == Chain(h, n) + [c];
      PositionOnChain(h, rest[k], c);
    }
    DistinctAppend([n], rest);
  }

  lemma {:induction false} PreOrderFromDistinct(h: Heap, n: NodeId, i: nat)
    requires Valid(h) && n in h && i <= |h[n].children|
    ensures Distinct(PreOrderFrom(h, n, i))
    decreases Above(h, n), 0, |h[n].children| - i
  {
    if i < |h[n].children| {
      var c := ChildAt(h, n, i);
      var a := PreOrder(h, c);
      var b := PreOrderFrom(h, n, i + 1);
      PreOrderDistinct(h, c);
      PreOrderFromDistinct(h, n, i + 1);
      forall ka, kb | 0 <= ka < |a| && 0 <= kb < |b|
        ensures a[ka] != b[kb]
      {
        ApartFromLaterSiblings(h, n, i, ka, kb);
      }
      DistinctAppend(a, b);
    }
  }

  /** Position k > 0 of a listing holds a node whose parent is listed before it. */
  ghost predicate ParentListedBefore(h: Heap, ns: seq<NodeId>, k: nat)
    requires k < |ns|
  {
    ns[k] in h && exists j :: 0 <= j < k && h[ns[k]].parent == Some(ns[j])
  }

  /** A parent listed before position k of a stays listed before it in a + b. */
  lemma ListedBeforeInPrefix(h: Heap, a: seq<NodeId>, b: seq<NodeId>, k: nat)
    requires k < |a| && ParentListedBefore(h, a, k)
    ensures ParentListedBefore(h, a + b, k)
  {
    var j :| 0 <= j < k && h[a[k]].parent == Some(a[j]);
    assert (a + b)[j] == a[j] && (a + b)[k] == a[k];
  }

  /** A parent listed before position k of b is listed before position |a| + k of a + b. */
  lemma ListedBeforeInSuffix(h: Heap, a: seq<NodeId>, b: seq<NodeId>, k: nat)
    requires k < |b| && ParentListedBefore(h, b, k)
    ensures ParentListedBefore(h, a + b, |a| + k)
  {
    var j :| 0 <= j < k && h[b[k]].parent == Some(b[j]);
    assert (a + b)[|a| + j] == b[j] && (a + b)[|a| + k] == b[k];
  }

  /** In the pre-order listing every node comes after its parent. */
  lemma {:induction false} PreOrderParentFirst(h: Heap, n: NodeId, k: nat)
    requires Valid(h) && n in h && 0 < k < |PreOrder(h, n)|
    ensures ParentListedBefore(h, PreOrder(h, n), k)
    decreases Above(h, n), 1
  {
    var rest := PreOrderFrom(h, n, 0);
    PreOrderFromParentFirst(h, n, 0, k - 1);
    if h[rest[k - 1]].parent == Some(n) {
      assert ([n] + rest)[0] == n && ([n] + rest)[k] == rest[k - 1];
    } else {
      ListedBeforeInSuffix(h, [n], rest, k - 1);
    }
  }

  lemma {:induction false} PreOrderFromParentFirst(h: Heap, n: NodeId, i: nat, k: nat)
    requires Valid(h) && n in h && i <= |h[n].children| && k < |PreOrderFrom(h, n, i)|
    ensures h[PreOrderFrom(h, n, i)[k]].parent == Some(n) || ParentListedBefore(h, PreOrderFrom(h, n, i), k)
    decreases Above(h, n), 0, |h[n].children| - i
  {
    var c := ChildAt(h, n, i);
    var a := PreOrder(h, c);
    var b := PreOrderFrom(h, n, i + 1);
    assert PreOrderFrom(h, n, i) == a + b;
    if k == 0 {
      assert (a + b)[0] == c;
    } else if k < |a| {
      PreOrderParentFirst(h, c, k);
      ListedBeforeInPrefix(h, a, b, k);
    } else {
      PreOrderFromParentFirst(h, n, i + 1, k - |a|);
      assert (a + b)[k] == b[k - |a|];
      if h[b[k - |a|]].parent != Some(n) {
        ListedBeforeInSuffix(h, a, b, k - |a|);
      }
    }
  }

  /**
   * Every node with n on its ancestor chain in h0 is in h1 with the same state
   * and the same child map.
   */
  ghost predicate SameBelow(h0: Heap, h1: Heap, n: NodeId)
    requires Valid(h0)
  {
    forall m {:trigger Under(h0, n, m)} :: m in h0 && Under(h0, n, m) ==>
      m in h1 && h1[m].state == h0[m].state && h1[m].children == h0[m].children
  }

  /** n is on m's ancestor chain. */
  ghost predicate Under(h: Heap, n: NodeId, m: NodeId)
    requires Valid(h) && m in h
  {
    n in Chain(h, m)
  }

  lemma {:induction false} SameBelowChild(h0: Heap, h1: Heap, n: NodeId, c: NodeId)
    requires Valid(h0) && n in h0 && c in h0 && h0[c].parent == Some(n)
    requires SameBelow(h0, h1, n)
    ensures SameBelow(h0, h1, c)
  {
    assert Chain(h0, c) == Chain(h0, n) + [c];
    forall m | m in h0 && Under(h0, c, m)
      ensures m in h1 && h1[m].state == h0[m].state && h1[m].children == h0[m].children
    {
      ChainTransitive(h0, n, c, m);
      assert Under(h0, n, m);
    }
  }

  /**
   * hasChanges and the listing depend only on the states and child maps of the
   * nodes that have n on their ancestor chain: changing anything else (a parent
   * pointer, or another node altogether) leaves them as they were.
   */
  lemma {:induction false} SubtreeFrame(h0: Heap, h1: Heap, n: NodeId)
    requires Valid(h0) && Valid(h1) && n in h0
    requires SameBelow(h0, h1, n)
    ensures n in h1 && Changed(h1, n) == Changed(h0, n) && PreOrder(h1, n) == PreOrder(h0, n)
  {
    ChangedFrame(h0, h1, n);
    PreOrderFrame(h0, h1, n);
  }

  /** n itself is among the nodes SameBelow speaks of. */
  lemma {:induction false} SameBelowSelf(h0: Heap, h1: Heap, n: NodeId)
    requires Valid(h0) && n in h0 && SameBelow(h0, h1, n)
    ensures n in h1 && h1[n].state == h0[n].state && h1[n].children == h0[n].children
  {
    assert Chain(h0, n)[|Chain(h0, n)| - 1] == n;
    assert Under(h0, n, n);
  }

  lemma {:induction false} ChangedFrame(h0: Heap, h1: Heap, n: NodeId)
    requires Valid(h0) && Valid(h1) && n in h0
    requires SameBelow(h0, h1, n)
    ensures n in h1 && Changed(h1, n) == Changed(h0, n)
    decreases Above(h0, n), 1
  {
    SameBelowSelf(h0, h1, n);
    ChildChangedFrame(h0, h1, n, 0);
  }

  lemma {:induction false} ChildChangedFrame(h0: Heap, h1: Heap, n: NodeId, i: nat)
    requires Valid(h0) && Valid(h1) && n in h0 && n in h1 && i <= |h0[n].children|
    requires h1[n].children == h0[n].children
    requires SameBelow(h0, h1, n)
    ensures ChildChanged(h1, n, i) == ChildChanged(h0, n, i)
    decreases Above(h0, n), 0, |h0[n].children| - i
  {
    if i < |h0[n].children| {
      var c := ChildAt(h0, n, i);
      assert ChildAt(h1, n, i) == c;
      SameBelowChild(h0, h1, n, c);
      ChangedFrame(h0, h1, c);
      ChildChangedFrame(h0, h1, n, i + 1);
      assert ChildChanged(h1, n, i) == (Changed(h1, c) || ChildChanged(h1, n, i + 1));
      assert ChildChanged(h0, n, i) == (Changed(h0, c) || ChildChanged(h0, n, i + 1));
    } else {
      assert !ChildChanged(h1, n, i) && !ChildChanged(h0, n, i);
    }
  }

  lemma {:induction false} PreOrderFrame(h0: Heap, h1: Heap, n: NodeId)
    requires Valid(h0) && Valid(h1) && n in h0
    requires SameBelow(h0, h1, n)
    ensures n in h1 && PreOrder(h1, n) == PreOrder(h0, n)
    decreases Above(h0, n), 1
  {
    SameBelowSelf(h0, h1, n);
    PreOrderFromFrame(h0, h1, n, 0);
  }

  lemma {:induction false} PreOrderFromFrame(h0: Heap, h1: Heap, n: NodeId, i: nat)
    requires Valid(h0) && Valid(h1) && n in h0 && n in h1 && i <= |h0[n].children|
    requires h1[n].children == h0[n].children
    requires SameBelow(h0, h1, n)
    ensures PreOrderFrom(h1, n, i) == PreOrderFrom(h0, n, i)
    decreases Above(h0, n), 0, |h0[n].children| - i
  {
    if i < |h0[n].children| {
      var c := ChildAt(h0, n, i);
      assert ChildAt(h1, n, i) == c;
      SameBelowChild(h0, h1, n, c);
      PreOrderFrame(h0, h1, c);
      PreOrderFromFrame(h0, h1, n, i + 1);
      assert PreOrderFrom(h1, n, i) == PreOrder(h1, c) + PreOrderFrom(h1, n, i + 1);
      assert PreOrderFrom(h0, n, i) == PreOrder(h0, c) + PreOrderFrom(h0, n, i + 1);
    } else {
      assert PreOrderFrom(h1, n, i) == [] == PreOrderFrom(h0, n, i);
    }
  }
}
