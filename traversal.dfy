/**
 * The visitor protocol of DiffNode: `visit(visitor)`, `visit(visitor, visit)` and
 * `visitChildren(visitor)`, written as functions that return the visitor's final
 * state together with the log of callbacks it received.
 *
 * A visitor is a function from its own state, the offered node and the node's
 * Visit to its new state and the Visit as it leaves it. The
 * StopVisitationException of the source is the `stopped` flag that
 * VisitWithSpec returns, and it is dropped exactly where the source catches it.
 */
module Traversal {
  import opened Wrappers
  import opened ChildMaps
  import opened DiffNodes
  import opened NodeQueries
  import opened Subtrees
  import opened Sequences

  /** The control object handed to the visitor with each node. */
  datatype Visit = Visit(stopped: bool, allowedToGoDeeper: bool)

  /** A newly made Visit: not stopped, allowed to go deeper. */
  const FreshVisit: Visit := Visit(false, true)

  type Visitor<!S> = (S, NodeId, Visit) --> (S, Visit)

  /** The visitor can be offered any node of the heap in any state. */
  ghost predicate Accepts<S(!new)>(h: Heap, accept: Visitor<S>) {
    forall s: S, m: NodeId, v: Visit :: m in h ==> accept.requires(s, m, v)
  }

  /** One callback: the node offered, the Visit it was given, the Visit it left. */
  datatype Call = Call(node: NodeId, given: Visit, left: Visit)

  /** The visitor's final state and every callback, in order. */
  datatype Walk<S> = Walk(state: S, calls: seq<Call>)

  ghost predicate CallsIn(h: Heap, calls: seq<Call>) {
    forall k :: 0 <= k < |calls| ==> calls[k].node in h
  }

  /** The nodes offered to the visitor, in order. */
  function Offered(calls: seq<Call>): (r: seq<NodeId>)
    ensures |r| == |calls| && forall k :: 0 <= k < |r| ==> r[k] == calls[k].node
  {
    seq(|calls|, k requires 0 <= k < |calls| => calls[k].node)
  }

  lemma {:induction false} OfferedAppend(a: seq<Call>, b: seq<Call>)
    ensures Offered(a + b) == Offered(a) + Offered(b)
  {
    var ab := a + b;
    assert forall k :: 0 <= k < |ab| ==> Offered(ab)[k] == (Offered(a) + Offered(b))[k] by {
      forall k | 0 <= k < |ab| ensures Offered(ab)[k] == (Offered(a) + Offered(b))[k] {
        if k < |a| { assert ab[k] == a[k]; } else { assert ab[k] == b[k - |a|]; }
      }
    }
  }

  /**
   * `visit(visitor)`: a fresh Visit for n; a stop raised below is swallowed here.
   */
  ghost function VisitSpec<S(!new)>(h: Heap, n: NodeId, accept: Visitor<S>, s: S): (w: Walk<S>)
    requires Valid(h) && n in h && Accepts(h, accept)
    ensures CallsIn(h, w.calls) && |w.calls| >= 1 && w.calls[0].node == n
    decreases Above(h, n), 2
  {
    VisitWithSpec(h, n, FreshVisit, accept, s).0
  }

  /**
   * `visit(visitor, visit)`: offer n, then its children if the Visit still
   * allows going deeper and n has children; report whether the visitor stopped.
   */
  ghost function VisitWithSpec<S(!new)>(h: Heap, n: NodeId, v: Visit, accept: Visitor<S>, s: S): (r: (Walk<S>, bool))
    requires Valid(h) && n in h && Accepts(h, accept)
    ensures CallsIn(h, r.0.calls) && |r.0.calls| >= 1
    ensures r.0.calls[0] == Call(n, v, accept(s, n, v).1)
    decreases Above(h, n), 1
  {
    var (s1, v1) := accept(s, n, v);
    var call := Call(n, v, v1);
    if v1.allowedToGoDeeper && |h[n].children| > 0 then
      var w := VisitChildrenSpec(h, n, 0, accept, s1);
      (Walk(w.state, [call] + w.calls), v1.stopped)
    else
      (Walk(s1, [call]), v1.stopped)
  }

  /**
   * `visitChildren(visitor)` from the i-th child on: each child in insertion
   * order through the one-argument visit.
   */
  ghost function VisitChildrenSpec<S(!new)>(h: Heap, n: NodeId, i: nat, accept: Visitor<S>, s: S): (w: Walk<S>)
    requires Valid(h) && n in h && i <= |h[n].children| && Accepts(h, accept)
    ensures CallsIn(h, w.calls)
    decreases Above(h, n), 0, |h[n].children| - i
  {
    if i == |h[n].children| then Walk(s, [])
    else
      var w1 := VisitSpec(h, ChildAt(h, n, i), accept, s);
      var w2 := VisitChildrenSpec(h, n, i + 1, accept, w1.state);
      Walk(w2.state, w1.calls + w2.calls)
  }

  /** Every callback of a walk is given a newly made Visit. */
  lemma {:induction false} EveryVisitFresh<S(!new)>(h: Heap, n: NodeId, accept: Visitor<S>, s: S)
    requires Valid(h) && n in h && Accepts(h, accept)
    ensures forall k :: 0 <= k < |VisitSpec(h, n, accept, s).calls| ==>
      VisitSpec(h, n, accept, s).calls[k].given == FreshVisit
    decreases Above(h, n), 1
  {
    var (s1, v1) := accept(s, n, FreshVisit);
    if v1.allowedToGoDeeper && |h[n].children| > 0 {
      var rest := VisitChildrenSpec(h, n, 0, accept, s1).calls;
      assert VisitSpec(h, n, accept, s).calls == [Call(n, FreshVisit, v1)] + rest;
      EveryChildVisitFresh(h, n, 0, accept, s1);
    }
  }

  lemma {:induction false} EveryChildVisitFresh<S(!new)>(h: Heap, n: NodeId, i: nat, accept: Visitor<S>, s: S)
    requires Valid(h) && n in h && i <= |h[n].children| && Accepts(h, accept)
    ensures forall k :: 0 <= k < |VisitChildrenSpec(h, n, i, accept, s).calls| ==>
      VisitChildrenSpec(h, n, i, accept, s).calls[k].given == FreshVisit
    decreases Above(h, n), 0, |h[n].children| - i
  {
    if i < |h[n].children| {
      var c := ChildAt(h, n, i);
      var w1 := VisitSpec(h, c, accept, s);
      EveryVisitFresh(h, c, accept, s);
      EveryChildVisitFresh(h, n, i + 1, accept, w1.state);
    }
  }

  /** Callback k > 0 is for a node whose parent was offered earlier and left allowed to go deeper. */
  ghost predicate OpenedParentBefore(h: Heap, calls: seq<Call>, k: nat)
    requires k < |calls|
  {
    calls[k].node in h &&
    exists j :: 0 <= j < k && h[calls[k].node].parent == Some(calls[j].node) && calls[j].left.allowedToGoDeeper
  }

  /**
   * Pre-order with pruning: the walk starts at n, and every later node is
   * offered after its parent, and only when the parent's Visit still allowed
   * going deeper.
   */
  lemma {:induction false} VisitPreOrder<S(!new)>(h: Heap, n: NodeId, accept: Visitor<S>, s: S, k: nat)
    requires Valid(h) && n in h && Accepts(h, accept)
    requires 0 < k < |VisitSpec(h, n, accept, s).calls|
    ensures OpenedParentBefore(h, VisitSpec(h, n, accept, s).calls, k)
    decreases Above(h, n), 1
  {
    var (s1, v1) := accept(s, n, FreshVisit);
    var calls := VisitSpec(h, n, accept, s).calls;
    var rest := VisitChildrenSpec(h, n, 0, accept, s1).calls;
    assert v1.allowedToGoDeeper && calls == [Call(n, FreshVisit, v1)] + rest;
    assert calls[k] == rest[k - 1];
    VisitChildrenPreOrder(h, n, 0, accept, s1, k - 1);
    if h[rest[k - 1].node].parent != Some(n) {
      var j :| 0 <= j < k - 1 && h[rest[k - 1].node].parent == Some(rest[j].node) && rest[j].left.allowedToGoDeeper;
      assert calls[j + 1] == rest[j];
    }
  }

  lemma {:induction false} VisitChildrenPreOrder<S(!new)>(h: Heap, n: NodeId, i: nat, accept: Visitor<S>, s: S, k: nat)
    requires Valid(h) && n in h && i <= |h[n].children| && Accepts(h, accept)
    requires k < |VisitChildrenSpec(h, n, i, accept, s).calls|
    ensures var calls := VisitChildrenSpec(h, n, i, accept, s).calls;
      h[calls[k].node].parent == Some(n) || OpenedParentBefore(h, calls, k)
    decreases Above(h, n), 0, |h[n].children| - i
  {
    var calls := VisitChildrenSpec(h, n, i, accept, s).calls;
    var c := ChildAt(h, n, i);
    var a := VisitSpec(h, c, accept, s);
    var b := VisitChildrenSpec(h, n, i + 1, accept, a.state).calls;
    assert calls == a.calls + b;
    if k == 0 {
      assert calls[0] == a.calls[0];
    } else if k < |a.calls| {
      VisitPreOrder(h, c, accept, s, k);
      var j :| 0 <= j < k && h[a.calls[k].node].parent == Some(a.calls[j].node) && a.calls[j].left.allowedToGoDeeper;
      assert calls[j] == a.calls[j] && calls[k] == a.calls[k];
    } else {
      VisitChildrenPreOrder(h, n, i + 1, accept, a.state, k - |a.calls|);
      assert calls[k] == b[k - |a.calls|];
      if h[calls[k].node].parent != Some(n) {
        var j :| 0 <= j < k - |a.calls| && h[b[k - |a.calls|].node].parent == Some(b[j].node) && b[j].left.allowedToGoDeeper;
        assert calls[j + |a.calls|] == b[j];
      }
    }
  }

  /** Every node offered by visit(n) has n on its ancestor chain. */
  lemma {:induction false} VisitStaysBelow<S(!new)>(h: Heap, n: NodeId, accept: Visitor<S>, s: S, k: nat)
    requires Valid(h) && n in h && Accepts(h, accept)
    requires k < |VisitSpec(h, n, accept, s).calls|
    ensures n in Chain(h, VisitSpec(h, n, accept, s).calls[k].node)
    decreases Above(h, n), 1
  {
    var (s1, v1) := accept(s, n, FreshVisit);
    var calls := VisitSpec(h, n, accept, s).calls;
    if k == 0 {
      assert Chain(h, n)[|Chain(h, n)| - 1] == n;
    } else {
      var rest := VisitChildrenSpec(h, n, 0, accept, s1).calls;
      assert calls == [Call(n, FreshVisit, v1)] + rest;
      assert calls[k] == rest[k - 1];
      VisitChildrenStayBelow(h, n, 0, accept, s1, k - 1);
    }
  }

  lemma {:induction false} VisitChildrenStayBelow<S(!new)>(h: Heap, n: NodeId, i: nat, accept: Visitor<S>, s: S, k: nat)
    requires Valid(h) && n in h && i <= |h[n].children| && Accepts(h, accept)
    requires k < |VisitChildrenSpec(h, n, i, accept, s).calls|
    ensures var m := VisitChildrenSpec(h, n, i, accept, s).calls[k].node;
      n in Chain(h, m) && m != n
    decreases Above(h, n), 0, |h[n].children| - i
  {
    var calls := VisitChildrenSpec(h, n, i, accept, s).calls;
    var c := ChildAt(h, n, i);
    var a := VisitSpec(h, c, accept, s);
    var b := VisitChildrenSpec(h, n, i + 1, accept, a.state).calls;
    assert calls == a.calls + b;
    if k < |a.calls| {
      VisitStaysBelow(h, c, accept, s, k);
      assert calls[k] == a.calls[k];
      assert Chain(h, c) == Chain(h, n) + [c];
      ChainTransitive(h, n, c, calls[k].node);
      if calls[k].node != c {
        AncestorRankedBefore(h, c, calls[k].node);
      }
    } else {
      VisitChildrenStayBelow(h, n, i + 1, accept, a.state, k - |a.calls|);
      assert calls[k] == b[k - |a.calls|];
    }
  }

  /**
   * Whatever the visitor does with its Visit, visit(n) offers nodes of n's
   * subtree in pre-order and each at most once: going-deeper only leaves
   * nodes out.
   */
  lemma {:induction false} VisitFollowsPreOrder<S(!new)>(h: Heap, n: NodeId, accept: Visitor<S>, s: S)
    requires Valid(h) && n in h && Accepts(h, accept)
    ensures Subsequence(Offered(VisitSpec(h, n, accept, s).calls), PreOrder(h, n))
    ensures Distinct(Offered(VisitSpec(h, n, accept, s).calls))
    decreases Above(h, n), 1
  {
    var (s1, v1) := accept(s, n, FreshVisit);
    var call := Call(n, FreshVisit, v1);
    var calls := VisitSpec(h, n, accept, s).calls;
    assert calls == VisitWithSpec(h, n, FreshVisit, accept, s).0.calls;
    assert Offered([call]) == [n];
    assert Subsequence([n], [n]) by {
      assert [n][1..] == [];
    }
    if v1.allowedToGoDeeper && |h[n].children| > 0 {
      var rest := VisitChildrenSpec(h, n, 0, accept, s1).calls;
      assert calls == [call] + rest;
      VisitChildrenFollowPreOrder(h, n, 0, accept, s1);
      OfferedAppend([call], rest);
      SubsequenceAppend([n], [n], Offered(rest), PreOrderFrom(h, n, 0));
    } else {
      assert calls == [call];
      SubsequenceAppend([n], [n], [], PreOrderFrom(h, n, 0));
      assert [n] + [] == [n];
    }
    PreOrderDistinct(h, n);
    SubsequenceDistinct(Offered(calls), PreOrder(h, n));
  }

  lemma {:induction false} VisitChildrenFollowPreOrder<S(!new)>(h: Heap, n: NodeId, i: nat, accept: Visitor<S>, s: S)
    requires Valid(h) && n in h && i <= |h[n].children| && Accepts(h, accept)
    ensures Subsequence(Offered(VisitChildrenSpec(h, n, i, accept, s).calls), PreOrderFrom(h, n, i))
    decreases Above(h, n), 0, |h[n].children| - i
  {
    if i < |h[n].children| {
      var c := ChildAt(h, n, i);
      var a := VisitSpec(h, c, accept, s);
      var b := VisitChildrenSpec(h, n, i + 1, accept, a.state).calls;
      VisitFollowsPreOrder(h, c, accept, s);
      VisitChildrenFollowPreOrder(h, n, i + 1, accept, a.state);
      OfferedAppend(a.calls, b);
      SubsequenceAppend(Offered(a.calls), PreOrder(h, c), Offered(b), PreOrderFrom(h, n, i + 1));
    } else {
      assert Offered([]) == [];
    }
  }

  /**
   * Nothing is skipped without cause: every child of a node whose callback
   * left its Visit allowed to go deeper is offered.
   */
  lemma {:induction false} VisitOffersOpenedChildren<S(!new)>(h: Heap, n: NodeId, accept: Visitor<S>, s: S, k: nat, i: nat)
    requires Valid(h) && n in h && Accepts(h, accept)
    requires k < |VisitSpec(h, n, accept, s).calls|
    requires VisitSpec(h, n, accept, s).calls[k].left.allowedToGoDeeper
    requires i < |h[VisitSpec(h, n, accept, s).calls[k].node].children|
    ensures ChildAt(h, VisitSpec(h, n, accept, s).calls[k].node, i) in Offered(VisitSpec(h, n, accept, s).calls)
    decreases Above(h, n), 1
  {
    var (s1, v1) := accept(s, n, FreshVisit);
    var call := Call(n, FreshVisit, v1);
    var calls := VisitSpec(h, n, accept, s).calls;
    var rest := VisitChildrenSpec(h, n, 0, accept, s1).calls;
    assert v1.allowedToGoDeeper && |h[n].children| > 0 && calls == [call] + rest;
    OfferedAppend([call], rest);
    if k == 0 {
      ChildrenOfferEachChild(h, n, 0, accept, s1, i);
    } else {
      assert calls[k] == rest[k - 1];
      ChildrenOfferOpenedChildren(h, n, 0, accept, s1, k - 1, i);
    }
  }

  /** The loop over n's children from the j-th on offers the i-th child for every i >= j. */
  lemma {:induction false} ChildrenOfferEachChild<S(!new)>(h: Heap, n: NodeId, j: nat, accept: Visitor<S>, s: S, i: nat)
    requires Valid(h) && n in h && j <= i < |h[n].children| && Accepts(h, accept)
    ensures ChildAt(h, n, i) in Offered(VisitChildrenSpec(h, n, j, accept, s).calls)
    decreases i - j
  {
    var c := ChildAt(h, n, j);
    var a := VisitSpec(h, c, accept, s);
    var b := VisitChildrenSpec(h, n, j + 1, accept, a.state).calls;
    OfferedAppend(a.calls, b);
    if j == i {
      assert Offered(a.calls)[0] == c;
    } else {
      ChildrenOfferEachChild(h, n, j + 1, accept, a.state, i);
    }
  }

  lemma {:induction false} ChildrenOfferOpenedChildren<S(!new)>(h: Heap, n: NodeId, j: nat, accept: Visitor<S>, s: S, k: nat, i: nat)
    requires Valid(h) && n in h && j <= |h[n].children| && Accepts(h, accept)
    requires k < |VisitChildrenSpec(h, n, j, accept, s).calls|
    requires VisitChildrenSpec(h, n, j, accept, s).calls[k].left.allowedToGoDeeper
    requires i < |h[VisitChildrenSpec(h, n, j, accept, s).calls[k].node].children|
    ensures ChildAt(h, VisitChildrenSpec(h, n, j, accept, s).calls[k].node, i)
      in Offered(VisitChildrenSpec(h, n, j, accept, s).calls)
    decreases Above(h, n), 0, |h[n].children| - j
  {
    var calls := VisitChildrenSpec(h, n, j, accept, s).calls;
    var c := ChildAt(h, n, j);
    var a := VisitSpec(h, c, accept, s);
    var b := VisitChildrenSpec(h, n, j + 1, accept, a.state).calls;
    assert calls == a.calls + b;
    OfferedAppend(a.calls, b);
    if k < |a.calls| {
      assert calls[k] == a.calls[k];
      VisitOffersOpenedChildren(h, c, accept, s, k, i);
    } else {
      assert calls[k] == b[k - |a.calls|];
      ChildrenOfferOpenedChildren(h, n, j + 1, accept, a.state, k - |a.calls|, i);
    }
  }

  /** The visitor never forbids going deeper. */
  ghost predicate NeverPrunes<S(!new)>(h: Heap, accept: Visitor<S>)
    requires Accepts(h, accept)
  {
    forall s: S, m: NodeId :: m in h ==> accept(s, m, FreshVisit).1.allowedToGoDeeper
  }

  /**
   * As written, a stop does not end the walk: unless the visitor forbids going
   * deeper, visit(n) offers every node of n's subtree in pre-order, whatever
   * the visitor does with `stopped`.
   */
  lemma {:induction false} StopDoesNotAbort<S(!new)>(h: Heap, n: NodeId, accept: Visitor<S>, s: S)
    requires Valid(h) && n in h && Accepts(h, accept) && NeverPrunes(h, accept)
    ensures Offered(VisitSpec(h, n, accept, s).calls) == PreOrder(h, n)
    decreases Above(h, n), 1
  {
    var (s1, v1) := accept(s, n, FreshVisit);
    var call := Call(n, FreshVisit, v1);
    ChildrenStopDoNotAbort(h, n, 0, accept, s1);
    var rest := VisitChildrenSpec(h, n, 0, accept, s1).calls;
    if |h[n].children| > 0 {
      OfferedAppend([call], rest);
    } else {
      assert Offered([call]) == [n];
    }
  }

  lemma {:induction false} ChildrenStopDoNotAbort<S(!new)>(h: Heap, n: NodeId, i: nat, accept: Visitor<S>, s: S)
    requires Valid(h) && n in h && i <= |h[n].children| && Accepts(h, accept) && NeverPrunes(h, accept)
    ensures Offered(VisitChildrenSpec(h, n, i, accept, s).calls) == PreOrderFrom(h, n, i)
    decreases Above(h, n), 0, |h[n].children| - i
  {
    if i < |h[n].children| {
      var c := ChildAt(h, n, i);
      var a := VisitSpec(h, c, accept, s);
      StopDoesNotAbort(h, c, accept, s);
      ChildrenStopDoNotAbort(h, n, i + 1, accept, a.state);
      OfferedAppend(a.calls, VisitChildrenSpec(h, n, i + 1, accept, a.state).calls);
    } else {
      assert Offered([]) == [];
    }
  }

  /** Some callback left its Visit stopped. */
  predicate HasStop(calls: seq<Call>) {
    calls != [] && (calls[0].left.stopped || HasStop(calls[1..]))
  }

  /** The callbacks up to and including the first one that stopped. */
  function UpToFirstStop(calls: seq<Call>): (r: seq<Call>)
    ensures r <= calls
    ensures forall k :: 0 <= k < |r| - 1 ==> !r[k].left.stopped
    ensures !HasStop(calls) ==> r == calls
    ensures HasStop(calls) ==> |r| >= 1 && r[|r| - 1].left.stopped
  {
    if calls == [] then []
    else if calls[0].left.stopped then [calls[0]]
    else
      [calls[0]] + UpToFirstStop(calls[1..])
  }

  lemma {:induction false} UpToFirstStopAppend(a: seq<Call>, b: seq<Call>)
    ensures HasStop(a + b) == (HasStop(a) || HasStop(b))
    ensures UpToFirstStop(a + b) == if HasStop(a) then UpToFirstStop(a) else a + UpToFirstStop(b)
  {
    if a == [] {
      assert a + b == b;
    } else {
      assert (a + b)[0] == a[0] && (a + b)[1..] == a[1..] + b;
      UpToFirstStopAppend(a[1..], b);
    }
  }

  /**
   * The intended traversal, as the `catch ... return` in `visitChildren`
   * (DiffNode.java:356-359) suggests: a stop ends the whole walk at once, and
   * the stop is reported up through every level instead of being swallowed by
   * the one-argument visit of each child.
   */
  ghost function StoppableVisitSpec<S(!new)>(h: Heap, n: NodeId, accept: Visitor<S>, s: S): (w: Walk<S>)
    requires Valid(h) && n in h && Accepts(h, accept)
    ensures |w.calls| >= 1 && w.calls[0].node == n
    decreases Above(h, n), 2
  {
    StoppableVisitWithSpec(h, n, FreshVisit, accept, s).0
  }

  ghost function StoppableVisitWithSpec<S(!new)>(h: Heap, n: NodeId, v: Visit, accept: Visitor<S>, s: S): (r: (Walk<S>, bool))
    requires Valid(h) && n in h && Accepts(h, accept)
    ensures |r.0.calls| >= 1 && r.0.calls[0] == Call(n, v, accept(s, n, v).1)
    decreases Above(h, n), 1
  {
    var (s1, v1) := accept(s, n, v);
    var call := Call(n, v, v1);
    if v1.stopped then (Walk(s1, [call]), true)
    else if v1.allowedToGoDeeper && |h[n].children| > 0 then
      var (w, stopped) := StoppableVisitChildrenSpec(h, n, 0, accept, s1);
      (Walk(w.state, [call] + w.calls), stopped)
    else
      (Walk(s1, [call]), false)
  }

  ghost function StoppableVisitChildrenSpec<S(!new)>(h: Heap, n: NodeId, i: nat, accept: Visitor<S>, s: S): (r: (Walk<S>, bool))
    requires Valid(h) && n in h && i <= |h[n].children| && Accepts(h, accept)
    decreases Above(h, n), 0, |h[n].children| - i
  {
    if i == |h[n].children| then (Walk(s, []), false)
    else
      var (w1, stopped1) := StoppableVisitWithSpec(h, ChildAt(h, n, i), FreshVisit, accept, s);
      if stopped1 then (w1, true)
      else
        var (w2, stopped2) := StoppableVisitChildrenSpec(h, n, i + 1, accept, w1.state);
        (Walk(w2.state, w1.calls + w2.calls), stopped2)
  }

  /**
   * The corrected walk is the walk as written cut right after the first stop:
   * it reports a stop exactly when the walk as written met one, and without a
   * stop the two agree on the visitor's final state too.
   */
  lemma {:induction false} StoppableIsCutAtFirstStop<S(!new)>(h: Heap, n: NodeId, v: Visit, accept: Visitor<S>, s: S)
    requires Valid(h) && n in h && Accepts(h, accept)
    ensures StoppableVisitWithSpec(h, n, v, accept, s).0.calls == UpToFirstStop(VisitWithSpec(h, n, v, accept, s).0.calls)
    ensures StoppableVisitWithSpec(h, n, v, accept, s).1 == HasStop(VisitWithSpec(h, n, v, accept, s).0.calls)
    ensures !HasStop(VisitWithSpec(h, n, v, accept, s).0.calls) ==>
      StoppableVisitWithSpec(h, n, v, accept, s).0.state == VisitWithSpec(h, n, v, accept, s).0.state
    decreases Above(h, n), 1
  {
    var (s1, v1) := accept(s, n, v);
    var call := Call(n, v, v1);
    var w := VisitWithSpec(h, n, v, accept, s).0;
    if v1.stopped {
      assert w.calls[0] == call;
      assert HasStop(w.calls) by { assert w.calls[0].left.stopped; }
    } else if v1.allowedToGoDeeper && |h[n].children| > 0 {
      var rest := VisitChildrenSpec(h, n, 0, accept, s1);
      assert w.calls == [call] + rest.calls;
      StoppableChildrenIsCutAtFirstStop(h, n, 0, accept, s1);
      UpToFirstStopAppend([call], rest.calls);
      assert !HasStop([call]);
      assert UpToFirstStop([call]) == [call];
    } else {
      assert w.calls == [call];
      assert !HasStop([call]);
    }
  }

  lemma {:induction false} StoppableChildrenIsCutAtFirstStop<S(!new)>(h: Heap, n: NodeId, i: nat, accept: Visitor<S>, s: S)
    requires Valid(h) && n in h && i <= |h[n].children| && Accepts(h, accept)
    ensures StoppableVisitChildrenSpec(h, n, i, accept, s).0.calls == UpToFirstStop(VisitChildrenSpec(h, n, i, accept, s).calls)
    ensures StoppableVisitChildrenSpec(h, n, i, accept, s).1 == HasStop(VisitChildrenSpec(h, n, i, accept, s).calls)
    ensures !HasStop(VisitChildrenSpec(h, n, i, accept, s).calls) ==>
      StoppableVisitChildrenSpec(h, n, i, accept, s).0.state == VisitChildrenSpec(h, n, i, accept, s).state
    decreases Above(h, n), 0, |h[n].children| - i
  {
    if i == |h[n].children| {
      assert !HasStop([]);
    } else {
      var c := ChildAt(h, n, i);
      var a := VisitSpec(h, c, accept, s);
      var b := VisitChildrenSpec(h, n, i + 1, accept, a.state);
      assert VisitChildrenSpec(h, n, i, accept, s).calls == a.calls + b.calls;
      var (w1, stopped1) := StoppableVisitWithSpec(h, c, FreshVisit, accept, s);
      StoppableIsCutAtFirstStop(h, c, FreshVisit, accept, s);
      UpToFirstStopAppend(a.calls, b.calls);
      if !stopped1 {
        assert w1.state == a.state;
        StoppableChildrenIsCutAtFirstStop(h, n, i + 1, accept, a.state);
      }
    }
  }

  /**
   * The visitor `hasChanges` hands to visitChildren: when the offered node has
   * changes it records that and stops the visit.
   */
  function ChangeDetector(h: Heap): (accept: Visitor<bool>)
    ensures Valid(h) ==> Accepts(h, accept)
  {
    (found: bool, m: NodeId, v: Visit) requires Valid(h) && m in h =>
      if Changed(h, m) then (true, v.(stopped := true)) else (found, v)
  }

  /** Visiting n with the detector ends with `found || hasChanges(n)`. */
  lemma {:induction false} DetectorFindsChange(h: Heap, n: NodeId, found: bool)
    requires Valid(h) && n in h
    ensures VisitSpec(h, n, ChangeDetector(h), found).state == (found || Changed(h, n))
    decreases Above(h, n), 1
  {
    var accept := ChangeDetector(h);
    var (s1, v1) := accept(found, n, FreshVisit);
    if v1.allowedToGoDeeper && |h[n].children| > 0 {
      DetectorFindsChildChange(h, n, 0, s1);
    }
  }

  lemma {:induction false} DetectorFindsChildChange(h: Heap, n: NodeId, i: nat, found: bool)
    requires Valid(h) && n in h && i <= |h[n].children|
    ensures VisitChildrenSpec(h, n, i, ChangeDetector(h), found).state == (found || ChildChanged(h, n, i))
    decreases Above(h, n), 0, |h[n].children| - i
  {
    if i < |h[n].children| {
      var c := ChildAt(h, n, i);
      var a := VisitSpec(h, c, ChangeDetector(h), found);
      DetectorFindsChange(h, c, found);
      DetectorFindsChildChange(h, n, i + 1, a.state);
    }
  }

  /**
   * With the corrected traversal the detector gives the same answer, and the
   * walk reports a stop exactly when it found a change.
   */
  lemma {:induction false} StoppableDetectorFindsChange(h: Heap, n: NodeId, found: bool)
    requires Valid(h) && n in h
    ensures StoppableVisitWithSpec(h, n, FreshVisit, ChangeDetector(h), found).0.state == (found || Changed(h, n))
    ensures StoppableVisitWithSpec(h, n, FreshVisit, ChangeDetector(h), found).1 == Changed(h, n)
    decreases Above(h, n), 1
  {
    var accept := ChangeDetector(h);
    var (s1, v1) := accept(found, n, FreshVisit);
    if !v1.stopped && |h[n].children| > 0 {
      StoppableDetectorFindsChildChange(h, n, 0, s1);
    }
  }

  lemma {:induction false} StoppableDetectorFindsChildChange(h: Heap, n: NodeId, i: nat, found: bool)
    requires Valid(h) && n in h && i <= |h[n].children|
    ensures StoppableVisitChildrenSpec(h, n, i, ChangeDetector(h), found).0.state == (found || ChildChanged(h, n, i))
    ensures StoppableVisitChildrenSpec(h, n, i, ChangeDetector(h), found).1 == ChildChanged(h, n, i)
    decreases Above(h, n), 0, |h[n].children| - i
  {
    if i < |h[n].children| {
      var c := ChildAt(h, n, i);
      var a := StoppableVisitWithSpec(h, c, FreshVisit, ChangeDetector(h), found);
      StoppableDetectorFindsChange(h, c, found);
      if !a.1 {
        StoppableDetectorFindsChildChange(h, n, i + 1, a.0.state);
      }
    }
  }

  /**
   * The visitor `getChild(NodePath)` hands to visitChildren: it records the
   * offered node when the node's path is `path`, and stops.
   */
  function PathFinder(h: Heap, path: NodePath): (accept: Visitor<Option<NodeId>>)
    ensures Valid(h) ==> Accepts(h, accept)
  {
    (found: Option<NodeId>, m: NodeId, v: Visit) requires Valid(h) && m in h =>
      if GetPath(h, m) == path then (Some(m), v.(stopped := true)) else (found, v)
  }

  /** Some node of the listing has path `path`. */
  ghost predicate SomeAtPath(h: Heap, ns: seq<NodeId>, path: NodePath)
    requires Valid(h)
  {
    exists k :: 0 <= k < |ns| && ns[k] in h && GetPath(h, ns[k]) == path
  }

  lemma {:induction false} SomeAtPathAppend(h: Heap, a: seq<NodeId>, b: seq<NodeId>, path: NodePath)
    requires Valid(h)
    ensures SomeAtPath(h, a + b, path) == (SomeAtPath(h, a, path) || SomeAtPath(h, b, path))
  {
    var ab := a + b;
    if SomeAtPath(h, ab, path) {
      var k :| 0 <= k < |ab| && ab[k] in h && GetPath(h, ab[k]) == path;
      if k < |a| { assert ab[k] == a[k]; } else { assert ab[k] == b[k - |a|]; }
    }
    if SomeAtPath(h, a, path) {
      var k :| 0 <= k < |a| && a[k] in h && GetPath(h, a[k]) == path;
      assert ab[k] == a[k];
    }
    if SomeAtPath(h, b, path) {
      var k :| 0 <= k < |b| && b[k] in h && GetPath(h, b[k]) == path;
      assert ab[k + |a|] == b[k];
    }
  }

  /**
   * Visiting n with the path finder starting from `found` ends with a node
   * exactly when `found` held one or some node of n's subtree has the path;
   * a node it ends with that was not `found` has the path and lies in n's
   * subtree.
   */
  lemma {:induction false} PathFinderFinds(h: Heap, n: NodeId, path: NodePath, found: Option<NodeId>)
    requires Valid(h) && n in h
    ensures VisitSpec(h, n, PathFinder(h, path), found).state.Some? ==
      (found.Some? || SomeAtPath(h, PreOrder(h, n), path))
    ensures VisitSpec(h, n, PathFinder(h, path), found).state == found ||
      (VisitSpec(h, n, PathFinder(h, path), found).state.Some? &&
       VisitSpec(h, n, PathFinder(h, path), found).state.value in h &&
       GetPath(h, VisitSpec(h, n, PathFinder(h, path), found).state.value) == path &&
       n in Chain(h, VisitSpec(h, n, PathFinder(h, path), found).state.value))
    decreases Above(h, n), 1
  {
    var accept := PathFinder(h, path);
    var (s1, v1) := accept(found, n, FreshVisit);
    PathFinderFindsBelow(h, n, 0, path, s1);
    SomeAtPathAppend(h, [n], PreOrderFrom(h, n, 0), path);
    assert SomeAtPath(h, [n], path) == (GetPath(h, n) == path) by {
      if GetPath(h, n) == path { assert [n][0] == n; }
    }
    assert Chain(h, n)[|Chain(h, n)| - 1] == n;
  }

  lemma {:induction false} PathFinderFindsBelow(h: Heap, n: NodeId, i: nat, path: NodePath, found: Option<NodeId>)
    requires Valid(h) && n in h && i <= |h[n].children|
    ensures VisitChildrenSpec(h, n, i, PathFinder(h, path), found).state.Some? ==
      (found.Some? || SomeAtPath(h, PreOrderFrom(h, n, i), path))
    ensures VisitChildrenSpec(h, n, i, PathFinder(h, path), found).state == found ||
      (VisitChildrenSpec(h, n, i, PathFinder(h, path), found).state.Some? &&
       VisitChildrenSpec(h, n, i, PathFinder(h, path), found).state.value in h &&
       IsAncestor(h, n, VisitChildrenSpec(h, n, i, PathFinder(h, path), found).state.value) &&
       GetPath(h, VisitChildrenSpec(h, n, i, PathFinder(h, path), found).state.value) == path)
    decreases Above(h, n), 0, |h[n].children| - i
  {
    if i < |h[n].children| {
      var accept := PathFinder(h, path);
      var c := ChildAt(h, n, i);
      var a := VisitSpec(h, c, accept, found);
      PathFinderFinds(h, c, path, found);
      PathFinderFindsBelow(h, n, i + 1, path, a.state);
      SomeAtPathAppend(h, PreOrder(h, c), PreOrderFrom(h, n, i + 1), path);
      if a.state != found {
        var m := a.state.value;
        assert Chain(h, c) == Chain(h, n) + [c];
        ChainTransitive(h, n, c, m);
        if m != c {
          AncestorRankedBefore(h, c, m);
        }
      }
    }
  }

  /** An item node `k` under `parent`, with the given children. */
  function ItemNode(k: nat, parent: Option<NodeId>, children: ChildMap<Selector, NodeId>): (node: Node) {
    Node(if parent.None? then RootAccessor else ElementAccessor(ItemSelector(k), None, None, None),
         UNTOUCHED, parent, children, None, None, None)
  }

  /** The tree R[X, Y], X[Z] with R = 0, X = 1, Y = 2, Z = 3. */
  function SampleTree(): (h: Heap) {
    map[0 := ItemNode(0, None, [Entry(ItemSelector(1), 1), Entry(ItemSelector(2), 2)]),
        1 := ItemNode(1, Some(0), [Entry(ItemSelector(3), 3)]),
        2 := ItemNode(2, Some(0), []),
        3 := ItemNode(3, Some(1), [])]
  }

  /** Records every node it is offered and stops the visit at `x`. */
  function StopAt(x: NodeId): (visitor: Visitor<seq<NodeId>>) {
    (seen: seq<NodeId>, m: NodeId, v: Visit) => (seen + [m], if m == x then v.(stopped := true) else v)
  }

  lemma {:induction false} SampleTreeValid()
    ensures Valid(SampleTree())
  {
    var h := SampleTree();
    assert h.Keys == {0, 1, 2, 3};
    forall n, i | n in h && 0 <= i < |h[n].children|
      ensures var c := h[n].children[i].child;
        c in h && h[c].parent == Some(n) && SelectorOf(h[c].accessor) == h[n].children[i].key
    {
      assert n == 0 || n == 1;
    }
    forall n | n in h ensures DistinctKeys(h[n].children) {
      assert n == 0 || n == 1 || n == 2 || n == 3;
    }
    assert WellFormed(h);
    var rank := map[0 := 0, 1 := 1, 2 := 1, 3 := 2];
    forall n | n in h && h[n].parent.Some? && h[n].parent.value in rank
      ensures rank[h[n].parent.value] < rank[n]
    {
      assert n == 0 || n == 1 || n == 2 || n == 3;
    }
    assert Ranked(h, rank);
  }

  /** Pre-order of the sample tree: R, X, Z, Y. */
  lemma {:induction false} SamplePreOrder()
    ensures Valid(SampleTree()) && PreOrder(SampleTree(), 0) == [0, 1, 3, 2]
  {
    var h := SampleTree();
    SampleTreeValid();
    assert ChildAt(h, 0, 0) == 1 && ChildAt(h, 0, 1) == 2 && ChildAt(h, 1, 0) == 3;
    assert PreOrder(h, 3) == [3] && PreOrder(h, 2) == [2];
    assert PreOrderFrom(h, 1, 0) == [3];
    assert PreOrderFrom(h, 0, 1) == [2];
    assert PreOrderFrom(h, 0, 0) == [1, 3, 2];
  }

  /** As written, stopping at X still offers every node of the sample tree. */
  lemma {:induction false} SampleVisitOffersAll()
    ensures Valid(SampleTree()) && Accepts(SampleTree(), StopAt(1))
    ensures Offered(VisitSpec(SampleTree(), 0, StopAt(1), []).calls) == [0, 1, 3, 2]
  {
    var h := SampleTree();
    SamplePreOrder();
    assert Accepts(h, StopAt(1));
    assert NeverPrunes(h, StopAt(1));
    StopDoesNotAbort(h, 0, StopAt(1), []);
  }

  /** The second callback, for X, leaves its Visit stopped. */
  lemma {:induction false} SampleVisitStopsAtX()
    ensures Valid(SampleTree()) && Accepts(SampleTree(), StopAt(1))
    ensures |VisitSpec(SampleTree(), 0, StopAt(1), []).calls| > 1
    ensures VisitSpec(SampleTree(), 0, StopAt(1), []).calls[1] == Call(1, FreshVisit, Visit(true, true))
  {
    var h := SampleTree();
    SampleTreeValid();
    var accept := StopAt(1);
    assert Accepts(h, accept);
    var calls := VisitSpec(h, 0, accept, []).calls;
    assert accept([], 0, FreshVisit) == ([0], FreshVisit) by {
      assert [] + [0] == [0];
    }
    var rest := VisitChildrenSpec(h, 0, 0, accept, [0]);
    assert calls == [Call(0, FreshVisit, FreshVisit)] + rest.calls;
    assert ChildAt(h, 0, 0) == 1;
    var x := VisitSpec(h, 1, accept, [0]);
    assert rest.calls == x.calls + VisitChildrenSpec(h, 0, 1, accept, x.state).calls;
    assert x.calls[0] == Call(1, FreshVisit, Visit(true, true));
    assert calls[1] == x.calls[0];
  }

  /**
   * Stopping at X: as written, Z and Y are still offered after X; corrected,
   * the walk ends with X.
   */
  lemma {:induction false} StopAtXStillVisitsZAndY()
    ensures Valid(SampleTree()) && Accepts(SampleTree(), StopAt(1))
    ensures Offered(VisitSpec(SampleTree(), 0, StopAt(1), []).calls) == [0, 1, 3, 2]
    ensures VisitSpec(SampleTree(), 0, StopAt(1), []).calls[1].left.stopped
    ensures Offered(StoppableVisitSpec(SampleTree(), 0, StopAt(1), []).calls) == [0, 1]
  {
    var h := SampleTree();
    var accept := StopAt(1);
    SampleVisitOffersAll();
    SampleVisitStopsAtX();
    var calls := VisitSpec(h, 0, accept, []).calls;
    StoppableIsCutAtFirstStop(h, 0, FreshVisit, accept, []);
    assert calls[1..][0] == calls[1];
    assert UpToFirstStop(calls) == [calls[0], calls[1]];
    assert Offered([calls[0], calls[1]]) == [0, 1];
  }
}
