/**
 * The mutators of DiffNode.java: the constructor, setState, setType, the
 * circle-start setters, setParentNode and addChild, as methods of a class that
 * owns every node, together with the functions that specify setParentNode and
 * addChild and the lemmas about them. The read-only methods hasChanges, visit
 * and visitChildren are here too, written with the source's loop and recursion
 * and proved equal to their specifications.
 */
module Forests {
  import opened Wrappers
  import opened ChildMaps
  import opened DiffNodes
  import opened NodeQueries
  import opened Subtrees
  import opened Traversal

  /** Why addChild refuses a node. */
  datatype Reason = RootAsChild | SelfAsChild | AlreadyChildOfAnother | WouldCycle

  /** The exceptions the mutators throw. */
  datatype Error = IllegalArgument(reason: Reason) | IllegalState

  /**
   * `setParentNode(p)`: the parent can be set while there is none, and set again
   * only to the same value.
   */
  function SetParentSpec(h: Heap, n: NodeId, p: Option<NodeId>): (r: Result<Heap, Error>)
    requires n in h
    ensures r.Err? ==> r.error == IllegalState && h[n].parent.Some? && h[n].parent != p
    ensures r.Ok? ==> r.value.Keys == h.Keys && r.value[n] == h[n].(parent := p)
    ensures r.Ok? ==> forall m :: m in h && m != n ==> r.value[m] == h[m]
    ensures r.Ok? && h[n].parent.Some? ==> r.value == h
  {
    if h[n].parent.Some? && h[n].parent != p then Err(IllegalState)
    else Ok(h[n := h[n].(parent := p)])
  }

  /**
   * Attaching a parentless node under a node outside its subtree keeps the heap
   * valid: shifting the ranks of n's whole subtree past p's rank orders every
   * node after its parent again.
   */
  lemma {:induction false} AttachParentKeepsValid(h: Heap, n: NodeId, p: NodeId)
    requires Valid(h) && n in h && p in h && h[n].parent.None? && n !in Chain(h, p)
    ensures Valid(h[n := h[n].(parent := Some(p))])
  {
    var h' := h[n := h[n].(parent := Some(p))];
    forall m, i | m in h' && 0 <= i < |h'[m].children|
      ensures var c := h'[m].children[i].child;
        c in h' && h'[c].parent == Some(m) && SelectorOf(h'[c].accessor) == h'[m].children[i].key
    {
      assert h'[m].children == h[m].children;
    }
    assert WellFormed(h');
    var r := RankOf(h);
    var r' := map m | m in h :: if n in Chain(h, m) then r[m] + r[p] + 1 else r[m];
    forall m | m in h' && h'[m].parent.Some? && h'[m].parent.value in r'
      ensures r'[h'[m].parent.value] < r'[m]
    {
      if m != n {
        var q := h[m].parent.value;
        assert Chain(h, m) == Chain(h, q) + [m];
      }
    }
    assert Ranked(h', r');
  }

  /** Storing a node whose parent is p in p's child map keeps the heap valid. */
  lemma {:induction false} PutChildKeepsValid(h: Heap, p: NodeId, c: NodeId)
    requires Valid(h) && p in h && c in h && h[c].parent == Some(p)
    ensures Valid(h[p := h[p].(children := Put(h[p].children, SelectorOf(h[c].accessor), c))])
  {
    var m := h[p].children;
    var h' := h[p := h[p].(children := Put(m, SelectorOf(h[c].accessor), c))];
    forall x, i | x in h' && 0 <= i < |h'[x].children|
      ensures var d := h'[x].children[i].child;
        d in h' && h'[d].parent == Some(x) && SelectorOf(h'[d].accessor) == h'[x].children[i].key
    {
      if x != p {
        assert h'[x].children == h[x].children;
      } else if i < |m| && m[i].key != SelectorOf(h[c].accessor) {
        assert h'[x].children[i] == m[i];
      }
    }
    assert WellFormed(h');
    assert Ranked(h', RankOf(h));
  }

  /** Changing only a node's state, value type or circle-start fields keeps the heap valid. */
  lemma {:induction false} FieldUpdateKeepsValid(h: Heap, n: NodeId, node: Node)
    requires Valid(h) && n in h
    requires node.accessor == h[n].accessor && node.parent == h[n].parent && node.children == h[n].children
    requires node.circleStartNode.Some? ==> node.circleStartNode.value in h
    ensures Valid(h[n := node])
  {
    var h' := h[n := node];
    forall m, i | m in h' && 0 <= i < |h'[m].children|
      ensures var c := h'[m].children[i].child;
        c in h' && h'[c].parent == Some(m) && SelectorOf(h'[c].accessor) == h'[m].children[i].key
    {
      assert h'[m].children == h[m].children;
    }
    assert WellFormed(h');
    assert Ranked(h', RankOf(h));
  }

  /**
   * The part of addChild(c) on p that registers c: p becomes c's parent if c
   * has none, and c is stored under its selector in p's child map. Nothing
   * else changes.
   */
  function Attach(h: Heap, p: NodeId, c: NodeId): (r: Heap)
    requires Valid(h) && p in h && c in h && c != p && !IsAncestor(h, c, p)
    requires h[c].parent.None? || h[c].parent == Some(p)
    ensures Valid(r) && r.Keys == h.Keys
    ensures r[c] == h[c].(parent := Some(p))
    ensures r[p] == h[p].(children := Put(h[p].children, GetElementSelector(h, c), c))
    ensures forall m :: m in h && m != p && m != c ==> r[m] == h[m]
  {
    var h1 := if h[c].parent.None? then SetParentSpec(h, c, Some(p)).value else h;
    assert Valid(h1) by {
      if h[c].parent.None? { AttachParentKeepsValid(h, c, p); }
    }
    PutChildKeepsValid(h1, p, c);
    var h2 := h1[p := h1[p].(children := Put(h1[p].children, GetElementSelector(h1, c), c))];
    assert h1.Keys == h.Keys && h2.Keys == h1.Keys by {
      UpdateKeepsKeys(h, c, h[c].(parent := Some(p)));
      UpdateKeepsKeys(h1, p, h1[p].(children := Put(h1[p].children, GetElementSelector(h1, c), c)));
    }
    h2
  }

  /** Overwriting a present key keeps the key set. */
  lemma UpdateKeepsKeys(h: Heap, k: NodeId, v: Node)
    requires k in h
    ensures h[k := v].Keys == h.Keys
  {
  }

  /** Attach is the parent link followed by one put into p's child map. */
  lemma AttachStoresUnderSelector(h: Heap, h1: Heap, p: NodeId, c: NodeId)
    requires Valid(h) && p in h && c in h && c != p && !IsAncestor(h, c, p)
    requires h[c].parent.None? || h[c].parent == Some(p)
    requires h1 == if h[c].parent.None? then SetParentSpec(h, c, Some(p)).value else h
    ensures p in h1 && c in h1 && h1[c].parent == Some(p)
    ensures Attach(h, p, c) == h1[p := h1[p].(children := Put(h1[p].children, GetElementSelector(h1, c), c))]
  {
  }

  /** Attaching c changes nothing below c but c's parent. */
  lemma AttachKeepsSubtree(h: Heap, p: NodeId, c: NodeId)
    requires Valid(h) && p in h && c in h && c != p && !IsAncestor(h, c, p)
    requires h[c].parent.None? || h[c].parent == Some(p)
    ensures SameBelow(h, Attach(h, p, c), c)
  {
    var h' := Attach(h, p, c);
    forall m | m in h && Under(h, c, m)
      ensures m in h' && h'[m].state == h[m].state && h'[m].children == h[m].children
    {
      assert m != p;
    }
  }

  /** p's state after addChild(c): UNTOUCHED turns CHANGED when c has changes. */
  function PromotedState(s: State, childChanged: bool): (r: State)
    ensures r == s || (s == UNTOUCHED && childChanged && r == CHANGED)
    ensures childChanged && s != UNTOUCHED ==> r == s
    ensures childChanged ==> r != UNTOUCHED
  {
    if s == UNTOUCHED && childChanged then CHANGED else s
  }

  /**
   * The successful part of addChild(c) on p: attach c, then promote p from
   * UNTOUCHED to CHANGED when c has changes.
   */
  function AttachAndPromote(h: Heap, p: NodeId, c: NodeId): (r: Heap)
    requires Valid(h) && p in h && c in h && c != p && !IsAncestor(h, c, p)
    requires h[c].parent.None? || h[c].parent == Some(p)
    ensures Valid(r) && r.Keys == h.Keys
  {
    var h2 := Attach(h, p, c);
    var st := PromotedState(h2[p].state, Changed(h2, c));
    FieldUpdateKeepsValid(h2, p, h2[p].(state := st));
    h2[p := h2[p].(state := st)]
  }

  /** addChild(c) on p makes p c's parent and changes nothing else of c. */
  lemma AttachAndPromoteChild(h: Heap, p: NodeId, c: NodeId)
    requires Valid(h) && p in h && c in h && c != p && !IsAncestor(h, c, p)
    requires h[c].parent.None? || h[c].parent == Some(p)
    ensures AttachAndPromote(h, p, c)[c] == h[c].(parent := Some(p))
  {
  }

  /**
   * addChild(c) on p stores c in p's child map under its selector and promotes
   * p's state exactly when c had changes before the call.
   */
  lemma {:induction false} AttachAndPromoteParent(h: Heap, p: NodeId, c: NodeId)
    requires Valid(h) && p in h && c in h && c != p && !IsAncestor(h, c, p)
    requires h[c].parent.None? || h[c].parent == Some(p)
    ensures AttachAndPromote(h, p, c)[p] == h[p].(children := Put(h[p].children, GetElementSelector(h, c), c),
                                                  state := PromotedState(h[p].state, Changed(h, c)))
  {
    var h2 := Attach(h, p, c);
    AttachKeepsSubtree(h, p, c);
    SubtreeFrame(h, h2, c);
  }

  /** addChild(c) on p leaves every node other than p and c as it was. */
  lemma AttachAndPromoteOthers(h: Heap, p: NodeId, c: NodeId)
    requires Valid(h) && p in h && c in h && c != p && !IsAncestor(h, c, p)
    requires h[c].parent.None? || h[c].parent == Some(p)
    ensures forall m :: m in h && m != p && m != c ==> AttachAndPromote(h, p, c)[m] == h[m]
  {
  }

  /**
   * The one demand the model makes of an addChild(c) call on p: when c would
   * actually get p as its new parent (c has none and is no root), c must not
   * lie above p. The code does not check this; a call that breaks it would
   * make the parent relation cyclic.
   */
  ghost predicate NoCycleOnAttach(h: Heap, p: NodeId, c: NodeId)
    requires Valid(h) && p in h && c in h
  {
    h[c].parent.None? && !h[c].accessor.RootAccessor? ==> !IsAncestor(h, c, p)
  }

  /** Whenever addChild succeeds, c does not lie above p. */
  lemma {:induction false} AddChildNotAbove(h: Heap, p: NodeId, c: NodeId)
    requires Valid(h) && p in h && c in h && NoCycleOnAttach(h, p, c)
    requires !h[c].accessor.RootAccessor? && (h[c].parent.None? || h[c].parent == Some(p))
    ensures !IsAncestor(h, c, p)
  {
    if h[c].parent.Some? {
      ParentNotBelowChild(h, p, c);
    }
  }

  /**
   * `addChild(c)` on p: refuse a root node, p itself, or a node that already
   * has another parent, in that order; otherwise attach and promote. The
   * answer is always true.
   */
  function AddChildSpec(h: Heap, p: NodeId, c: NodeId): (r: Result<Heap, Error>)
    requires Valid(h) && p in h && c in h && NoCycleOnAttach(h, p, c)
    ensures r.Err? <==> h[c].accessor.RootAccessor? || c == p || (h[c].parent.Some? && h[c].parent != Some(p))
    ensures r.Err? ==> r.error.IllegalArgument?
    ensures r.Ok? ==> Valid(r.value) && r.value.Keys == h.Keys
    ensures r.Ok? ==> r.value[c] == h[c].(parent := Some(p))
    ensures r.Ok? ==> r.value[p] == h[p].(children := Put(h[p].children, GetElementSelector(h, c), c),
                                         state := PromotedState(h[p].state, Changed(h, c)))
    ensures r.Ok? ==> forall m :: m in h && m != p && m != c ==> r.value[m] == h[m]
  {
    if h[c].accessor.RootAccessor? then Err(IllegalArgument(RootAsChild))
    else if c == p then Err(IllegalArgument(SelfAsChild))
    else if h[c].parent.Some? && h[c].parent != Some(p) then Err(IllegalArgument(AlreadyChildOfAnother))
    else
      AddChildNotAbove(h, p, c);
      AttachAndPromoteChild(h, p, c);
      AttachAndPromoteParent(h, p, c);
      AttachAndPromoteOthers(h, p, c);
      Ok(AttachAndPromote(h, p, c))
  }

  /** A root node is refused whatever its place relative to p. */
  lemma AddRootAsChildFails(h: Heap, p: NodeId, c: NodeId)
    requires Valid(h) && p in h && c in h && h[c].accessor.RootAccessor?
    ensures NoCycleOnAttach(h, p, c)
    ensures AddChildSpec(h, p, c) == Err(IllegalArgument(RootAsChild))
  {
  }

  /** A non-root node that already has another parent is refused, even when it lies above p. */
  lemma AddOtherParentsChildFails(h: Heap, p: NodeId, c: NodeId)
    requires Valid(h) && p in h && c in h && c != p && !h[c].accessor.RootAccessor?
    requires h[c].parent.Some? && h[c].parent != Some(p)
    ensures NoCycleOnAttach(h, p, c)
    ensures AddChildSpec(h, p, c) == Err(IllegalArgument(AlreadyChildOfAnother))
  {
  }

  /** Node 0, a parentless item node, above its child 1. */
  function CycleWitness(): (h: Heap)
    ensures 0 in h && 1 in h && h[0].parent.None? && h[1].parent == Some(0)
  {
    map[0 := Node(ElementAccessor(ItemSelector(0), None, None, None), UNTOUCHED, None,
                  [Entry(ItemSelector(1), 1)], None, None, None),
        1 := Node(ElementAccessor(ItemSelector(1), None, None, None), UNTOUCHED, Some(0),
                  [], None, None, None)]
  }

  /**
   * The three checks of addChild let a cycle through: `1.addChild(0)` asks to
   * hang 0 below its own child. Node 0 is no root node, is not the receiver
   * and has no parent, so every check passes, and the setParentNode that
   * follows makes 0 and 1 each other's parent.
   */
  lemma {:induction false} GuardsAdmitCycle()
    ensures var h := CycleWitness(); var c := h[0];
      && Valid(h)
      && !c.accessor.RootAccessor? && 0 != 1 && !(c.parent.Some? && c.parent != Some(1))
      && IsAncestor(h, 0, 1)
      && SetParentSpec(h, 0, Some(1)).Ok?
      && !Acyclic(SetParentSpec(h, 0, Some(1)).value)
  {
    var h := CycleWitness();
    forall n, i | n in h && 0 <= i < |h[n].children|
      ensures var c := h[n].children[i].child;
        c in h && h[c].parent == Some(n) && SelectorOf(h[c].accessor) == h[n].children[i].key
    {
      assert n == 0;
    }
    assert WellFormed(h);
    assert Ranked(h, map[0 := 0, 1 := 1]);
    assert Chain(h, 1) == Chain(h, 0) + [1] == [0, 1];
    var h' := SetParentSpec(h, 0, Some(1)).value;
    assert h'[0].parent == Some(1) && h'[1].parent == Some(0);
    forall rank ensures !Ranked(h', rank) {
      if h'.Keys <= rank.Keys {
        assert !(rank[1] < rank[0] && rank[0] < rank[1]);
      }
    }
  }

  /**
   * addChild with the check its exception messages call for (DiffNode.java:276-277 and
   * 281-283): a parentless node that lies above the receiver is refused too.
   * Wherever that check passes it is the code's addChild, and every heap it
   * returns is still acyclic.
   */
  ghost function CheckedAddChildSpec(h: Heap, p: NodeId, c: NodeId): (r: Result<Heap, Error>)
    requires Valid(h) && p in h && c in h
    ensures r.Err? <==> || h[c].accessor.RootAccessor? || c == p
                        || (h[c].parent.Some? && h[c].parent != Some(p))
                        || (h[c].parent.None? && IsAncestor(h, c, p))
    ensures r.Ok? ==> Valid(r.value) && r.value.Keys == h.Keys && r.value[c].parent == Some(p)
    ensures NoCycleOnAttach(h, p, c) ==> r == AddChildSpec(h, p, c)
  {
    if NoCycleOnAttach(h, p, c) then AddChildSpec(h, p, c) else Err(IllegalArgument(WouldCycle))
  }

  /**
   * A successful addChild makes c p's child under c's selector and leaves
   * every other selector of p as it was.
   */
  lemma {:induction false} AddChildRegisters(h: Heap, p: NodeId, c: NodeId, s: Selector)
    requires Valid(h) && p in h && c in h && NoCycleOnAttach(h, p, c)
    requires AddChildSpec(h, p, c).Ok?
    ensures GetChild(AddChildSpec(h, p, c).value, p, GetElementSelector(h, c)) == Some(c)
    ensures s != GetElementSelector(h, c) ==> GetChild(AddChildSpec(h, p, c).value, p, s) == GetChild(h, p, s)
  {
    LookupAfterPut(h[p].children, GetElementSelector(h, c), c, s);
    LookupAfterPut(h[p].children, GetElementSelector(h, c), c, GetElementSelector(h, c));
  }

  /** The nodes below c keep their states and child maps through addChild(c). */
  lemma {:induction false} AddChildKeepsSubtree(h: Heap, p: NodeId, c: NodeId)
    requires Valid(h) && p in h && c in h && NoCycleOnAttach(h, p, c)
    requires AddChildSpec(h, p, c).Ok?
    ensures SameBelow(h, AddChildSpec(h, p, c).value, c)
  {
    AddChildNotAbove(h, p, c);
    OnlyParentChangedKeepsSubtree(h, AddChildSpec(h, p, c).value, p, c);
  }

  /** A heap that differs from h only at p, and at c only in c's parent, agrees with h below c. */
  lemma OnlyParentChangedKeepsSubtree(h: Heap, h': Heap, p: NodeId, c: NodeId)
    requires Valid(h) && p in h && c in h && c != p && !IsAncestor(h, c, p)
    requires h'.Keys == h.Keys && h'[c] == h[c].(parent := h'[c].parent)
    requires forall m :: m in h && m != p && m != c ==> h'[m] == h[m]
    ensures SameBelow(h, h', c)
  {
    forall m | m in h && Under(h, c, m)
      ensures m in h' && h'[m].state == h[m].state && h'[m].children == h[m].children
    {
      assert m != p;
    }
  }

  /**
   * Change status flows upward: after addChild(c), c has changes exactly when it
   * had them before, and if it has them p has them too.
   */
  lemma {:induction false} AddChildPropagatesChange(h: Heap, p: NodeId, c: NodeId)
    requires Valid(h) && p in h && c in h && NoCycleOnAttach(h, p, c)
    requires AddChildSpec(h, p, c).Ok?
    ensures Changed(AddChildSpec(h, p, c).value, c) == Changed(h, c)
    ensures Changed(h, c) ==> Changed(AddChildSpec(h, p, c).value, p)
  {
    var h' := AddChildSpec(h, p, c).value;
    AddChildKeepsSubtree(h, p, c);
    SubtreeFrame(h, h', c);
    if Changed(h, c) && !IsChange(h'[p].state) {
      AddChildRegisters(h, p, c, GetElementSelector(h, c));
      var m := h'[p].children;
      var e :| e in m && e.key == GetElementSelector(h, c);
      var k :| 0 <= k < |m| && m[k] == e;
      assert ChildAt(h', p, k) == c;
      ChangedChildCounts(h', p, 0, k);
    }
  }

  lemma SameNodesSameHeap(a: Heap, b: Heap, p: NodeId, c: NodeId)
    requires a.Keys == b.Keys && p in a && c in a && a[p] == b[p] && a[c] == b[c]
    requires forall m :: m in a && m != p && m != c ==> a[m] == b[m]
    ensures a == b
  {
  }

  /** Adding the same child twice is the same as adding it once. */
  lemma {:induction false} AddChildTwice(h: Heap, p: NodeId, c: NodeId)
    requires Valid(h) && p in h && c in h && NoCycleOnAttach(h, p, c)
    requires AddChildSpec(h, p, c).Ok?
    ensures !IsAncestor(AddChildSpec(h, p, c).value, c, p)
    ensures AddChildSpec(AddChildSpec(h, p, c).value, p, c) == AddChildSpec(h, p, c)
  {
    var h' := AddChildSpec(h, p, c).value;
    ParentNotBelowChild(h', p, c);
    var r := AddChildSpec(h', p, c);
    assert r.Ok?;
    var h'' := r.value;
    var s := GetElementSelector(h, c);
    assert GetElementSelector(h', c) == s;
    PutTwice(h[p].children, s, c);
    AddChildPropagatesChange(h, p, c);
    assert h''[p] == h'[p];
    assert h''[c] == h'[c];
    SameNodesSameHeap(h'', h', p, c);
  }

  /**
   * The heap of DiffNode objects. `nodes` holds every node ever made; `next` is
   * the reference the next constructed node gets.
   */
  class Forest {
    var nodes: Heap
    var next: NodeId

    ghost predicate Valid()
      reads this
    {
      DiffNodes.Valid(nodes) && forall n :: n in nodes ==> n < next
    }

    constructor()
      ensures Valid() && nodes == map[]
    {
      nodes := map[];
      next := 0;
      new;
      assert Ranked(nodes, map[]);
    }

    /**
     * `new DiffNode(parent, accessor, valueType)`: an UNTOUCHED node without
     * children whose parent is set but which is not yet in the parent's child
     * map. The parent is absent for the root constructors.
     */
    method NewNode(parent: Option<NodeId>, accessor: Accessor, valueType: Option<TypeName>) returns (n: NodeId)
      requires Valid() && (parent.Some? ==> parent.value in nodes)
      modifies this
      ensures Valid()
      ensures n !in old(nodes) && next == old(next) + 1
      ensures nodes == old(nodes)[n := Node(accessor, UNTOUCHED, parent, [], valueType, None, None)]
    {
      n := next;
      ghost var r := RankOf(nodes);
      ghost var rn: nat := if parent.Some? then r[parent.value] + 1 else 0;
      // setParentNode on a node whose parent is still null always succeeds
      nodes := nodes[n := Node(accessor, UNTOUCHED, parent, [], valueType, None, None)];
      assert Ranked(nodes, r[n := rn]);
      next := next + 1;
    }

    /** `setState(s)`. */
    method SetState(n: NodeId, s: State)
      requires Valid() && n in nodes
      modifies this
      ensures Valid() && next == old(next)
      ensures nodes == old(nodes)[n := old(nodes)[n].(state := s)]
    {
      FieldUpdateKeepsValid(nodes, n, nodes[n].(state := s));
      nodes := nodes[n := nodes[n].(state := s)];
    }

    /** `setType(t)`: the explicit value type. */
    method SetType(n: NodeId, t: Option<TypeName>)
      requires Valid() && n in nodes
      modifies this
      ensures Valid() && next == old(next)
      ensures nodes == old(nodes)[n := old(nodes)[n].(valueType := t)]
    {
      FieldUpdateKeepsValid(nodes, n, nodes[n].(valueType := t));
      nodes := nodes[n := nodes[n].(valueType := t)];
    }

    /** `setCircleStartPath(path)`. */
    method SetCircleStartPath(n: NodeId, path: Option<NodePath>)
      requires Valid() && n in nodes
      modifies this
      ensures Valid() && next == old(next)
      ensures nodes == old(nodes)[n := old(nodes)[n].(circleStartPath := path)]
    {
      FieldUpdateKeepsValid(nodes, n, nodes[n].(circleStartPath := path));
      nodes := nodes[n := nodes[n].(circleStartPath := path)];
    }

    /** `setCircleStartNode(m)`. */
    method SetCircleStartNode(n: NodeId, m: Option<NodeId>)
      requires Valid() && n in nodes && (m.Some? ==> m.value in nodes)
      modifies this
      ensures Valid() && next == old(next)
      ensures nodes == old(nodes)[n := old(nodes)[n].(circleStartNode := m)]
    {
      FieldUpdateKeepsValid(nodes, n, nodes[n].(circleStartNode := m));
      nodes := nodes[n := nodes[n].(circleStartNode := m)];
    }

    /**
     * `setParentNode(p)`: write-once. Attaching n under p must not put n
     * above itself.
     */
    method SetParentNode(n: NodeId, p: Option<NodeId>) returns (r: Outcome<Error>)
      requires Valid() && n in nodes && (p.Some? ==> p.value in nodes)
      requires nodes[n].parent.None? && p.Some? ==> n !in Chain(nodes, p.value)
      modifies this
      ensures Valid() && next == old(next)
      ensures SetParentSpec(old(nodes), n, p).Ok? ==> r.Pass? && nodes == SetParentSpec(old(nodes), n, p).value
      ensures SetParentSpec(old(nodes), n, p).Err? ==> r == Fail(SetParentSpec(old(nodes), n, p).error) && nodes == old(nodes)
    {
      if nodes[n].parent.Some? && nodes[n].parent != p {
        return Fail(IllegalState);
      }
      if p.Some? && nodes[n].parent.None? {
        AttachParentKeepsValid(nodes, n, p.value);
      } else {
        assert nodes[n := nodes[n].(parent := p)] == nodes;
      }
      nodes := nodes[n := nodes[n].(parent := p)];
      r := Pass;
    }

    /**
     * The registering part of `addChild(c)` on p: set c's parent if it has
     * none, then store c under its selector in p's child map.
     */
    method AttachChild(p: NodeId, c: NodeId)
      requires Valid() && p in nodes && c in nodes && c != p && !IsAncestor(nodes, c, p)
      requires nodes[c].parent.None? || nodes[c].parent == Some(p)
      modifies this
      ensures Valid() && next == old(next)
      ensures nodes == Attach(old(nodes), p, c)
    {
      ghost var h := nodes;
      if nodes[c].parent.None? {
        var outcome := SetParentNode(c, Some(p));
      }
      AttachStoresUnderSelector(h, nodes, p, c);
      PutChild(p, c);
    }

    /** `children.put(selector, c)` on p: c is stored under its own selector. */
    method PutChild(p: NodeId, c: NodeId)
      requires Valid() && p in nodes && c in nodes && nodes[c].parent == Some(p)
      modifies this
      ensures Valid() && next == old(next)
      ensures nodes == old(nodes)[p := old(nodes)[p].(children := Put(old(nodes)[p].children, GetElementSelector(old(nodes), c), c))]
    {
      PutChildKeepsValid(nodes, p, c);
      nodes := nodes[p := nodes[p].(children := Put(nodes[p].children, GetElementSelector(nodes, c), c))];
    }

    /** `addChild(c)` on p. */
    method AddChild(p: NodeId, c: NodeId) returns (r: Result<bool, Error>)
      requires Valid() && p in nodes && c in nodes && NoCycleOnAttach(nodes, p, c)
      modifies this
      ensures Valid() && next == old(next)
      ensures AddChildSpec(old(nodes), p, c).Ok? ==> r == Ok(true) && nodes == AddChildSpec(old(nodes), p, c).value
      ensures AddChildSpec(old(nodes), p, c).Err? ==> r == Err(AddChildSpec(old(nodes), p, c).error) && nodes == old(nodes)
    {
      if nodes[c].accessor.RootAccessor? {
        return Err(IllegalArgument(RootAsChild));
      } else if c == p {
        return Err(IllegalArgument(SelfAsChild));
      } else if nodes[c].parent.Some? && nodes[c].parent != Some(p) {
        return Err(IllegalArgument(AlreadyChildOfAnother));
      }
      ghost var h := nodes;
      AddChildNotAbove(nodes, p, c);
      AttachChild(p, c);
      var changed := HasChanges(c);
      PromoteParent(p, changed);
      assert nodes == AttachAndPromote(h, p, c);
      r := Ok(true);
    }

    /** The tail of `addChild`: p turns CHANGED when it was UNTOUCHED and the new child has changes. */
    method PromoteParent(p: NodeId, changed: bool)
      requires Valid() && p in nodes
      modifies this
      ensures Valid() && next == old(next)
      ensures nodes == old(nodes)[p := old(nodes)[p].(state := PromotedState(old(nodes)[p].state, changed))]
    {
      if nodes[p].state == UNTOUCHED && changed {
        FieldUpdateKeepsValid(nodes, p, nodes[p].(state := CHANGED));
        nodes := nodes[p := nodes[p].(state := CHANGED)];
      } else {
        assert nodes == nodes[p := nodes[p].(state := PromotedState(nodes[p].state, changed))];
      }
    }

    /**
     * `hasChanges()`: true at once for ADDED, CHANGED and REMOVED; otherwise
     * the answer of a visitor run over the children that records a child with
     * changes and stops.
     */
    method HasChanges(n: NodeId) returns (b: bool)
      requires Valid() && n in nodes
      ensures b == Changed(nodes, n)
    {
      if IsChange(nodes[n].state) {
        return true;
      }
      var w := VisitChildren(n, ChangeDetector(nodes), false);
      DetectorFindsChildChange(nodes, n, 0, false);
      b := w.state;
    }

    /**
     * `getChild(NodePath)`: runs the path-matching visitor over n's children
     * and returns the node it recorded. It finds one exactly when some node
     * strictly below n has that path, and what it finds has it.
     */
    method GetChildByPath(n: NodeId, path: NodePath) returns (r: Option<NodeId>)
      requires Valid() && n in nodes
      ensures r.Some? ==> r.value in nodes && IsAncestor(nodes, n, r.value) && GetPath(nodes, r.value) == path
      ensures r.Some? ==> SomeAtPath(nodes, PreOrderFrom(nodes, n, 0), path)
      ensures SomeAtPath(nodes, PreOrderFrom(nodes, n, 0), path) ==> r.Some?
    {
      var w := VisitChildren(n, PathFinder(nodes, path), None);
      PathFinderFindsBelow(nodes, n, 0, path, None);
      r := w.state;
    }

    /** `visit(visitor)`: a fresh Visit; a stop is caught here. */
    method Visit<S(!new)>(n: NodeId, accept: Visitor<S>, s: S) returns (w: Walk<S>)
      requires Valid() && n in nodes && Accepts(nodes, accept)
      ensures w == VisitSpec(nodes, n, accept, s)
      decreases Above(nodes, n), 2
    {
      var stopped;
      w, stopped := VisitWith(n, FreshVisit, accept, s);
    }

    /** `visit(visitor, visit)`: returns whether the walk stopped. */
    method VisitWith<S(!new)>(n: NodeId, v: Traversal.Visit, accept: Visitor<S>, s: S) returns (w: Walk<S>, stopped: bool)
      requires Valid() && n in nodes && Accepts(nodes, accept)
      ensures (w, stopped) == VisitWithSpec(nodes, n, v, accept, s)
      decreases Above(nodes, n), 1
    {
      var (s1, v1) := accept(s, n, v);
      var call := Call(n, v, v1);
      if v1.allowedToGoDeeper && |nodes[n].children| > 0 {
        var below := VisitChildren(n, accept, s1);
        w := Walk(below.state, [call] + below.calls);
      } else {
        w := Walk(s1, [call]);
      }
      stopped := v1.stopped;
    }

    /** `visitChildren(visitor)`: each child in insertion order. */
    method VisitChildren<S(!new)>(n: NodeId, accept: Visitor<S>, s: S) returns (w: Walk<S>)
      requires Valid() && n in nodes && Accepts(nodes, accept)
      ensures w == VisitChildrenSpec(nodes, n, 0, accept, s)
      decreases Above(nodes, n), 0
    {
      var children := Values(nodes[n].children);
      var i := 0;
      var state := s;
      var calls := [];
      while i < |children|
        invariant i <= |children| == |nodes[n].children|
        invariant VisitChildrenSpec(nodes, n, 0, accept, s) ==
          Walk(VisitChildrenSpec(nodes, n, i, accept, state).state,
               calls + VisitChildrenSpec(nodes, n, i, accept, state).calls)
        decreases |nodes[n].children| - i
      {
        var c := children[i];
        assert c == ChildAt(nodes, n, i);
        var cw := Visit(c, accept, state);
        ghost var rest := VisitChildrenSpec(nodes, n, i + 1, accept, cw.state);
        assert VisitChildrenSpec(nodes, n, i, accept, state) == Walk(rest.state, cw.calls + rest.calls);
        assert (calls + cw.calls) + rest.calls == calls + (cw.calls + rest.calls);
        calls := calls + cw.calls;
        state := cw.state;
        i := i + 1;
      }
      w := Walk(state, calls);
    }
  }
}
