/**
 * The diff node's data model (DiffNode.java): its state, the accessor it is
 * reached through, and the heap of nodes with the invariants every operation keeps.
 */
module DiffNodes {
  import opened Wrappers
  import opened ChildMaps

  /** DiffNode.State. The `is*` predicates of the node are this type's discriminators. */
  datatype State = ADDED | CHANGED | REMOVED | UNTOUCHED | CIRCULAR | IGNORED

  /** The three states `hasChanges` looks for. */
  predicate IsChange(s: State) {
    s.ADDED? || s.CHANGED? || s.REMOVED?
  }

  /** A value type (Java's Class<?>), known by its name. */
  type TypeName = string

  /**
   * Identifies a node among its siblings: the root, a bean property by name,
   * or a collection item, map entry or array element by an opaque key.
   */
  datatype Selector = RootSelector | PropertySelector(name: string) | ItemSelector(key: nat)

  /** A path of selectors from the root; the root's own path is the empty one. */
  type NodePath = seq<Selector>

  const RootPath: NodePath := []

  /**
   * The accessor a node reads and writes its value through. `RootAccessor` is the
   * distinguished root accessor. Every other accessor carries its selector and the
   * optional capabilities the node asks for: a property name (a property-aware
   * accessor), a declared type (a type-aware accessor that knows its type) and
   * categories (a category-aware accessor that returned a non-null set).
   */
  datatype Accessor =
    | RootAccessor
    | ElementAccessor(selector: Selector, propertyName: Option<string>,
                      declaredType: Option<TypeName>, categories: Option<set<string>>)

  /** `accessor.getElementSelector()`. */
  function SelectorOf(a: Accessor): (s: Selector) {
    if a.RootAccessor? then RootSelector else a.selector
  }

  /** `accessor instanceof PropertyAwareAccessor`. */
  predicate IsPropertyAware(a: Accessor) {
    a.ElementAccessor? && a.propertyName.Some?
  }

  /** The categories the accessor itself contributes; none when it has none to give. */
  function OwnCategories(a: Accessor): (cats: set<string>) {
    if a.ElementAccessor? && a.categories.Some? then a.categories.value else {}
  }

  /** A reference to a DiffNode object. */
  type NodeId = nat

  /** The fields of one DiffNode object. */
  datatype Node = Node(
    accessor: Accessor,
    state: State,
    parent: Option<NodeId>,
    children: ChildMap<Selector, NodeId>,
    valueType: Option<TypeName>,
    circleStartPath: Option<NodePath>,
    circleStartNode: Option<NodeId>)

  /** All DiffNode objects alive, by reference. */
  type Heap = map<NodeId, Node>

  /**
   * What every reachable state of the heap satisfies: references point to nodes
   * that exist, child maps are maps, and a child in a node's map has that node as
   * its parent and is stored under its own selector. (The converse does not hold:
   * a node constructed with a parent is not in the parent's map until it is added,
   * and a child replaced under the same selector keeps its parent.)
   */
  ghost predicate WellFormed(h: Heap) {
    && (forall n :: n in h && h[n].parent.Some? ==> h[n].parent.value in h)
    && (forall n :: n in h && h[n].circleStartNode.Some? ==> h[n].circleStartNode.value in h)
    && (forall n {:trigger h[n]} :: n in h ==> DistinctKeys(h[n].children))
    && (forall n, i :: n in h && 0 <= i < |h[n].children| ==>
          var c := h[n].children[i].child;
          && c in h
          && h[c].parent == Some(n)
          && SelectorOf(h[c].accessor) == h[n].children[i].key)
  }

  /** `rank` orders every node after its parent. */
  ghost predicate Ranked(h: Heap, rank: map<NodeId, nat>) {
    && h.Keys <= rank.Keys
    && forall n {:trigger h[n]} :: n in h && h[n].parent.Some? && h[n].parent.value in rank ==>
         rank[h[n].parent.value] < rank[n]
  }

  /** The parent relation has no cycle: some rank orders every node after its parent. */
  ghost predicate Acyclic(h: Heap) {
    exists rank :: Ranked(h, rank)
  }

  ghost predicate Valid(h: Heap) {
    WellFormed(h) && Acyclic(h)
  }

  /** One rank that witnesses acyclicity, chosen once per heap. */
  ghost function RankOf(h: Heap): (rank: map<NodeId, nat>)
    requires Acyclic(h)
    ensures Ranked(h, rank)
  {
    var rank :| Ranked(h, rank); rank
  }

  ghost function Rank(h: Heap, n: NodeId): (r: nat)
    requires Acyclic(h) && n in h
  {
    RankOf(h)[n]
  }

  /** The nodes ranked at or after `n`: a measure that shrinks from a node to its children. */
  ghost function Above(h: Heap, n: NodeId): (ns: set<NodeId>)
    requires Acyclic(h) && n in h
  {
    set m | m in h && Rank(h, m) >= Rank(h, n)
  }

  lemma ParentRankedBefore(h: Heap, n: NodeId)
    requires Valid(h) && n in h && h[n].parent.Some?
    ensures h[n].parent.value in h && Rank(h, h[n].parent.value) < Rank(h, n)
  {
  }

  /** The measure of a child is strictly smaller than its parent's. */
  lemma {:induction false} ChildBelow(h: Heap, p: NodeId, c: NodeId)
    requires Valid(h) && p in h && c in h && h[c].parent == Some(p)
    ensures Above(h, c) < Above(h, p)
  {
    ParentRankedBefore(h, c);
    assert p in Above(h, p) && p !in Above(h, c);
  }

  /** The i-th child of n, and that it lies below n. */
  function ChildAt(h: Heap, n: NodeId, i: nat): (c: NodeId)
    requires Valid(h) && n in h && i < |h[n].children|
    ensures c in h && h[c].parent == Some(n) && Above(h, c) < Above(h, n)
  {
    var c := h[n].children[i].child;
    ChildBelow(h, n, c);
    c
  }

  /**
   * The ancestor chain of n, from the topmost ancestor down to n itself: each
   * element is the parent of the next and the first one has no parent.
   */
  ghost function Chain(h: Heap, n: NodeId): (c: seq<NodeId>)
    requires Valid(h) && n in h
    ensures |c| >= 1 && c[|c| - 1] == n
    ensures forall i :: 0 <= i < |c| ==> c[i] in h
    ensures h[c[0]].parent.None?
    ensures forall i :: 0 < i < |c| ==> h[c[i]].parent == Some(c[i - 1])
    decreases Rank(h, n)
  {
    match h[n].parent
    case None => [n]
    case Some(p) =>
      ParentRankedBefore(h, n);
      Chain(h, p) + [n]
  }

  /** `a` is a proper ancestor of `n`. */
  ghost predicate IsAncestor(h: Heap, a: NodeId, n: NodeId)
    requires Valid(h) && n in h
  {
    a in Chain(h, n) && a != n
  }

  /** The chain of any node on n's chain is a prefix of n's chain. */
  lemma {:induction false} ChainPrefix(h: Heap, n: NodeId, k: nat)
    requires Valid(h) && n in h && k < |Chain(h, n)|
    ensures Chain(h, Chain(h, n)[k]) == Chain(h, n)[..k + 1]
    decreases Rank(h, n)
  {
    var c := Chain(h, n);
    if k < |c| - 1 {
      var p := h[n].parent.value;
      ParentRankedBefore(h, n);
      assert c == Chain(h, p) + [n];
      ChainPrefix(h, p, k);
      assert Chain(h, p)[..k + 1] == c[..k + 1];
    }
  }

  /** Being on an ancestor chain is transitive. */
  lemma {:induction false} ChainTransitive(h: Heap, a: NodeId, b: NodeId, n: NodeId)
    requires Valid(h) && b in h && n in h
    requires a in Chain(h, b) && b in Chain(h, n)
    ensures a in Chain(h, n)
  {
    var k :| 0 <= k < |Chain(h, n)| && Chain(h, n)[k] == b;
    ChainPrefix(h, n, k);
  }

  /** A proper ancestor is ranked strictly before its descendant. */
  lemma {:induction false} AncestorRankedBefore(h: Heap, a: NodeId, n: NodeId)
    requires Valid(h) && n in h && IsAncestor(h, a, n)
    ensures a in h && Rank(h, a) < Rank(h, n)
    decreases Rank(h, n)
  {
    var p := h[n].parent.value;
    ParentRankedBefore(h, n);
    assert Chain(h, n) == Chain(h, p) + [n];
    if a != p {
      AncestorRankedBefore(h, a, p);
    }
  }

  /** A node never lies above its own parent. */
  lemma {:induction false} ParentNotBelowChild(h: Heap, p: NodeId, c: NodeId)
    requires Valid(h) && p in h && c in h && h[c].parent == Some(p)
    ensures c !in Chain(h, p)
  {
    ParentRankedBefore(h, c);
    if c in Chain(h, p) {
      AncestorRankedBefore(h, c, p);
    }
  }
}
