/**
 * The read-only queries of DiffNode.java that walk up the parent chain or look at
 * one node: getPath, getChild(selector), getValueType, getPropertyName,
 * getCategories, canonicalGet/Set/Unset, equals and hashCode.
 */
module NodeQueries {
  import opened Wrappers
  import opened ChildMaps
  import opened DiffNodes

  /** `getPath()`: the parent's path extended by this node's selector. */
  function GetPath(h: Heap, n: NodeId): (path: NodePath)
    requires Valid(h) && n in h
    decreases Rank(h, n)
  {
    match h[n].parent
    case Some(p) =>
      ParentRankedBefore(h, n);
      GetPath(h, p) + [SelectorOf(h[n].accessor)]
    case None =>
      if h[n].accessor.RootAccessor? then RootPath else [SelectorOf(h[n].accessor)]
  }

  /** The selectors of the chain below its top node, in order. */
  ghost function SelectorsBelowTop(h: Heap, c: seq<NodeId>): (r: NodePath)
    requires |c| >= 1 && forall i :: 0 <= i < |c| ==> c[i] in h
    ensures |r| == |c| - 1
  {
    seq(|c| - 1, i requires 0 <= i < |c| - 1 => SelectorOf(h[c[i + 1]].accessor))
  }

  /**
   * A node's path spelled out along its ancestor chain: the selectors of every
   * node from the topmost ancestor down to n, where a parentless root node
   * contributes nothing.
   */
  lemma {:induction false} PathAlongChain(h: Heap, n: NodeId)
    requires Valid(h) && n in h
    ensures var c := Chain(h, n);
      GetPath(h, n) ==
        (if h[c[0]].accessor.RootAccessor? then RootPath else [SelectorOf(h[c[0]].accessor)])
        + SelectorsBelowTop(h, c)
    decreases Rank(h, n)
  {
    match h[n].parent
    case None =>
    case Some(p) =>
      ParentRankedBefore(h, n);
      PathAlongChain(h, p);
      var c, cp := Chain(h, n), Chain(h, p);
      assert c == cp + [n];
      assert SelectorsBelowTop(h, c) == SelectorsBelowTop(h, cp) + [SelectorOf(h[n].accessor)];
  }

  /** `getElementSelector()`. */
  function GetElementSelector(h: Heap, n: NodeId): (s: Selector)
    requires n in h
  {
    SelectorOf(h[n].accessor)
  }

  /** `getChild(selector)`: a direct lookup in the child map. */
  function GetChild(h: Heap, n: NodeId, s: Selector): (r: Option<NodeId>)
    requires Valid(h) && n in h
    ensures r.Some? ==> r.value in h && h[r.value].parent == Some(n) && GetElementSelector(h, r.value) == s
  {
    var r := Lookup(h[n].children, s);
    if r.Some? then
      var i :| 0 <= i < |h[n].children| && h[n].children[i] == Entry(s, r.value);
      r
    else r
  }

  /** `childCount()`: one child per selector in the child map. */
  function ChildCount(h: Heap, n: NodeId): (r: nat)
    requires Valid(h) && n in h
    ensures r == |KeySet(h[n].children)|
  {
    SizeIsKeyCount(h[n].children);
    |h[n].children|
  }

  /** `hasChildren()`: some selector finds a child. */
  function HasChildren(h: Heap, n: NodeId): (r: bool)
    requires Valid(h) && n in h
    ensures r <==> KeySet(h[n].children) != {}
    ensures !r ==> forall s :: GetChild(h, n, s).None?
  {
    if |h[n].children| > 0 then
      assert h[n].children[0].key in KeySet(h[n].children);
      true
    else false
  }

  /** `getChild(propertyName)`: the lookup under a bean-property selector. */
  function GetPropertyChild(h: Heap, n: NodeId, propertyName: string): (r: Option<NodeId>)
    requires Valid(h) && n in h
    ensures r.Some? ==> r.value in h && GetElementSelector(h, r.value) == PropertySelector(propertyName)
  {
    GetChild(h, n, PropertySelector(propertyName))
  }

  /** Following `getChild(selector)` once per selector of `path`, starting at n. */
  function Descend(h: Heap, n: NodeId, path: NodePath): (r: Option<NodeId>)
    requires Valid(h) && n in h
    ensures r.Some? ==> r.value in h
    decreases |path|
  {
    if path == [] then Some(n)
    else match GetChild(h, n, path[0])
      case None => None
      case Some(c) => Descend(h, c, path[1..])
  }

  /**
   * Paths and child lookup agree: the node reached from n through the selectors of
   * `path` has n's path extended by `path` as its own path, so a node reached from
   * a parentless root node has exactly those selectors as its path.
   */
  lemma {:induction false} DescendYieldsPath(h: Heap, n: NodeId, path: NodePath)
    requires Valid(h) && n in h && Descend(h, n, path).Some?
    ensures GetPath(h, Descend(h, n, path).value) == GetPath(h, n) + path
    ensures h[n].parent.None? && h[n].accessor.RootAccessor? ==>
              GetPath(h, Descend(h, n, path).value) == path
    decreases |path|
  {
    if path != [] {
      var c := GetChild(h, n, path[0]).value;
      DescendYieldsPath(h, c, path[1..]);
      assert GetPath(h, c) == GetPath(h, n) + [path[0]];
      assert path == [path[0]] + path[1..];
    }
  }

  /** `getValueType()`: the explicitly set type if there is one, else the accessor's own. */
  function GetValueType(h: Heap, n: NodeId): (r: Option<TypeName>)
    requires n in h
  {
    if h[n].valueType.Some? then h[n].valueType
    else if h[n].accessor.ElementAccessor? then h[n].accessor.declaredType
    else None
  }

  /**
   * After `setType(t)` (the heap update `Forests.Forest.SetType` performs), an
   * explicitly set type wins over whatever the accessor reports, also when a
   * type-aware accessor knows its type (the doc comment of setType says the
   * opposite; the code decides). Other nodes keep their value types.
   */
  lemma ExplicitTypeWins(h: Heap, n: NodeId, t: TypeName)
    requires n in h
    ensures GetValueType(h[n := h[n].(valueType := Some(t))], n) == Some(t)
    ensures forall m :: m in h && m != n ==>
      GetValueType(h[n := h[n].(valueType := Some(t))], m) == GetValueType(h, m)
  {
  }

  /**
   * After `setType(null)`, getValueType falls back to the accessor: the type a
   * type-aware accessor knows, and None for the root accessor or an accessor
   * that reports no type.
   */
  lemma ClearedTypeFallsBack(h: Heap, n: NodeId)
    requires n in h
    ensures var r := GetValueType(h[n := h[n].(valueType := None)], n);
      && (h[n].accessor.ElementAccessor? ==> r == h[n].accessor.declaredType)
      && (h[n].accessor.RootAccessor? ==> r.None?)
      && (r.Some? <==> h[n].accessor.ElementAccessor? && h[n].accessor.declaredType.Some?)
  {
  }

  /**
   * `getPropertyName()`: the node's own property name if its accessor is
   * property-aware, else its parent's, else None.
   */
  function GetPropertyName(h: Heap, n: NodeId): (name: Option<string>)
    requires Valid(h) && n in h
    decreases Rank(h, n)
  {
    if IsPropertyAware(h[n].accessor) then h[n].accessor.propertyName
    else match h[n].parent
      case Some(p) =>
        ParentRankedBefore(h, n);
        GetPropertyName(h, p)
      case None => None
  }

  /** Position i of chain c is property-aware and no later position is. */
  ghost predicate NearestPropertyAware(h: Heap, c: seq<NodeId>, i: nat)
    requires i < |c|
  {
    && c[i] in h
    && IsPropertyAware(h[c[i]].accessor)
    && forall j :: i < j < |c| && c[j] in h ==> !IsPropertyAware(h[c[j]].accessor)
  }

  /**
   * The property name comes from the nearest property-aware node among n and its
   * ancestors, and is None exactly when there is none.
   */
  lemma {:induction false} PropertyNameIsNearest(h: Heap, n: NodeId)
    requires Valid(h) && n in h
    ensures GetPropertyName(h, n).None? ==>
      forall i :: 0 <= i < |Chain(h, n)| ==> !IsPropertyAware(h[Chain(h, n)[i]].accessor)
    ensures GetPropertyName(h, n).Some? ==>
      exists i :: 0 <= i < |Chain(h, n)| && NearestPropertyAware(h, Chain(h, n), i)
        && h[Chain(h, n)[i]].accessor.propertyName == GetPropertyName(h, n)
    decreases Rank(h, n)
  {
    var c := Chain(h, n);
    if IsPropertyAware(h[n].accessor) {
      var i := |c| - 1;
      assert c[i] == n;
      assert NearestPropertyAware(h, c, i);
    } else if h[n].parent.Some? {
      var p := h[n].parent.value;
      ParentRankedBefore(h, n);
      PropertyNameIsNearest(h, p);
      assert c == Chain(h, p) + [n];
      if GetPropertyName(h, p).Some? {
        var cp := Chain(h, p);
        var i :| 0 <= i < |cp| && NearestPropertyAware(h, cp, i)
          && h[cp[i]].accessor.propertyName == GetPropertyName(h, p);
        assert c[i] == cp[i];
        assert NearestPropertyAware(h, c, i);
      }
    } else {
      assert c == [n];
    }
  }

  /** `getCategories()`: the parent's categories together with the accessor's own. */
  function GetCategories(h: Heap, n: NodeId): (cats: set<string>)
    requires Valid(h) && n in h
    decreases Rank(h, n)
  {
    var inherited :=
      if h[n].parent.Some? then
        ParentRankedBefore(h, n);
        GetCategories(h, h[n].parent.value)
      else {};
    inherited + OwnCategories(h[n].accessor)
  }

  /** A node's categories are those contributed by any node of its ancestor chain. */
  lemma {:induction false} CategoriesAlongChain(h: Heap, n: NodeId, x: string)
    requires Valid(h) && n in h
    ensures x in GetCategories(h, n) ==>
      exists i :: 0 <= i < |Chain(h, n)| && x in OwnCategories(h[Chain(h, n)[i]].accessor)
    ensures (exists i :: 0 <= i < |Chain(h, n)| && x in OwnCategories(h[Chain(h, n)[i]].accessor)) ==>
      x in GetCategories(h, n)
    decreases Rank(h, n)
  {
    var c := Chain(h, n);
    if h[n].parent.Some? {
      var p := h[n].parent.value;
      ParentRankedBefore(h, n);
      CategoriesAlongChain(h, p, x);
      var cp := Chain(h, p);
      assert c == cp + [n];
      assert GetCategories(h, n) == GetCategories(h, p) + OwnCategories(h[n].accessor);
      if exists i :: 0 <= i < |cp| && x in OwnCategories(h[cp[i]].accessor) {
        var i :| 0 <= i < |cp| && x in OwnCategories(h[cp[i]].accessor);
        assert c[i] == cp[i];
        assert x in OwnCategories(h[c[i]].accessor);
      }
      if exists i :: 0 <= i < |c| && x in OwnCategories(h[c[i]].accessor) {
        var i :| 0 <= i < |c| && x in OwnCategories(h[c[i]].accessor);
        if i < |cp| {
          assert cp[i] == c[i];
          assert x in OwnCategories(h[cp[i]].accessor);
          assert x in GetCategories(h, p);
        } else {
          assert c[i] == n;
        }
        assert x in GetCategories(h, n);
      }
      if x in OwnCategories(h[n].accessor) {
        var i := |c| - 1;
        assert c[i] == n;
        assert x in OwnCategories(h[c[i]].accessor);
      }
    } else {
      assert c == [n];
    }
  }

  /** Categories only accumulate going down: an ancestor's categories are a subset of a descendant's. */
  lemma {:induction false} CategoriesInherited(h: Heap, a: NodeId, n: NodeId)
    requires Valid(h) && n in h && IsAncestor(h, a, n)
    ensures a in h && GetCategories(h, a) <= GetCategories(h, n)
    decreases Rank(h, n)
  {
    var p := h[n].parent.value;
    ParentRankedBefore(h, n);
    assert Chain(h, n) == Chain(h, p) + [n];
    if a != p {
      CategoriesInherited(h, a, p);
    }
  }

  /**
   * What the accessors do on a live object graph, supplied from outside the core:
   * `get` reads a value from a target, `put` (the accessor's set) and `unset` write to it, all in a
   * store `S` of objects.
   */
  datatype AccessorOps<!S, !V> = AccessorOps(
    get: (Accessor, S, V) -> V,
    put: (Accessor, S, V, V) -> S,
    unset: (Accessor, S, V) -> S)

  /** `canonicalGet(target)`: the accessor applied to the parent's canonical value, or to target at the top. */
  function CanonicalGet<S, V>(h: Heap, n: NodeId, ops: AccessorOps<S, V>, s: S, target: V): (v: V)
    requires Valid(h) && n in h
    decreases Rank(h, n)
  {
    var t :=
      if h[n].parent.Some? then
        ParentRankedBefore(h, n);
        CanonicalGet(h, h[n].parent.value, ops, s, target)
      else target;
    ops.get(h[n].accessor, s, t)
  }

  /** `canonicalSet(target, value)`: resolve the parent first, then let the accessor write. */
  function CanonicalSet<S, V>(h: Heap, n: NodeId, ops: AccessorOps<S, V>, s: S, target: V, value: V): (s1: S)
    requires Valid(h) && n in h
  {
    var t := if h[n].parent.Some? then CanonicalGet(h, h[n].parent.value, ops, s, target) else target;
    ops.put(h[n].accessor, s, t, value)
  }

  /** `canonicalUnset(target)`: resolve the parent first, then let the accessor remove. */
  function CanonicalUnset<S, V>(h: Heap, n: NodeId, ops: AccessorOps<S, V>, s: S, target: V): (s1: S)
    requires Valid(h) && n in h
  {
    var t := if h[n].parent.Some? then CanonicalGet(h, h[n].parent.value, ops, s, target) else target;
    ops.unset(h[n].accessor, s, t)
  }

  /** Reading through the accessors of `c` in order, starting from `target`. */
  ghost function ReadAlong<S, V>(h: Heap, c: seq<NodeId>, ops: AccessorOps<S, V>, s: S, target: V): (v: V)
    requires forall i :: 0 <= i < |c| ==> c[i] in h
  {
    if c == [] then target
    else ops.get(h[c[|c| - 1]].accessor, s, ReadAlong(h, c[..|c| - 1], ops, s, target))
  }

  /**
   * Canonical access resolves the whole ancestor chain: canonicalGet reads through
   * every accessor from the topmost ancestor down to n, and canonicalSet and
   * canonicalUnset hand n's accessor the value read through the chain above n.
   */
  lemma {:induction false} CanonicalAlongChain<S, V>(h: Heap, n: NodeId, ops: AccessorOps<S, V>, s: S, target: V, value: V)
    requires Valid(h) && n in h
    ensures CanonicalGet(h, n, ops, s, target) == ReadAlong(h, Chain(h, n), ops, s, target)
    ensures var above := Chain(h, n)[..|Chain(h, n)| - 1];
      && CanonicalSet(h, n, ops, s, target, value) == ops.put(h[n].accessor, s, ReadAlong(h, above, ops, s, target), value)
      && CanonicalUnset(h, n, ops, s, target) == ops.unset(h[n].accessor, s, ReadAlong(h, above, ops, s, target))
    decreases Rank(h, n)
  {
    var c := Chain(h, n);
    match h[n].parent
    case None =>
      assert c == [n];
      assert c[..0] == [];
    case Some(p) =>
      ParentRankedBefore(h, n);
      CanonicalAlongChain(h, p, ops, s, target, value);
      assert c == Chain(h, p) + [n];
      assert c[..|c| - 1] == Chain(h, p);
  }

  /** The accessor reads back what it was just given to write. */
  ghost predicate GetAfterSet<S(!new), V(!new)>(ops: AccessorOps<S, V>) {
    forall a, s, t, v :: ops.get(a, ops.put(a, s, t, v), t) == v
  }

  /**
   * Round trip: canonicalSet followed by canonicalGet returns the value written,
   * when the accessors read back what they write and the write does not disturb
   * the objects on the way down to n (no aliasing in the object graph).
   */
  lemma CanonicalSetThenGet<S(!new), V(!new)>(h: Heap, n: NodeId, ops: AccessorOps<S, V>, s: S, target: V, value: V)
    requires Valid(h) && n in h && GetAfterSet(ops)
    requires h[n].parent.Some? ==>
      var s' := CanonicalSet(h, n, ops, s, target, value);
      CanonicalGet(h, h[n].parent.value, ops, s', target) == CanonicalGet(h, h[n].parent.value, ops, s, target)
    ensures CanonicalGet(h, n, ops, CanonicalSet(h, n, ops, s, target, value), target) == value
  {
  }

  /** `equals`: the same object, or one built with an equal accessor. */
  predicate NodeEquals(h: Heap, a: NodeId, b: NodeId)
    requires a in h && b in h
  {
    a == b || h[a].accessor == h[b].accessor
  }

  /** `hashCode`: the accessor's hash code, `hash` being the accessor's own. */
  function HashCode(h: Heap, n: NodeId, hash: Accessor -> int): (code: int)
    requires n in h
  {
    hash(h[n].accessor)
  }

  /**
   * Equality is an equivalence that depends on the accessors alone, whatever the
   * nodes' states, children or positions, and equal nodes hash alike.
   */
  lemma EqualsByAccessor(h: Heap, a: NodeId, b: NodeId, c: NodeId, hash: Accessor -> int)
    requires a in h && b in h && c in h
    ensures NodeEquals(h, a, b) <==> h[a].accessor == h[b].accessor
    ensures NodeEquals(h, a, a)
    ensures NodeEquals(h, a, b) ==> NodeEquals(h, b, a)
    ensures NodeEquals(h, a, b) && NodeEquals(h, b, c) ==> NodeEquals(h, a, c)
    ensures NodeEquals(h, a, b) ==> HashCode(h, a, hash) == HashCode(h, b, hash)
  {
  }
}
