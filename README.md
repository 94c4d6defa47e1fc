# DiffNode, modelled and verified in Dafny

java-object-diff compares two versions of an object graph, a base and a working
version. It records the differences as a tree of `DiffNode`s. Each node has:

- an accessor, which says how its value is reached from its parent's value;
- a state: ADDED, CHANGED, REMOVED, UNTOUCHED, CIRCULAR or IGNORED;
- a write-once back-pointer to its parent;
- an insertion-ordered map from element selector to child.

This project models `DiffNode` and proves properties of it:

- attaching children and the errors that attachment throws;
- promotion of the parent's state;
- change detection over a subtree;
- the queries that walk up the parent chain: path, property name, categories, value type and canonical access;
- equality;
- the visitor traversal, including how a stop request is handled.

The model is an arena. `DiffNodes.Heap` maps a node reference to the node's
fields. `Forests.Forest` is a class that owns that heap. Its methods are the
operations that change nodes in place (construction, the setters,
`setParentNode`, `addChild`). The read-only traversal methods (`hasChanges`,
`visit`, `visitChildren`, `getChild(NodePath)`) are also methods of this class.
The traversal methods and `setParentNode` and `addChild` are proved equal to a
specification function, and the properties are proved about that function. The
simple setters state the new heap directly: one field of one node replaced. The read-only queries along the parent chain are
functions on a heap.

Every reachable heap satisfies `DiffNodes.Valid`:

- references point to nodes that exist;
- child maps have distinct keys;
- a child in a node's map points back to that node and is stored under its own selector;
- the parent relation is acyclic.

Files:

- `wrappers.dfy`: Option, Result and Outcome.
- `child_map.dfy`: the `LinkedHashMap` of children, as a sequence of entries.
- `diff_node.dfy`: node data, the heap invariant and ancestor chains.
- `sequences.dfy`: subsequences and listings without repeats.
- `node_queries.dfy`: path, child lookup, value type, property name, categories, canonical access, equals/hashCode.
- `subtree.dfy`: pre-order listing of a subtree, the change query, and the frame lemma for subtrees.
- `traversal.dfy`: visit/visitChildren as written, the stop-respecting variant, the `hasChanges` and `getChild(NodePath)` visitors, and a worked example.
- `forest.dfy`: the `Forest` class with the mutators and traversal methods, plus the specifications of `setParentNode` and `addChild`.

Where the code and its documentation disagree, the model follows the code:

- `getValueType` returns an explicitly set type before the accessor's type, although the doc comment of `setType` says the opposite.
- A stop request does not end the whole walk (see Findings).

## Model

All source paths are relative to the repository root.

| member | source | states |
|---|---|---|
| ChildMaps.Put | src/main/java/de/danielbechler/diff/DiffNode.java:285-294 | `children.put(selector, node)`: keys stay distinct; a known key keeps its position and gets the new child; a new key is appended last; every other entry stays where it was; the key set gains the key |
| ChildMaps.LookupAfterPut | src/main/java/de/danielbechler/diff/DiffNode.java:257-260 | after a put, `get` of that selector returns the new child and every other selector returns what it did before |
| ChildMaps.PutTwice | src/main/java/de/danielbechler/diff/DiffNode.java:291-294 | putting the same child under the same selector again leaves the map as after the first put |
| ChildMaps.SizeIsKeyCount | src/main/java/de/danielbechler/diff/DiffNode.java:222-225 | the map's size is the number of distinct selectors |
| ChildMaps.Lookup | src/main/java/de/danielbechler/diff/DiffNode.java:257-260 | `children.get(k)`: None (Java's null) exactly when k is not a key; otherwise the child stored under k |
| NodeQueries.ChildCount | src/main/java/de/danielbechler/diff/DiffNode.java:222-225 | `childCount()` is the number of selectors with a child |
| NodeQueries.HasChildren | src/main/java/de/danielbechler/diff/DiffNode.java:217-220 | `hasChildren()` holds exactly when some selector is mapped; when it is false, every `getChild(selector)` is null |
| NodeQueries.GetChild | src/main/java/de/danielbechler/diff/DiffNode.java:257-260 | a child found under a selector has this node as parent and that selector as its own element selector |
| NodeQueries.GetElementSelector | src/main/java/de/danielbechler/diff/DiffNode.java:182-185 | `getElementSelector()`: the accessor's selector, the root selector for a root accessor (a definition; `NodeQueries.GetChild` and `Forests.AddChildRegisters` state what it keys) |
| NodeQueries.GetPropertyChild | src/main/java/de/danielbechler/diff/DiffNode.java:233-236 | `getChild(name)` finds only a child whose selector is the bean-property selector of that name |
| NodeQueries.PathAlongChain | src/main/java/de/danielbechler/diff/DiffNode.java:164-180 | `getPath()` is the selectors of the whole ancestor chain, top to bottom. A parentless root accessor at the top contributes the root path; any other parentless top contributes its own selector |
| NodeQueries.DescendYieldsPath | src/main/java/de/danielbechler/diff/DiffNode.java:164-180 | paths and child lookup agree: following selectors down from a node reaches a node whose path is the start's path plus those selectors |
| NodeQueries.GetPath | src/main/java/de/danielbechler/diff/DiffNode.java:164-180 | `getPath()`: the parent's path plus the node's selector; a parentless node has the root path when its accessor is the root accessor and its own selector otherwise (a definition; `NodeQueries.PathAlongChain` spells it out along the chain) |
| NodeQueries.ExplicitTypeWins | src/main/java/de/danielbechler/diff/DiffNode.java:190-212 | after `setType(t)` with a type, `getValueType()` is t whatever the accessor reports, even a type-aware accessor that knows its type; the value types of other nodes are unchanged |
| NodeQueries.ClearedTypeFallsBack | src/main/java/de/danielbechler/diff/DiffNode.java:190-212 | after `setType(null)`, `getValueType()` is the type a type-aware accessor knows; for the root accessor or an accessor without a type it is none; so it is some type exactly when the accessor knows one |
| NodeQueries.GetValueType | src/main/java/de/danielbechler/diff/DiffNode.java:190-201 | (a definition; `NodeQueries.ExplicitTypeWins` and `NodeQueries.ClearedTypeFallsBack` state its behaviour after `setType`) |
| NodeQueries.PropertyNameIsNearest | src/main/java/de/danielbechler/diff/DiffNode.java:394-405 | `getPropertyName()` is the name of the nearest property-aware node among the node and its ancestors, and null exactly when there is none |
| NodeQueries.GetPropertyName | src/main/java/de/danielbechler/diff/DiffNode.java:394-405 | the own property name of a property-aware node, else the parent's, else none (a definition; `NodeQueries.PropertyNameIsNearest` states which node it comes from) |
| NodeQueries.CategoriesAlongChain | src/main/java/de/danielbechler/diff/DiffNode.java:448-465 | a category is in `getCategories()` exactly when some accessor on the ancestor chain contributes it |
| NodeQueries.CategoriesInherited | src/main/java/de/danielbechler/diff/DiffNode.java:448-465 | every ancestor's categories are a subset of a descendant's |
| NodeQueries.GetCategories | src/main/java/de/danielbechler/diff/DiffNode.java:448-465 | the parent's categories together with the accessor's own (a definition; `NodeQueries.CategoriesAlongChain` states the result) |
| NodeQueries.CanonicalAlongChain | src/main/java/de/danielbechler/diff/DiffNode.java:504-529 | `canonicalGet` reads through every accessor from the topmost ancestor down. `canonicalSet` and `canonicalUnset` apply the node's own accessor to the value read through the chain above it |
| NodeQueries.CanonicalSetThenGet | src/main/java/de/danielbechler/diff/DiffNode.java:504-520 | `canonicalGet` after `canonicalSet` returns the value written, provided the accessors read back what they write and the write leaves the parent's object in place |
| NodeQueries.CanonicalGet | src/main/java/de/danielbechler/diff/DiffNode.java:504-511 | `canonicalGet(target)`: the parent's canonical value, or target at the top, read through the own accessor (a definition; `NodeQueries.CanonicalAlongChain` states the result) |
| NodeQueries.CanonicalSet | src/main/java/de/danielbechler/diff/DiffNode.java:513-520 | `canonicalSet(target, value)`: the own accessor writes value into the parent's canonical value (a definition; see `NodeQueries.CanonicalSetThenGet`) |
| NodeQueries.CanonicalUnset | src/main/java/de/danielbechler/diff/DiffNode.java:522-529 | `canonicalUnset(target)`: the own accessor removes from the parent's canonical value (a definition; see `NodeQueries.CanonicalAlongChain`) |
| NodeQueries.EqualsByAccessor | src/main/java/de/danielbechler/diff/DiffNode.java:564-590 | `equals` holds exactly when the accessors are equal; it is reflexive, symmetric and transitive, and equal nodes have equal hash codes |
| NodeQueries.NodeEquals | src/main/java/de/danielbechler/diff/DiffNode.java:564-584 | `equals`: the same node or an equal accessor (a definition; `NodeQueries.EqualsByAccessor` states its properties) |
| NodeQueries.HashCode | src/main/java/de/danielbechler/diff/DiffNode.java:586-590 | `hashCode`: the accessor's hash (a definition; `NodeQueries.EqualsByAccessor` states that equal nodes hash alike) |
| Subtrees.ChangedIffChangeBelow | src/main/java/de/danielbechler/diff/DiffNode.java:100-119 | a node has changes exactly when it or some node in its subtree is ADDED, CHANGED or REMOVED |
| Subtrees.Changed | src/main/java/de/danielbechler/diff/DiffNode.java:100-119 | the specification of `hasChanges()`: an own change state, or some child with changes (a definition; `Subtrees.ChangedIffChangeBelow` and `Forests.Forest.HasChanges` state its meaning) |
| Subtrees.PreOrderParentFirst | src/main/java/de/danielbechler/diff/DiffNode.java:348-361 | in the pre-order listing of a subtree, every node except the first comes after its parent |
| Subtrees.PreOrderDistinct | src/main/java/de/danielbechler/diff/DiffNode.java:348-361 | the pre-order listing of a subtree names no node twice: children of one node are different nodes, and their subtrees are disjoint |
| Subtrees.SubtreeFrame | src/main/java/de/danielbechler/diff/DiffNode.java:285-302 | two heaps that agree on the states and child maps of a subtree give the same change answer and the same listing for it; so attaching a node does not change its own `hasChanges()` |
| Traversal.EveryVisitFresh | src/main/java/de/danielbechler/diff/DiffNode.java:311-321 | every callback of a walk is given a newly made Visit |
| Traversal.VisitSpec | src/main/java/de/danielbechler/diff/DiffNode.java:311-321 | `visit(visitor)` starts with a callback for the node itself and offers only nodes of the heap |
| Traversal.VisitWithSpec | src/main/java/de/danielbechler/diff/DiffNode.java:323-341 | the first callback of `visit(visitor, visit)` is the visitor applied to the node with the given Visit |
| Traversal.VisitChildrenSpec | src/main/java/de/danielbechler/diff/DiffNode.java:348-361 | `visitChildren(visitor)` offers only nodes of the heap (its order and completeness are the lemmas below) |
| Traversal.VisitPreOrder | src/main/java/de/danielbechler/diff/DiffNode.java:323-341 | the walk starts at the node. Every later node is offered after its parent, and only if the parent's Visit still allowed going deeper |
| Traversal.VisitStaysBelow | src/main/java/de/danielbechler/diff/DiffNode.java:348-361 | a walk offers only nodes of the visited node's subtree |
| Traversal.VisitFollowsPreOrder | src/main/java/de/danielbechler/diff/DiffNode.java:311-361 | for any visitor, pruning included, the nodes offered form a subsequence of the pre-order listing, so they come in insertion order and none is offered twice |
| Traversal.VisitOffersOpenedChildren | src/main/java/de/danielbechler/diff/DiffNode.java:323-361 | every child of a node whose callback left its Visit allowed to go deeper is offered |
| Traversal.StopDoesNotAbort | src/main/java/de/danielbechler/diff/DiffNode.java:311-361 | a visitor that never forbids going deeper is offered the whole subtree in pre-order, children in insertion order, whether or not it asks to stop |
| Traversal.StopAtXStillVisitsZAndY | src/main/java/de/danielbechler/diff/DiffNode.java:348-361 | on R[X[Z], Y], a visitor that stops at X is still offered Z and Y as written; the stop-respecting walk offers only R and X |
| Traversal.StoppableIsCutAtFirstStop | src/main/java/de/danielbechler/diff/DiffNode.java:323-361 | the stop-respecting walk is the as-written walk cut just after the first callback that stops. It reports a stop exactly when one occurred, and it ends in the same state when there is none |
| Traversal.UpToFirstStop | src/main/java/de/danielbechler/diff/DiffNode.java:337-340 | the cut is a prefix with no earlier stop; it is everything when there is no stop and ends at a stop otherwise |
| Traversal.DetectorFindsChange | src/main/java/de/danielbechler/diff/DiffNode.java:107-118 | the `hasChanges` visitor, run as written, ends with "found" exactly when the flag was set already or the subtree has changes |
| Traversal.StoppableDetectorFindsChange | src/main/java/de/danielbechler/diff/DiffNode.java:107-118 | the stop-respecting walk gives the same answer, and it stops exactly when there are changes |
| Traversal.ChangeDetector | src/main/java/de/danielbechler/diff/DiffNode.java:107-117 | the anonymous visitor of `hasChanges` accepts every node of a valid heap (its answer is `Traversal.DetectorFindsChange`) |
| Traversal.PathFinderFinds | src/main/java/de/danielbechler/diff/DiffNode.java:244-249 | the path-matching visitor ends with a node exactly when a node of the subtree has the path. The node it records has that path and lies in the subtree |
| Traversal.PathFinder | src/main/java/de/danielbechler/diff/DiffNode.java:244-249 | the visitor behind `getChild(path)` accepts every node of a valid heap (its answer is `Traversal.PathFinderFinds`) |
| Forests.SetParentSpec | src/main/java/de/danielbechler/diff/DiffNode.java:480-487 | `setParentNode` fails with IllegalState exactly when a different parent is already set; on success it stores the argument, changes no other node, and is a no-op when the parent was already set |
| Forests.AttachParentKeepsValid | src/main/java/de/danielbechler/diff/DiffNode.java:286-290 | giving a parentless node a parent outside its own subtree keeps the heap acyclic and well formed |
| Forests.Attach | src/main/java/de/danielbechler/diff/DiffNode.java:285-294 | the registering part of a successful `addChild`: the heap stays valid with the same nodes; the child's parent is the receiver; the receiver's child map is the put of the child under its selector; every other node is unchanged |
| Forests.AttachAndPromote | src/main/java/de/danielbechler/diff/DiffNode.java:285-302 | registering and then promoting keeps the heap valid with the same nodes (its effect on each node is stated by `Forests.AddChildSpec`) |
| Forests.PromotedState | src/main/java/de/danielbechler/diff/DiffNode.java:299-302 | the parent's state changes only from UNTOUCHED to CHANGED, and only when the child has changes; afterwards it is never UNTOUCHED if the child has changes |
| Forests.AddChildSpec | src/main/java/de/danielbechler/diff/DiffNode.java:267-304 | `addChild` fails with IllegalArgument exactly for a root-accessor node, the node itself, or a node with another parent. On success: the node's parent is this node; `children` is the put of the node under its selector; the state is promoted iff the node has changes; every other node is unchanged; the heap stays valid |
| Forests.AddRootAsChildFails | src/main/java/de/danielbechler/diff/DiffNode.java:269-273 | a root-accessor node is refused with IllegalArgument wherever it stands, even above the receiver |
| Forests.AddOtherParentsChildFails | src/main/java/de/danielbechler/diff/DiffNode.java:279-284 | a non-root node that has another parent is refused with IllegalArgument, even when it lies above the receiver |
| Forests.GuardsAdmitCycle | src/main/java/de/danielbechler/diff/DiffNode.java:267-289 | on a valid heap where node 0 lies above node 1, `1.addChild(0)` passes all three checks, and the setParentNode that follows leaves a heap with no acyclic ranking |
| Forests.CheckedAddChildSpec | src/main/java/de/danielbechler/diff/DiffNode.java:267-289 | addChild with the missing check: refused exactly for a root node, the receiver, a node with another parent, or a parentless node above the receiver; every heap it returns is valid and acyclic, has the same nodes, and has the child under the receiver; wherever the added check passes it equals `Forests.AddChildSpec` |
| Forests.AddChildRegisters | src/main/java/de/danielbechler/diff/DiffNode.java:285-294 | after `addChild`, `getChild` of the node's selector is the node, and every other selector finds what it found before |
| Forests.AddChildPropagatesChange | src/main/java/de/danielbechler/diff/DiffNode.java:299-302 | the child's change status is unchanged by `addChild`; if the child has changes, the parent has them afterwards |
| Forests.AddChildTwice | src/main/java/de/danielbechler/diff/DiffNode.java:279-294 | adding the same child a second time succeeds and leaves the tree as after the first addition |
| Forests.Forest.NewNode | src/main/java/de/danielbechler/diff/DiffNode.java:55-76 | a construction adds one fresh node: UNTOUCHED, with no children, the given accessor, type and parent, and no circle start; it is not put into the parent's child map; the heap stays valid |
| Forests.Forest.SetState | src/main/java/de/danielbechler/diff/DiffNode.java:89-93 | only the node's state changes |
| Forests.Forest.SetType | src/main/java/de/danielbechler/diff/DiffNode.java:209-212 | only the node's explicit value type changes |
| Forests.Forest.SetCircleStartPath | src/main/java/de/danielbechler/diff/DiffNode.java:601-604 | only the node's circle start path changes |
| Forests.Forest.SetCircleStartNode | src/main/java/de/danielbechler/diff/DiffNode.java:611-614 | only the node's circle start node changes |
| Forests.Forest.SetParentNode | src/main/java/de/danielbechler/diff/DiffNode.java:480-487 | the in-place `setParentNode` gives the outcome and new heap that `SetParentSpec` gives, and leaves the heap as it was on failure |
| Forests.Forest.AddChild | src/main/java/de/danielbechler/diff/DiffNode.java:267-304 | the in-place `addChild` gives the result and new heap that `AddChildSpec` gives: true on success, the exception and an unchanged heap on failure |
| Forests.Forest.AttachChild | src/main/java/de/danielbechler/diff/DiffNode.java:285-294 | the registering part of `addChild`: the node gets this parent if it had none and is stored in this node's child map under its own selector; the new heap is `Attach` of the old one and stays valid |
| Forests.Forest.PutChild | src/main/java/de/danielbechler/diff/DiffNode.java:289-293 | `children.put(selector, node)` replaces this node's child map by the put of the node under its selector and changes nothing else |
| Forests.Forest.PromoteParent | src/main/java/de/danielbechler/diff/DiffNode.java:299-302 | the state turns CHANGED exactly when it was UNTOUCHED and the child has changes; nothing else changes |
| Forests.AttachKeepsSubtree | src/main/java/de/danielbechler/diff/DiffNode.java:285-294 | registering a child leaves the state and child map of every node in the child's subtree as they were |
| Forests.Forest.HasChanges | src/main/java/de/danielbechler/diff/DiffNode.java:100-119 | the visitor-based `hasChanges()` answers exactly whether the subtree has a node in a change state, and changes nothing |
| Forests.Forest.GetChildByPath | src/main/java/de/danielbechler/diff/DiffNode.java:244-249 | `getChild(path)` finds a node exactly when some proper descendant has that path, and what it finds is a proper descendant with that path |
| Forests.Forest.Visit | src/main/java/de/danielbechler/diff/DiffNode.java:311-321 | the walk from `visit(visitor)` is the as-written specification walk with a fresh Visit |
| Forests.Forest.VisitWith | src/main/java/de/danielbechler/diff/DiffNode.java:323-341 | `visit(visitor, visit)` walks the node, then its children if allowed, and reports the stop flag of the node's own Visit |
| Forests.Forest.VisitChildren | src/main/java/de/danielbechler/diff/DiffNode.java:348-361 | the loop over `children.values()` visits each child in insertion order with a fresh Visit, as the specification walk does |

## Left out

- `toString` (DiffNode.java:532-562): debug text only.
- `getPropertyAnnotations`, `getPropertyAnnotation`, `getComparisonStrategy`, `isExcluded`: thin delegations to accessor capabilities whose implementations are not part of this model.
- `get`, `set` and `unset` on a single node (DiffNode.java:489-502): one accessor call each, captured by the `AccessorOps` parameter of canonical access.
- `matches(NodePath)` (DiffNode.java:95-98): NodePath's own matching is not part of this model.
- Getters that only return a field (`getState`, `getParentNode`, `getCircleStartPath`, `getCircleStartNode`): these are field reads of `Node`. The `is*` predicates are the discriminators of `State`, and `isRootNode` is `RootAccessor?`.
- Forests.Forest.GetChildByPath: `PropertyVisitor` is not part of this model. It is modelled as a visitor that records a node whose path equals the requested one and then stops. NodePath matching is equality of selector sequences.
- Forests.Forest.NewNode: the constructor's `setParentNode` call is written as a direct assignment, because a fresh node has no parent and the call cannot fail. The four Java constructors are this one method, with parent None for the root ones.
- Forests.Forest.AddChild: the unreachable IllegalStateException branch (DiffNode.java:295-298) is not modelled. The earlier guard at 279-284 rules it out.
- Forests.AddChildSpec and Forests.Forest.AddChild require one thing the code does not check: when the child would actually get a parent (it has none and is no root node), it must not lie above the receiver. This is `Forests.NoCycleOnAttach`. Every refused call, including a root or a node with another parent that lies above the receiver, is inside the requires. The model keeps the parent relation acyclic so that the recursive queries terminate. The code lets such a call through; see "## Findings".
- Forests.Forest.SetParentNode requires that a parentless node given a parent does not lie on that parent's chain (`n !in Chain(nodes, p.value)`). This has no root exemption and also excludes `n.setParentNode(n)`, which the code accepts. Inside DiffNode.java setParentNode is called only from addChild, after its checks, and from the constructor, on a fresh node.
- `Visit` and `StopVisitationException` are not part of this model. A Visit is a pair of flags. A callback returns its updated Visit instead of mutating it, and `stop()` is assumed to leave the go-deeper flag alone. The exception is the returned stop flag, caught where the code catches it. The callback sequence a walk returns is a trace added for the proofs; the code keeps none.
- `Class<?>` value types are type names. Java references are natural numbers, and null is `None`. `Assert.notNull` checks are covered by typing.
- The root path `NodePath.withRoot()` is modelled as the empty path, and the root accessor's selector as a distinguished root selector.
- `hasChanges` keeps its result in an `AtomicBoolean` shared with the visitor; here it is the walk's threaded state. In the closure, the recursive `node.hasChanges()` call is the specification predicate `Changed`, which `Forests.Forest.HasChanges` is proved to compute.
- Concurrency, reflection and logging are not part of this model.

## Findings

| source | as written | input that shows it | evidently intended | confidence | as-written member | corrected member |
|---|---|---|---|---|---|---|
| src/main/java/de/danielbechler/diff/DiffNode.java:311-361 | `visitChildren` calls the one-argument `visit`, which catches and ignores the stop exception, so the stop changes nothing about which nodes are offered: the exception thrown at 339, after the node's children were already visited at 335, is swallowed by the one-argument visit at 318; the node's own subtree, later siblings and their subtrees are all still visited, and the early `return` in `visitChildren` is never reached | tree R with children X (which has child Z) and Y; a visitor that stops at X is still offered Z and Y | a stop ends the whole walk just after the stopping callback | not executed; medium, since `hasChanges` and `getChild(NodePath)` both call `stop()` expecting the walk to end | Traversal.StopAtXStillVisitsZAndY | Traversal.StoppableIsCutAtFirstStop |
| src/main/java/de/danielbechler/diff/DiffNode.java:267-289 | `addChild` refuses a root node, the receiver itself and a node with another parent, and then calls `setParentNode(this)` on a parentless child; nothing checks that the child lies above the receiver | item node 0 with child 1, and `1.addChild(0)`: 0 is no root node, is not the receiver and has no parent, so every check passes and 0 and 1 become each other's parent | a node that lies above the receiver is refused as well, as the exception messages at 276-277 and 281-283 say the checks are there to prevent infinite loops | not executed; high for the input, which the guards plainly admit | Forests.GuardsAdmitCycle | Forests.CheckedAddChildSpec |

The corrected walk gives `hasChanges` the same answer
(`Traversal.StoppableDetectorFindsChange`). So for `hasChanges` the as-written
behaviour costs only extra work, which is why the rest of the model keeps the
as-written traversal.

For `addChild` the model keeps the code's three checks in `Forests.AddChildSpec`
and states the missing one as its requires, `Forests.NoCycleOnAttach`. Under
that requires `Forests.CheckedAddChildSpec` and `Forests.AddChildSpec` agree, so
every property proved about `addChild` holds for the corrected version.
