# graphgo: property graph store and branching query engine

This project models the two in-memory components of graphgo and proves their
laws.

- **The graph store** (`graph.go`) keeps nodes and labelled edges in two maps,
  both keyed by string. Each node keeps an adjacency index: edge key to edge
  label, one map for outgoing edges and one for incoming edges. Nodes and edges
  carry property bags, which can be merged, read and deleted.
- **The query engine** (`query.go`) runs chained traversals over a graph. A
  query is a tree. Each level holds a working set of nodes (`result`), a cache
  of projected values (`Cache`), the name under which its children were
  created (`Key`) and its children (`Queries`), keyed by node key.
  - `Out`, `In`, `FilterNodes`, `Get` and `GetOne` act on the working set of a
    flat query. On a deep query they are forwarded to every child.
  - `Deepen` adds a level: one child per node of the working set.
  - `Flatten` collapses the level just above the leaves. It can fold the
    children's caches into the parent's cache.
  - `DeepFilter` prunes branches at that same level.

The model has four modules:

- `PropertyStore` (`store.dfy`): the store as a value, with a function for each
  mutation. Its lemmas prove what each mutation changes and keeps. They also
  prove the edge/adjacency invariant `Consistent`: every edge is registered
  under its label at both endpoints, and every adjacency entry names an edge
  that starts or ends there.
- `GraphStore` (`graph.dfy`): a `Graph` class whose node and edge maps are
  updated in place. Each mutating method is proved to produce exactly the store
  that the matching `PropertyStore` function describes.
- `Traversal` (`traversal.dfy`): the query tree as a value (`QTree`), with the
  effect of each chained operation as a function or relation. Its lemmas state
  the operations' laws.
- `QueryEngine` (`query.dfy`): a `Query` class. Its children are separate
  objects, each owning its own footprint. Every chained method is proved to
  take the tree (`View`) to the state that `Traversal` describes.

Modelling decisions:

- **Working set.** A query's working set holds `*Node` pointers. The model keeps
  a set of node keys instead and resolves each key against the graph when it is
  read. `Traversal.AppliedKeepsResolved` shows that every operation keeps every
  working set inside the graph's node keys as long as the graph is not changed
  during the query. Under that condition the two readings agree.
- **Arbitrary child choice.** `IsDoubleDeep` asks one child, picked by Go's map
  iteration order, whether it is deep. The model keeps that choice open.
  - `Flatten` and `DeepFilter` are specified by the relations
    `Traversal.Flattened` and `Traversal.DeepFiltered`. These admit every
    outcome the code can have.
  - The corrected versions (see Findings) are deterministic functions.
- **Edge order.** Edges are written `start -> end`. An edge whose two endpoints
  are the same node is registered in that node's `outAdj` and then in its
  `inAdj`.

Two behaviours of the code are worth stating plainly:

- **Children of one `Deepen` need not have the same depth.** A child whose
  working set is empty at the next `Deepen` (for example after an `Out` that
  found nothing) gets no children and stays flat, while its siblings deepen.
  `IsDoubleDeep` is commented as returning "true if depth >= 2" (query.go:61),
  and `Flatten`/`DeepFilter` rely on it to recurse when the query is "too deep"
  (query.go:306) and to act only on "the level before the lowest"
  (query.go:314). Asking a single child does not deliver that when depths
  differ. See Findings.
- **`Deepen` on an empty working set sets `Key` and creates no children**, so
  the query stays flat. `Traversal.DeepenOnFlat` and
  `Traversal.DeepenFlattenRoundTrip` state this. As a result, `Deepen(x)`
  followed by `Flatten(true)` writes no cache entry `x` when the working set
  was empty.

## Model

| member | source | states |
|---|---|---|
| PropertyStore.MergeNodeInserts | graph.go:63-69 | MergeNode on an absent key adds exactly that key, as a node without edges and with the given properties. Every other node and every edge is unchanged. |
| PropertyStore.MergeNodeNoProps | graph.go:71-73 | MergeNode on an existing key with no properties leaves the store exactly as it was. |
| PropertyStore.MergeNodeOverwrites | graph.go:75-78 | MergeNode on an existing key sets every supplied property to its new value. Properties that were not supplied keep their old values. The adjacency maps, the other nodes and the edges do not change. |
| PropertyStore.MergeNodeTwice | graph.go:76-78 | Two merges into one node give the union of the property names, and the later merge wins on every name both supplied. |
| PropertyStore.MergeNodeConsistent | graph.go:59-81 | MergeNode preserves the edge/adjacency invariant. |
| PropertyStore.MergeEdgeMissingEndpoint | graph.go:117-128 | For a new edge key, MergeEdge fails exactly when an endpoint is missing. It reports the start node if the start is missing, otherwise the end node. On failure the store is unchanged. |
| PropertyStore.MergeEdgeLinks | graph.go:130-134 | A new edge between existing nodes is inserted with its label, endpoints and properties, and it is returned. It is anchored at both endpoints. No other edge changes, no node other than the two endpoints changes, and no property changes. |
| PropertyStore.MergeEdgeExisting | graph.go:137-146 | On an existing edge key, MergeEdge never changes the label, the endpoints or any node. Only the edge's properties are merged, last write wins, and the merged edge is returned. Merging no properties leaves the store unchanged. |
| PropertyStore.LinkedIndex | graph.go:130-132 | Linking a new edge adds it only to the start node's `outAdj` and the end node's `inAdj`, under its label. |
| PropertyStore.LinkConsistent | graph.go:130-132 | Linking a new edge at both its endpoints keeps a consistent store consistent. |
| PropertyStore.MergeEdgeConsistent | graph.go:113-147 | MergeEdge preserves the edge/adjacency invariant, whichever branch it takes. |
| PropertyStore.DeleteNodeRemovesOnly | graph.go:150-153 | DeleteNode removes exactly the node's entry. Every other node and every edge is unchanged. |
| PropertyStore.DeleteNodeConsistent | graph.go:150-153 | DeleteNode does not cascade to edges. A consistent store stays consistent if and only if no edge starts or ends at the deleted node. |
| PropertyStore.DeleteUnusedNodeConsistent | graph.go:150-153 | Deleting a node that no edge touches keeps the store consistent. |
| PropertyStore.DeleteEdgeAbsent | graph.go:157-161 | DeleteEdge on an absent key changes nothing. |
| PropertyStore.DeleteEdgeRemoves | graph.go:163-176 | DeleteEdge removes the edge, removes its key from the start node's `outAdj` and from the end node's `inAdj` (where those nodes exist), and leaves every other edge, every property and every other adjacency map exactly as it was. |
| PropertyStore.DeleteEdgeIdempotent | graph.go:156-178 | Deleting an edge twice has the same result as deleting it once. |
| PropertyStore.UnlinkedIndex | graph.go:163-173 | Unlinking an edge removes it only from the start node's `outAdj` and the end node's `inAdj`. |
| PropertyStore.UnlinkConsistent | graph.go:163-176 | Unlinking and dropping an edge keeps a consistent store consistent, and no adjacency entry for it remains. |
| PropertyStore.UnlinkBacked | graph.go:163-176 | After an edge is unlinked, every adjacency entry still names an existing edge at the right endpoint, and none names the removed edge. |
| PropertyStore.UnlinkBackedOut | graph.go:163-167 | After unlinking, every `outAdj` entry still names an existing edge that starts at that node. |
| PropertyStore.UnlinkBackedIn | graph.go:169-173 | After unlinking, every `inAdj` entry still names an existing edge that ends at that node. |
| PropertyStore.UnlinkLeavesNone | graph.go:163-173 | On a store whose index is backed by its edges, unlinking at the two endpoints leaves no adjacency entry for the edge anywhere. |
| PropertyStore.DeleteEdgeConsistent | graph.go:156-178 | DeleteEdge preserves the edge/adjacency invariant and leaves no residual adjacency entry for the deleted edge. |
| PropertyStore.ConsistentTransfer | graph.go:137-146 | The invariant survives any change that keeps edge labels, endpoints and adjacency maps, such as merging properties, and survives adding nodes without edges. |
| GraphStore.MergeProps | graph.go:76-78 | The property loop: the result has the old and the supplied names. A supplied property takes its new value, and every other property keeps its old value. |
| GraphStore.MergedIsUnion | graph.go:142-144 | That loop's result is map union with the supplied properties winning. |
| GraphStore.Graph.constructor | graph.go:13-19 | A new graph has no nodes and no edges. |
| GraphStore.Graph.GetNode | graph.go:22-39 | Succeeds exactly when the key is a node, and returns that node. Otherwise it fails with node-not-found for that key. |
| GraphStore.Graph.HasNode | graph.go:31-34 | True exactly when GetNode succeeds. |
| GraphStore.Graph.GetNodeProp | graph.go:42-48 | Succeeds exactly when the node exists and has the property, and returns its value. A missing node gives node-not-found; a missing property gives property-not-found. |
| GraphStore.Graph.GetNodeProps | graph.go:50-56 | Returns the node's property bag exactly when the node exists, otherwise node-not-found. |
| GraphStore.Graph.GetEdge | graph.go:84-101 | Succeeds exactly when the key is an edge, and returns that edge. Otherwise it fails with edge-not-found for that key. |
| GraphStore.Graph.HasEdge | graph.go:93-96 | True exactly when GetEdge succeeds. |
| GraphStore.Graph.GetEdgeProp | graph.go:104-110 | Succeeds exactly when the edge exists and has the property. A missing edge gives edge-not-found; a missing property gives property-not-found. |
| GraphStore.Graph.MergeNode | graph.go:59-81 | The graph becomes `AfterMergeNode` of its old state, and the returned node is the stored one. Its laws are the MergeNode lemmas above. |
| GraphStore.Graph.MergeEdge | graph.go:113-147 | The graph becomes `AfterMergeEdge` of its old state, and the result is the merged edge or the missing endpoint. Its laws are the MergeEdge lemmas above. |
| GraphStore.Graph.DeleteNode | graph.go:150-153 | The graph becomes `AfterDeleteNode` of its old state, which removes only the node. |
| GraphStore.Graph.DeleteEdge | graph.go:156-178 | The graph becomes `AfterDeleteEdge` of its old state. Its laws are the DeleteEdge lemmas above. |
| Traversal.TraverseOnChildren | query.go:77-83 | On a deep query, Out/In leave this level's working set, cache, key and child keys unchanged and apply to every child. |
| Traversal.FilterOnChildren | query.go:167-173 | On a deep query, FilterNodes applies only to the children. |
| Traversal.GetOnChildren | query.go:195-201 | On a deep query, Get applies only to the children. |
| Traversal.GetOneOnChildren | query.go:229-235 | On a deep query, GetOne applies only to the children. |
| Traversal.DeepenOnChildren | query.go:277-283 | On a deep query, Deepen applies only to the children. |
| Traversal.FlattenOnChildren | query.go:306-312 | When the picked child is deep, Flatten leaves this level alone and applies to every child. |
| Traversal.DeepFilterOnChildren | query.go:338-344 | When the picked child is deep, DeepFilter leaves this level alone and applies to every child. |
| Traversal.CollapseApplies | query.go:314-327 | When the picked child is flat, collapsing this level is an outcome of Flatten. |
| Traversal.PrunedByRemoval | query.go:349-363 | Collecting the rejected children and then deleting each one from the children and from the working set gives exactly `Prune`. |
| Traversal.PruneApplies | query.go:346-365 | When the picked child is flat, pruning this level is an outcome of DeepFilter. |
| Traversal.StepMatchesEdges | query.go:85-116 | Reference definition of Out/In: on a consistent store, following the adjacency index gives exactly the far endpoints of the edges with that label whose near endpoint is in the working set. The new working set replaces the old one. |
| Traversal.OutInDual | query.go:120-161 | On a consistent store, b is reached from a by Out(l) if and only if a is reached from b by In(l). |
| Traversal.MergeEdgeAddsNeighbour | graph.go:130-132 | After a new edge a -> b labelled l, Out(l) from a reaches what it reached before plus b, and In(l) from b reaches what it reached before plus a. |
| Traversal.OutHopGains | graph.go:130-131 | The start node's Out(l) neighbours gain exactly the new edge's end node. |
| Traversal.InHopGains | graph.go:130-132 | The end node's In(l) neighbours gain exactly the new edge's start node. |
| Traversal.DeepenThenStep | query.go:285-291 | Branching does not change what a traversal reaches. After Deepen, a traversal's results over all branches together equal the flat traversal's result. |
| Traversal.TraverseChangesOnlyLeafResults | query.go:78-83 | At any depth, Out/In change only the working sets of flat levels. |
| Traversal.FilterChangesOnlyLeafResults | query.go:168-173 | At any depth, FilterNodes changes only the working sets of flat levels. |
| Traversal.GetChangesOnlyLeafCaches | query.go:196-201 | At any depth, Get changes only the caches of flat levels. |
| Traversal.GetOneChangesOnlyLeafCaches | query.go:230-235 | At any depth, GetOne changes only the caches of flat levels. |
| Traversal.FilterComposes | query.go:175-187 | Filtering by p and then by q is the same as filtering once by p and q. |
| Traversal.FilterOnFlat | query.go:175-187 | On a flat query, the new working set is exactly those old working-set nodes whose properties satisfy the predicate. Nothing else changes. |
| Traversal.GetOnFlat | query.go:203-222 | On a flat query, Get writes `Cache[name]` with one entry per working-set node. Each entry holds exactly the requested keys that the node has, with their values. Every other cache entry is unchanged. |
| Traversal.GetOneOnFlat | query.go:237-259 | On a flat query, GetOne changes nothing unless the working set is exactly one node. In that case it writes that node's requested properties under `name`. |
| Traversal.DeepenOnFlat | query.go:285-295 | On a flat query, Deepen sets `Key` and creates exactly one child per working-set node. Each child is flat, has an empty cache, and is rooted at its node if that node exists. The working set is unchanged. The query becomes deep if and only if the working set was non-empty. |
| Traversal.FlattenAtBottom | query.go:301-327 | Where no child is deep, Flatten is a no-op on a flat query and collapses a deep one. |
| Traversal.DeepenFlattenRoundTrip | query.go:316-326 | Deepen(x) followed by Flatten(true) returns a flat query with the same working set. `Cache[x]` then holds one empty cache per original working-set node. With an empty working set, only `Key` is set. |
| Traversal.PruneKeepsInStep | query.go:359-363 | If the working set and the child keys agree before DeepFilter's pruning, they still agree afterwards. |
| Traversal.DeepFilterAtBottom | query.go:349-363 | Where no child is deep, DeepFilter keeps exactly the children the predicate accepts, unchanged, and removes exactly the rejected keys from the working set. |
| Traversal.DeepenRejectAll | query.go:349-363 | Deepen and then DeepFilter with an always-false predicate leaves no children and an empty working set. |
| Traversal.FlattenDeepestIsAnOutcome | query.go:62-72 | The corrected Flatten is always one of the outcomes the code can have. |
| Traversal.FlattenUniform | query.go:62-72 | When the children of every level agree on depth, Flatten has exactly one outcome: the corrected one. |
| Traversal.FlattenOnlyOutcome | query.go:62-72 | Uniqueness half of FlattenUniform. |
| Traversal.FlattenDeepestForwards | query.go:306-312 | When some child is deep, the corrected Flatten applies to every child and keeps this level. |
| Traversal.FlattenDeepestOnChildren | query.go:306-312 | Children flattened the corrected way make the level flattened the corrected way. |
| Traversal.FlattenSkewed | query.go:67-68 | For a query whose two branches differ in depth, the code may collapse the upper level, which differs from the corrected Flatten. |
| Traversal.DeepFilterDeepestIsAnOutcome | query.go:62-72 | The corrected DeepFilter is always one of the outcomes the code can have. |
| Traversal.DeepFilterUniform | query.go:62-72 | When the children of every level agree on depth, DeepFilter has exactly one outcome: the corrected one. |
| Traversal.DeepFilterOnlyOutcome | query.go:62-72 | Uniqueness half of DeepFilterUniform. |
| Traversal.DeepFilterDeepestForwards | query.go:338-344 | When some child is deep, the corrected DeepFilter applies to every child and keeps this level. |
| Traversal.DeepFilterDeepestOnChildren | query.go:338-344 | Children filtered the corrected way make the level filtered the corrected way. |
| Traversal.DeepFilterSkewed | query.go:67-68 | For the skewed query, a reject-all DeepFilter may empty the whole query, while the corrected DeepFilter keeps both branches. |
| Traversal.RootResolved | query.go:30-37 | A new query's working set names only existing nodes. |
| Traversal.AppliedKeepsResolved | query.go:5-12 | Every chained operation keeps every working set inside the graph's nodes, so node keys resolved against an unchanged graph stand for the node records that query.go holds. |
| Traversal.FlattenedKeepsResolved | query.go:299-328 | Flatten keeps the working sets resolved. |
| Traversal.DeepFilteredKeepsResolved | query.go:331-366 | DeepFilter keeps the working sets resolved. |
| Traversal.MappedKeepsResolved | query.go:276-296 | Out, In, FilterNodes, Get, GetOne and Deepen keep the working sets resolved. |
| QueryEngine.HopFrom | query.go:91-108 | The adjacency loop for one node gives exactly that node's neighbours over the label, skipping entries whose edge or far node is missing. |
| QueryEngine.Neighbours | query.go:88-112 | The node loop of Out/In gives exactly `Step`, the union of every working-set node's neighbours. |
| QueryEngine.Select | query.go:178-184 | FilterNodes' loop keeps exactly the working-set nodes whose properties satisfy the predicate. |
| QueryEngine.ProjectProps | query.go:210-216 | The key loop keeps exactly the requested keys that the node has, with their values. |
| QueryEngine.ProjectAll | query.go:206-220 | Get's node loop gives one projection per working-set node. |
| QueryEngine.NewChildren | query.go:285-291 | Deepen's loop creates one new, valid, flat query per working-set node, each rooted at its node and each distinct. |
| QueryEngine.Removed | query.go:360-363 | The deletion loop removes exactly the discarded keys from the working set and from the children. |
| QueryEngine.Query.NewQuery | query.go:27-48 | The working set is exactly the start keys that exist in the graph, skipping missing ones. The cache, key and children start empty. A nil graph is accepted with no start keys and gives an empty query. |
| QueryEngine.Query.NewEmptyQuery | query.go:15-24 | A query without a graph has an empty working set, an empty cache and no children. |
| QueryEngine.Query.IsDeep | query.go:51-59 | True exactly when the query has children. |
| QueryEngine.Query.IsDoubleDeep | query.go:62-72 | True only if some child is deep. False only if the query is flat or some child is flat. Which answer it gives depends on the child picked. |
| QueryEngine.Query.Out | query.go:75-117 | The query tree becomes `TraverseTree` of the old one over the outgoing index. |
| QueryEngine.Query.In | query.go:120-162 | The query tree becomes `TraverseTree` of the old one over the incoming index. |
| QueryEngine.Query.Walk | query.go:85-116 | A flat query's working set is replaced by `Step`, and a deep query forwards to every child. |
| QueryEngine.Query.FilterNodes | query.go:165-189 | The query tree becomes `FilterTree` of the old one. |
| QueryEngine.Query.Get | query.go:193-224 | The query tree becomes `GetTree` of the old one. |
| QueryEngine.Query.GetOne | query.go:228-262 | The query tree becomes `GetOneTree` of the old one. |
| QueryEngine.Query.Deepen | query.go:276-296 | The query tree becomes `DeepenTree` of the old one. The only new objects are the new child queries. |
| QueryEngine.Query.Branch | query.go:285-295 | Deepen on a flat query: new flat children are rooted at the working-set nodes, and `Key` is set. |
| QueryEngine.Query.Flatten | query.go:299-328 | The new query tree is an outcome of `Flattened` from the old one. |
| QueryEngine.Query.CollapseLevel | query.go:316-326 | The level is collapsed. With `save`, every child's cache is filed under the old key; the key and children are cleared; the working set is kept. |
| QueryEngine.Query.Reset | query.go:324-325 | Replacing the level's fields while keeping some of the children leaves those children as they were. |
| QueryEngine.Query.ChildCaches | query.go:316-322 | The cache loop maps every child key to that child's cache. |
| QueryEngine.Query.DeepFilter | query.go:331-366 | The new query tree is an outcome of `DeepFiltered` from the old one. |
| QueryEngine.Query.PruneLevel | query.go:349-363 | The level is pruned: rejected children are removed, and their keys leave the working set. |
| QueryEngine.Query.Rejected | query.go:349-357 | The first loop collects exactly the keys of the children that the predicate rejects. |
| QueryEngine.Query.HasDeepChild | query.go:62-72 | The corrected depth test: true exactly when some child is deep. |
| QueryEngine.Query.FlattenDeepest | query.go:299-328 | The corrected Flatten: the query tree becomes `FlattenDeepest` of the old one. |
| QueryEngine.Query.DeepFilterDeepest | query.go:331-366 | The corrected DeepFilter: the query tree becomes `DeepFilterDeepest` of the old one. |
| QueryEngine.Query.DeepenChildren | query.go:278-282 | Deepen's forwarding loop deepens every child and leaves this level as it was. |
| QueryEngine.Query.Forward | query.go:79-81 | The forwarding loop applies the operation to every child and leaves this level as it was. |

## Left out

- `LegacyIndex` (graph.go:9, graph.go:17): its type is not part of this model, and nothing in the core reads it.
- The JSON struct tags on `Graph`: they are serialisation metadata.
- Node and edge internals are not part of this model: `NewNode`, `NewEdge`, `SetProperty`, `AddOutEdge`, `AddInEdge` and `Node.Get`. They are modelled as map inserts, updates and lookups.
  - `Node.Get` is taken to fail exactly when the property is absent, giving `PropertyNotFound`.
  - A node or edge is stored under its own key, so the record does not repeat the key.
- Error message text: errors are the datatype `NotFound(kind, key)` / `PropertyNotFound(key, prop)`.
- The value domain `interface{}` is an opaque type parameter `V`. A `nil` property map is modelled as an empty map. The Go code treats the two the same way: the `nil` shortcut returns what the loop would leave.
- Caller-supplied predicates are taken as Dafny functions. The model does not reason about their bodies.
  - `DeepFilter`'s `keepQuery` receives the child's query tree as a value, not the `*Query`. So the model does not capture a predicate that mutates the child.
- GraphStore.Graph.GetNode, GraphStore.Graph.GetNodeProps, GraphStore.Graph.GetEdge, GraphStore.Graph.MergeNode and GraphStore.Graph.MergeEdge return values. In Go they return live references into the store: the stored `*Node` or `*Edge`, and for `GetNodeProps` the node's own `Props` map (graph.go:55). A caller that writes through such a result changes the graph. The model does not capture that aliasing.
- Pointer semantics of `*Node` in a query's working set: the model holds node keys instead. Mutating the graph while a query is live is not modelled; see `Traversal.AppliedKeepsResolved` for why keys and records agree otherwise.
- Iteration order of Go maps is modelled by an arbitrary choice (`:|`) in every loop. Only `IsDoubleDeep` depends on it.
- Most loops of the query methods are separate methods in `QueryEngine`, each proved against its own specification. The exception is `NewQuery`'s start loop, which stays inline in the constructor. The chained methods do not return the receiver: in the model, chaining is calling methods in sequence on the same object.
- The commented-out `Output` (query.go:264-273): dead code.
- QueryEngine.Query.NewQuery: Go's `NewQuery(nil, starts...)` with at least one start key panics at `g.GetNode` (query.go:31). The model requires start keys to be absent when the graph is nil, so that panic is not modelled.
- QueryEngine.Query.Out: a query with no graph (`NewEmptyQuery`) and a non-empty working set would dereference `nil` in Go. The model's invariant makes such a query impossible, because a query without a graph has an empty working set and no children.

## Findings

| source | as written | input that shows it | evidently intended | confidence | as-written member | corrected member |
|---|---|---|---|---|---|---|
| query.go:67-68 | `IsDoubleDeep` returns whether the first child in map iteration order is deep, and `Flatten`/`DeepFilter` use that answer to decide whether to collapse or prune this level or to recurse. | A query deepened on `{a, b}` whose branch `b` has an empty working set at the second `Deepen` (for example after an `Out` from `b` found nothing). Branch `a` gets a child and `b` does not. If the pick lands on `b`, `Flatten` collapses the top level and discards `a`'s subtree, and a reject-all `DeepFilter` empties the whole query. | Recurse whenever any child is deep, so that only the level directly above the deepest leaves is collapsed or pruned, whatever the iteration order. | not executed | QueryEngine.Query.Flatten, QueryEngine.Query.DeepFilter (shown by Traversal.FlattenSkewed, Traversal.DeepFilterSkewed) | QueryEngine.Query.FlattenDeepest, QueryEngine.Query.DeepFilterDeepest (with Traversal.FlattenUniform, Traversal.DeepFilterUniform) |
