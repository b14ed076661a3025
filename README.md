# MeshParty skeleton trees in Dafny

This project models the tree engine of MeshParty's `meshparty/skeleton.py`.

A `Skeleton` is a rooted tree over a set of vertices. `reroot` orients every undirected edge as
`(child, parent)`: the endpoint farther from the new root (in hops) becomes the child. It then fills the
parent array and drops the cached graph, path and segment results. Lazy getters compute and cache:

- the branch points and end points (vertices with more than one child, and with none);
- the root-to-leaf paths, found by walking parent pointers with a visited array;
- the segments, the runs of vertices between branch points, found with a LIFO work queue, a list of
  branch points already queued and an in-place `segment_map`.

A `SkeletonForest` handles several connected components:

- it numbers the components block after block, largest first;
- it builds one skeleton per component and moves the global root into the component that holds it;
- it concatenates the skeletons' edge, end-point and branch-point lists into the forest's numbering with
  a running offset;
- it concatenates their property arrays;
- it remaps vertex lists given in the original numbering into the internal one.

The model has six files, one module each:

- `wrappers.dfy` (`Wrappers`): `Option`, `Result` and the errors the source raises.
- `tree_graph.dfy` (`TreeGraph`): value-level tree logic.
  - Edge orientation from hop distances.
  - The parent array that fancy assignment writes, where the last write wins.
  - Child counts, branch points and end points.
  - Termination of parent walks.
- `skeleton.dfy` (`Skeletons`): the `Skeleton` class and everything about it.
  - Its fields are the edge list, the parent array and `Option` cache fields.
  - `Reroot` and the cached getters are methods that update the fields; `Reroot` fills the parent array
    through `FillParents`, a loop.
  - The walks `PathToRoot`, `UnvisitedPathOnTree`, `ComputePaths`, `WalkToBranchPoint` and
    `ComputeSegments` are methods with loops and their invariants.
  - `UnvisitedPathOnTree` and `ComputePaths` are proved against the specification predicate
    `PathDecomposition`, and `WalkToBranchPoint` and `ComputeSegments` against `SegmentDecomposition`.
    `PathToRoot` is proved to follow parent links to the first vertex without a parent.
  - The file ends with worked examples on a chain and a star.
- `skeleton_cover.dfy` (`SkeletonCover`): what paths and segments cover on a tree.
  - After a reroot with finite distances and no ties, every edge goes from a farther vertex to a nearer
    one (`Ranked`). When in addition no vertex is the child of two edges (`SingleParent`), the edges
    form rooted trees: every parent walk climbs in rank and ends.
  - On such a tree the segments of fresh end and branch points partition the vertices, and the paths of
    the end points cover them.
- `forest_index.dfy` (`ForestIndex`): the index arithmetic of the forest.
  - Component members, the block numbering `VertexOrder` and its permutation proof, and the per-component
    step lemmas of the constructor loop.
  - The offset concatenation `AgglomerateNodes` against `Agglomerated`.
  - `RemapVertexList` and its round trips, and property concatenation.
- `forest.dfy` (`Forests`): the `SkeletonForest` class.
  - Its constructor's loop numbers the components in three arrays and builds a `Skeleton` per component.
  - It also has the concatenating getters.

The graph routines the code calls are not modelled. Their results are inputs:

- `connected_components`, `argsort` of the component sizes, and the default root from
  `find_far_points_graph` are bundled in `Forests.Components`.
- Dijkstra's hop distances are a `seq<Hops>` given to `Reroot` and to the `Skeleton` constructor.
- The distances of the end points to the root, and the order `argsort` puts them in, are given to `Paths`.

A distance is `Extended`: `Finite(n)` or `Infinite`, for numpy's `inf`.

### Behaviour as written

The model follows the code, including several places where it differs from what a reader might expect:

- **Ties in `reroot`** (`meshparty/skeleton.py:358-360`). When both endpoints are at the same distance,
  `is_ordered` is false and the original second endpoint becomes the child. Rerooting twice at the same
  root therefore flips every tied edge back; rerooting is idempotent only without ties
  (`TreeGraph.RerootTwice`). A reader might expect the lower id to become the parent; the code decides
  by the original edge order only.
- **Stale branch and end points** (`meshparty/skeleton.py:373-378`). `_reset_derived_objects` does not
  clear `_branch_points` or `_end_points`, so after a second `reroot` they still describe the earlier
  orientation. `Skeletons.StaleEndPointsCache` builds a three-vertex path rooted at an end, reads its end
  points, reroots it at the middle, and reads them again: the getter still answers [2], while the edges
  it now holds give [0, 2].
- **Shifted constructor slots** (`meshparty/skeleton.py:72-75` against `194-195`).
  - `SkeletonForest` passes the filtered vertex properties where `Skeleton` expects `mesh_to_skel_map`.
    The edge properties land in `vertex_properties`, and `edge_properties` keeps its default `{}`.
  - `Forests.BuiltFrom` states this slot by slot.
  - `Forests.SkeletonForest.ShiftedSlotsLoseEdgeProperties` proves the consequence: every forest
    edge-property lookup fails, and the `edge_properties` getter is empty.
- **Offsets that skip empty lists** (`meshparty/skeleton.py:163-165`). `n_shift` grows only for
  skeletons whose list is non-empty. A skeleton without end points therefore does not move the end points
  of the skeletons after it past its own vertices. `ForestIndex.EmptyListSkipsOffset` shows a list placed
  at 0 although a two-vertex skeleton precedes it.
- **Empty edge lists** (`meshparty/skeleton.py:197`). `np.vstack` raises `ValueError` on an empty edge
  list. A `Skeleton` therefore needs at least one edge, and a `SkeletonForest` over a graph with an
  isolated vertex fails while building that vertex's skeleton. The constructors require what the code
  needs to succeed (see "Left out").
- **Roots of segments** (`meshparty/skeleton.py:449-467`).
  - A walk that reaches the root without meeting a branch point is recorded whole, root included
    (`Skeletons.ChainSegments`).
  - A root that is itself a branch point is queued and becomes a segment of its own
    (`Skeletons.StarSegments`).

## Model

| member | source | states |
|---|---|---|
| TreeGraph.OrientAllSpec | meshparty/skeleton.py:357-362 | Orienting keeps each edge's unordered endpoint pair; a parent is never farther from the root than its child, and strictly closer when the distances differ; on a tie the original second endpoint becomes the child |
| TreeGraph.RerootTwice | meshparty/skeleton.py:358-360 | Orienting an oriented edge list again with the same distances restores exactly the tied edges and keeps the rest; without ties orienting is idempotent |
| TreeGraph.ParentIsLastWrite | meshparty/skeleton.py:347-363 | A vertex has no parent exactly when it is the child of no edge; otherwise its parent is the parent end of the last edge naming it as child, as numpy fancy assignment leaves it |
| TreeGraph.ParentFromEdge | meshparty/skeleton.py:363 | Every parent entry comes from an oriented edge `(v, parent[v])` |
| TreeGraph.ParentOfEveryEdge | meshparty/skeleton.py:363 | When no vertex is the child of two edges, `parent[c] == p` for every oriented edge `(c, p)` |
| TreeGraph.TopWithinDistance | meshparty/skeleton.py:325-335 | With finite distances and no ties, the parent walk from `v` reaches a vertex without parent within `d[v]` steps |
| TreeGraph.RerootedParentsAcyclic | meshparty/skeleton.py:345-363 | With finite distances and no ties, the parent array `reroot` fills has no cycle: every parent walk ends |
| TreeGraph.ChildCountZero | meshparty/skeleton.py:389 | A vertex has child count zero exactly when no edge has it as parent |
| TreeGraph.ChildCountAboveOne | meshparty/skeleton.py:389 | A vertex has child count above one exactly when two distinct edges have it as parent |
| TreeGraph.BranchPointsOfSpec | meshparty/skeleton.py:388-390 | The branch points are ascending and are exactly the vertices below `n` with more than one child |
| TreeGraph.EndPointsOfSpec | meshparty/skeleton.py:388-391 | The end points are ascending and are exactly the vertices below `n` with no child |
| TreeGraph.SetAll | meshparty/skeleton.py:63-64 | Assigning one value at an index array changes exactly the listed positions |
| Skeletons.FillParents | meshparty/skeleton.py:363 | Writing `parent[e1] = e2` edge by edge yields the parent array `ParentsOf` describes |
| Skeletons.FillStep | meshparty/skeleton.py:363 | One more edge overwrites exactly its child's parent entry |
| Skeletons.Skeleton.constructor | meshparty/skeleton.py:194-220 | Stores the vertex count, mesh map and property dictionaries; roots the skeleton at the given root or else at the default root; orients the edges by the hop distances; leaves every cache empty |
| Skeletons.Skeleton.Reroot | meshparty/skeleton.py:345-364 | Sets the root, orients the edges, fills the parent array from them, clears the paths, segments, segment map and both graphs, and keeps the branch and end points as they were |
| Skeletons.Skeleton.ResetDerivedObjects | meshparty/skeleton.py:373-378 | Clears both graphs, the paths, the segments and the segment map, and nothing else |
| Skeletons.Skeleton.Csgraph | meshparty/skeleton.py:246-250 | Returns the current edges and caches them as the weighted graph |
| Skeletons.Skeleton.CsgraphBinary | meshparty/skeleton.py:252-256 | Returns the current edges and caches them as the binary graph |
| Skeletons.Skeleton.CreateBranchAndEndPoints | meshparty/skeleton.py:388-391 | Caches the branch points and end points of the current edges |
| Skeletons.Skeleton.BranchPoints | meshparty/skeleton.py:289-293 | Returns the cached branch points, computing and caching both lists first when there are none (which also caches the binary graph); the result is what the cache held, or the current classification |
| Skeletons.Skeleton.EndPoints | meshparty/skeleton.py:301-305 | Returns the cached end points, computing and caching both lists first when there are none (which also caches the binary graph) |
| Skeletons.KeptMembers | meshparty/skeleton.py:412-414 | The end points processed are exactly those of the order at finite distance |
| Skeletons.KeptCounts | meshparty/skeleton.py:412-414 | Skipping end points never adds one: the processed ones are a sub-multiset of the order |
| Skeletons.KeptDescending | meshparty/skeleton.py:407-414 | Skipping infinite distances keeps the processed end points in descending distance order |
| Skeletons.Skeleton.PathToRoot | meshparty/skeleton.py:325-335 | The path starts at `v`, each consecutive pair is a `(child, parent)` link, and it ends at the first vertex without parent |
| Skeletons.Skeleton.UnvisitedPathOnTree | meshparty/skeleton.py:421-433 | The path starts at `ind` and follows parent links; it marks exactly the vertices before its last, each unmarked before and none twice; the last vertex was already visited or is the first repeat on the walk; a missing parent is an error |
| Skeletons.PathLoopStep | meshparty/skeleton.py:412-417 | A walk from the next end point that marks what it passes extends the path decomposition and keeps the visited flags exact |
| Skeletons.Skeleton.ComputePaths | meshparty/skeleton.py:398-419 | One path per end point at finite distance, in descending distance order; each path walks up from its end point; its vertices before the last are distinct and neither the root nor on an earlier path; it stops at the root, an earlier path or the first repeat. A walk that runs off the tree reports the parentless vertex |
| Skeletons.Skeleton.Paths | meshparty/skeleton.py:313-317 | Returns the cached paths unchanged. Otherwise it caches the weighted graph (`csgraph` is read at line 402) and both point lists, computes the paths for the current end points, and caches them on success |
| Skeletons.LastHoldingSpec | meshparty/skeleton.py:452-466 | The segment-map value of a vertex is -1 when no segment holds it, else the last segment holding it |
| Skeletons.SegmentStep | meshparty/skeleton.py:451-453 | Appending a segment and writing its index into the map keeps the map pointing at the last segment holding each vertex |
| Skeletons.QueueStep | meshparty/skeleton.py:444-463 | Recording a segment for the popped vertex, and queueing the branch point it stopped at when not yet seen, keeps the work-queue bookkeeping |
| Skeletons.SegmentLoopStep | meshparty/skeleton.py:444-467 | One iteration of the segment loop keeps its invariant; a newly queued branch point was never queued before |
| Skeletons.SegmentLoopDone | meshparty/skeleton.py:444-468 | An empty queue leaves a complete segment decomposition |
| Skeletons.Skeleton.WalkToBranchPoint | meshparty/skeleton.py:446-463 | The walk from `ind` is a segment: it follows parent links, holds a branch point at most first, and stops below a branch point or at the root; it reports whether it crossed into a branch point, and which |
| Skeletons.Skeleton.ComputeSegments | meshparty/skeleton.py:435-468 | Every segment is a walk up between branch points. The segments start at the end points and at each branch point some segment stopped at, once each. The map sends each vertex to the last segment holding it. On a tree, `SkeletonCover.SegmentsPartitionTree` shows these segments partition the vertices |
| Skeletons.Skeleton.CacheSegments | meshparty/skeleton.py:237 | Computes the segments of the current end and branch points and caches them together with the map |
| Skeletons.Skeleton.Segments | meshparty/skeleton.py:234-238 | Returns the cached segments unchanged, or a freshly computed segment decomposition of the current end and branch points, which it leaves cached |
| Skeletons.Skeleton.SegmentMap | meshparty/skeleton.py:240-244 | Returns the cached segment map unchanged, or the map of a freshly computed segment decomposition of the current end and branch points, which it leaves cached |
| Skeletons.OrientPath | meshparty/skeleton.py:357-362 | On a three-vertex path, rooting at an end orients both edges towards it; rerooting at the middle turns one edge around |
| Skeletons.EndPointsRootedAtEnd | meshparty/skeleton.py:388-391 | A path rooted at one end has the other end as its only end point |
| Skeletons.EndPointsRootedInMiddle | meshparty/skeleton.py:388-391 | A path rooted at its middle has both ends as end points |
| Skeletons.StaleEndPointsAfterReroot | meshparty/skeleton.py:357-362 | The path rooted at an end has the end points [2]; rerooted at its middle it has [0, 2] |
| Skeletons.StaleEndPointsCache | meshparty/skeleton.py:345-378 | A skeleton whose end points were read before a reroot still reports [2] after it, while its current edges give [0, 2] |
| SkeletonCover.OrientedRanked | meshparty/skeleton.py:357-362 | With finite distances and no ties, every oriented edge goes from a farther vertex to a strictly nearer one |
| SkeletonCover.HoldsAllBelow | meshparty/skeleton.py:388-391 | On a tree, a set closed under parents that holds every end point holds every vertex |
| SkeletonCover.SegmentsUpClosed | meshparty/skeleton.py:444-468 | The vertices of a segment decomposition are closed under taking the parent |
| SkeletonCover.SegmentsCoverTree | meshparty/skeleton.py:435-468 | On a tree with fresh end and branch points, every vertex has a segment-map entry naming a segment that holds it |
| SkeletonCover.DistinctStarts | meshparty/skeleton.py:444-463 | For fresh end and branch points (those of the current edges), distinct segments start at distinct vertices |
| SkeletonCover.TwoChildren | meshparty/skeleton.py:388-390 | A vertex that is the parent of two distinct vertices is a branch point |
| SkeletonCover.SegmentsApart | meshparty/skeleton.py:444-468 | For fresh end and branch points (those of the current edges), two different segments share no vertex |
| SkeletonCover.SegmentsPartitionTree | meshparty/skeleton.py:435-468 | On a tree with fresh end and branch points, every vertex lies in exactly one segment, and the segment map names it |
| SkeletonCover.PathsUpClosed | meshparty/skeleton.py:421-433 | The vertices on the paths of a path decomposition are closed under taking the parent |
| SkeletonCover.PathsCoverTree | meshparty/skeleton.py:398-419 | On a tree whose end points are all at finite distance, every vertex lies on some path |
| Skeletons.ChainSegments | meshparty/skeleton.py:449-463 | On the chain 0-1-2-3 rooted at 0 the only segment decomposition is the whole walk [3, 2, 1, 0], root included |
| Skeletons.StarSegments | meshparty/skeleton.py:464-467 | On a star rooted at its centre there are four one-vertex segments, starting at the three leaves and at the centre |
| ForestIndex.WhereSpec | meshparty/skeleton.py:144-145 | The selected positions are ascending and are exactly those whose element satisfies the test |
| ForestIndex.MembersSpec | meshparty/skeleton.py:53 | `flatnonzero(v_lbls == lbl)` is ascending, distinct, and holds exactly the vertices labelled `lbl` |
| Forests.ComponentSizesCoverAll | meshparty/skeleton.py:47-48 | When the order lists every label once, the component sizes add up to the vertex count |
| ForestIndex.VertexOrderBlock | meshparty/skeleton.py:70-71 | Each vertex's internal index lies in its component's block and is its position among the component's members |
| ForestIndex.VertexOrderInjective | meshparty/skeleton.py:70 | Distinct vertices get distinct internal indices |
| ForestIndex.BlocksCoverAll | meshparty/skeleton.py:51-71 | The blocks of all components together cover exactly the vertex count |
| ForestIndex.VertexOrderIsPermutation | meshparty/skeleton.py:47-71 | `_vertex_order` is a bijection of `0..n-1` |
| ForestIndex.SetBlock | meshparty/skeleton.py:70 | Writing `ind_base + arange` at the members' positions renumbers exactly those positions |
| ForestIndex.VerticesStep | meshparty/skeleton.py:63-70 | Numbering one more component extends the labelled and numbered vertices by its members |
| ForestIndex.EdgesStep | meshparty/skeleton.py:64 | Labelling the component's edges extends the labelled edges by those with both ends in it |
| ForestIndex.LocalRoot | meshparty/skeleton.py:65-66 | A local root is found exactly when the global root is among the component's members, and it is the first position holding it |
| ForestIndex.RootStep | meshparty/skeleton.py:65-69 | The root is recorded as `ind_base` plus its local position when it lies in the component, and kept otherwise |
| ForestIndex.IndexedComplete | meshparty/skeleton.py:51-71 | After every component, the vertex order is the block numbering, every vertex and edge carries its component label, and the root is in the internal numbering exactly when it is a vertex |
| ForestIndex.EdgeFilterSpec | meshparty/skeleton.py:54-57 | The component's edges are ascending, distinct, and exactly those with both ends among its members |
| ForestIndex.LocalEdges | meshparty/skeleton.py:54-57 | The component's edges renumbered into local indices name the same original endpoints |
| ForestIndex.FilterProperties | meshparty/skeleton.py:58-61 | Filtering keeps every property name and gives each array one entry per selected index |
| ForestIndex.FilterPropertiesLocal | meshparty/skeleton.py:58-59 | A member's filtered property value is its original value, at its local position |
| ForestIndex.ShiftedListsStep | meshparty/skeleton.py:161-165 | One more skeleton appends its list shifted by the current offset, and the offset grows by its size only when its list is non-empty |
| ForestIndex.AgglomerateNodes | meshparty/skeleton.py:158-169 | The loop returns the concatenation of the shifted lists, the empty list when all are empty |
| ForestIndex.AgglomeratedEntry | meshparty/skeleton.py:158-169 | Entry `j` of list `k` lands after the earlier lists' entries, moved by the sizes of the earlier skeletons with non-empty lists |
| ForestIndex.NonEmptyBaseAllSizes | meshparty/skeleton.py:163-165 | When no list is empty the offset is the sum of all sizes |
| ForestIndex.EmptyListSkipsOffset | meshparty/skeleton.py:163-165 | A skeleton with an empty list adds nothing to the offset: the next list is not moved past its vertices |
| ForestIndex.RemapVertexList | meshparty/skeleton.py:182-190 | Succeeds exactly when every present index is in `[-n, n)`. It keeps the length, keeps missing entries missing, and maps each present index through the vertex order, negative ones wrapping. Otherwise it raises the index error |
| ForestIndex.RemapAll | meshparty/skeleton.py:77-78 | Remaps every given list under its own name |
| ForestIndex.Inverse | meshparty/skeleton.py:182-190 | The inverse of a permutation sends each internal index back to its original vertex |
| ForestIndex.RemapRoundTrip | meshparty/skeleton.py:182-190 | Remapping a list into the internal numbering and back through the inverse order gives the list back |
| ForestIndex.RemapInverseRoundTrip | meshparty/skeleton.py:182-190 | Remapping back through the inverse and then forward gives the list back |
| ForestIndex.Gather | meshparty/skeleton.py:143-151 | Concatenation succeeds exactly when there is a dictionary and all have the property; a missing property is a key error, and an empty list a value error |
| ForestIndex.GatherEntry | meshparty/skeleton.py:146-151 | Entry `j` of dictionary `k`'s array lands after the earlier arrays' entries |
| Forests.AllBuiltStep | meshparty/skeleton.py:72-75 | Appending a fresh valid skeleton built for the next component extends the built prefix |
| Forests.NumberComponent | meshparty/skeleton.py:63-71 | One pass labels the component's vertices and edges, gives its members the next block, records the root when it lies in it, and advances the base by the member count |
| Forests.BuildSkeleton | meshparty/skeleton.py:54-61 | The component's skeleton has its member count. The vertex properties sit in the mesh-map slot and the edge properties in the vertex-property slot; it has no edge properties. Its local edges are oriented, and it is rooted at the global root when that lies in the component, else at the default root |
| Forests.AppendSkeleton | meshparty/skeleton.py:72-75 | Appends the component's skeleton to those built before it |
| Forests.BuildComponent | meshparty/skeleton.py:52-75 | One iteration numbers the component and appends its skeleton |
| Forests.BuildSkeletons | meshparty/skeleton.py:51-75 | After the loop every component is numbered and has its skeleton, in processing order |
| Forests.FreshArrays | meshparty/skeleton.py:31-33 | Allocates the vertex-component, vertex-order and edge-component arrays as `np.full` does, before any component is numbered |
| Forests.BuildForest | meshparty/skeleton.py:32-75 | The arrays end as the block numbering and the component labels, and the root is in the internal numbering when it is a vertex; the skeletons are built |
| Forests.PointsInRange | meshparty/skeleton.py:158-169 | Concatenated point lists index the forest's vertices |
| Forests.EdgeListsInRange | meshparty/skeleton.py:158-169 | Both ends of every concatenated edge index the forest's vertices |
| Forests.BuiltSizes | meshparty/skeleton.py:89-91 | The skeletons' vertex counts add up to the input's vertex count |
| Forests.SkeletonForest.constructor | meshparty/skeleton.py:30-78 | The vertex order is the block numbering (a permutation). Every vertex and edge carries its component label, and the root is moved into the internal numbering. There is one skeleton per component, built with shifted slots. Every vertex list is stored remapped |
| Forests.SkeletonForest.BuiltValid | meshparty/skeleton.py:72-75 | The built skeletons are distinct and valid, and none has edge properties |
| Forests.SkeletonForest.BuiltKeepsAllVertices | meshparty/skeleton.py:89-91 | `n_vertices` of the built forest equals the input's vertex count |
| Forests.SkeletonForest.BuiltLargestFirst | meshparty/skeleton.py:48-52 | Components processed largest first give skeletons of non-increasing size |
| Forests.SkeletonForest.Edges | meshparty/skeleton.py:93-95 | The `edges` getter concatenates the skeletons' edges with the running offset, and every result edge indexes the forest's vertices |
| Forests.ReadPoints | meshparty/skeleton.py:161-162 | Returns the skeleton's current end or branch points and leaves only its point caches (and binary graph) changed, both now holding the current classification |
| Forests.SkeletonForest.CollectPoints | meshparty/skeleton.py:161-162 | Reads each skeleton's getter in order and returns what each getter returned; every skeleton keeps its edges, root, parents, paths and segments and ends with both point caches filled |
| Forests.SkeletonForest.EndPoints | meshparty/skeleton.py:97-99 | The `end_points` getter concatenates the skeletons' end points with the running offset, and every result indexes the forest's vertices; each skeleton only gains its point caches |
| Forests.SkeletonForest.BranchPoints | meshparty/skeleton.py:101-103 | The `branch_points` getter concatenates the skeletons' branch points with the running offset, and every result indexes the forest's vertices; each skeleton only gains its point caches |
| Forests.SkeletonForest.Branching | meshparty/skeleton.py:144-145 | Ascending positions, holding a skeleton exactly when it has more than one vertex |
| Forests.SkeletonForest.VertexPropertySpec | meshparty/skeleton.py:143-146 | A vertex property succeeds exactly when some skeleton has more than one vertex and all those have the name. A missing name is a key error, and otherwise an empty list a value error |
| Forests.SkeletonForest.VertexPropertyErrors | meshparty/skeleton.py:143-146 | Every failing vertex-property lookup fails with the same error, whatever the name |
| Forests.SkeletonForest.EdgeProperty | meshparty/skeleton.py:148-151 | An edge property succeeds exactly when there is a skeleton and all have the name; a missing name is a key error, and no skeleton a value error |
| Forests.SkeletonForest.VertexProperties | meshparty/skeleton.py:123-128 | No skeleton is an index error. Otherwise it succeeds exactly when every name of the first skeleton concatenates, giving each name's concatenation; a failure carries the error of the failing names |
| Forests.SkeletonForest.EdgeProperties | meshparty/skeleton.py:130-135 | No skeleton is an index error. Otherwise it succeeds exactly when every edge-property name of the first skeleton concatenates, giving each name's concatenation; a failure carries the error of the failing names |
| Forests.SkeletonForest.ShiftedSlotsLoseEdgeProperties | meshparty/skeleton.py:72-75 | With the shifted slots every edge-property lookup fails, and the `edge_properties` getter is the empty dictionary |
| Forests.SkeletonForest.AddVertexList | meshparty/skeleton.py:171-175 | Stores the list as given, or remapped into the internal numbering; a remapping that raises stores nothing |

## Left out

- Vertex coordinates, `vertices` (85-87, 222-224), `path_length`, `_single_path_length`, `distance_to_root`
  and the weighted graphs. These are floating-point geometry. A skeleton keeps only its vertex count, and
  the forest's `n_vertices` is the sum of those counts.
- `kdtree` and `pykdtree` (105-109, 276-286). These wrap spatial-index libraries.
- `load_from_json` and `export_to_swc`. These are file I/O, and `skeleton_io` is not part of this model.
- `utils.create_csgraph`, `utils.reduce_vertices`, `utils.find_far_points_graph`, scipy's `dijkstra` and
  `connected_components`, and `argsort`. Their code is not part of this model, so their results are inputs.
  - A graph getter caches the current edge list itself.
  - The default root is a given vertex, and the hop distances are given with it.
  - The filter `reduce_vertices` returns is modelled as the component's members, and the edges with both
    ends among them.
- `_create_default_root` and the lazy default root of the `root` getter (270-274). The constructor always
  sets a root, so that branch of the getter is never taken.
- The forest's `csgraph` and `csgraph_binary` getters and `_create_csgraph` (111-121, 153-156). These only
  call `utils.create_csgraph`.
- `n_branch_points`, `n_end_points`, `csgraph_undirected`, `csgraph_binary_undirected`, `__getitem__`,
  and the forest's `root` and `vertex_lists` getters. These return a length, a graph sum or a field as it
  is; the fields are modelled directly.
- Property values and vertex-list entries are integers. NaN in a vertex list is `None`, and the float
  arrays numpy builds are not modelled. Also not modelled: the cast `astype(int)` of float list entries,
  and the float type of the empty array `_agglomerate_nodes_across_skeletons` returns.
- Skeletons.Skeleton.constructor: requires a non-empty edge list. `np.vstack` (197) raises `ValueError` on
  an empty one.
- Forests.BuildSkeleton, Forests.AppendSkeleton, Forests.BuildComponent, Forests.BuildSkeletons,
  Forests.BuildForest: require every component to hold an edge (`Forests.EdgesInEveryComponent`). For a
  component that is one isolated vertex the source raises that `ValueError` instead.
- Forests.SkeletonForest.constructor: requires every component to hold an edge, for the same reason.
- Forests.SkeletonForest.constructor: requires every given vertex list to be in range. The source raises
  `IndexError` part-way through construction instead.
- Forests.SkeletonForest.constructor: requires the reports of the graph routines to describe the input
  (`Forests.Reported`): labels that follow the edges, every label processed once, and a default root and
  hop distances per component.
- Forests.SkeletonForest.constructor: requires every property array to hold an entry per vertex or per
  edge. Otherwise numpy raises while filtering.
- Skeletons.Skeleton.Paths: requires the processing order to be a permutation of the end points sorted
  by descending distance. This is what `argsort(...)[::-1]` returns. Ties among equal distances are left to
  that input. `Skeletons.Skeleton.ComputePaths` itself requires only that the order index the end points.
- Skeletons.Skeleton.PathToRoot: requires the parent walk from `v` to end. On a cycle of parent pointers
  the source loops forever.
- Skeletons.Skeleton.PathToRoot: requires `0 <= v < n`. For `v >= n` the source raises `IndexError` at
  `_parent_node_array[vind]` (368), and for a negative `v` numpy counts from the end of the array; neither
  is modelled.
- Skeletons.Skeleton.Reroot: requires `0 <= new_root < n`. For a root outside that range the source first
  sets `_root` and an all-`None` parent array (346-347), and only then does the shortest-path call (349-351)
  fail, leaving the skeleton half updated. Neither the failure nor that half-updated state is modelled.
- Skeletons.Skeleton.constructor: requires the given root, and the default root, to be in `[0, n)`. The
  constructor calls `reroot` (216-220), so a root outside that range fails there as described for
  `Skeletons.Skeleton.Reroot`.
- SkeletonCover.SegmentsPartitionTree, SkeletonCover.PathsCoverTree: stated for tree edges, where no vertex
  is the child of two edges, ranked by hop distance without ties. On other graphs the code makes no such
  promise. `SkeletonCover.OrientedRanked` shows the ranking holds after a reroot with finite, untied
  distances.
- Skeletons.Skeleton.ComputeSegments: its own contract states the decomposition for any end and branch
  points; the partition of the vertices is stated separately, for a tree with fresh points, in
  `SkeletonCover.SegmentsPartitionTree`.
- Skeletons.Skeleton.Segments, Skeletons.Skeleton.SegmentMap: require an acyclic parent array, because
  their walks go through `path_to_root`. `TreeGraph.RerootedParentsAcyclic` shows this holds after a
  reroot with finite distances and no ties.
- Skeletons.Skeleton.UnvisitedPathOnTree: a walk that reaches a vertex without parent is reported as an
  error. The source then evaluates `not visited[None]` (428). Indexing with `None` adds an axis and gives a
  `(1, n)` array, and `not` on that array raises `ValueError` when `n > 1`. The single-vertex case, where
  `not` succeeds and the walk goes on with array indices, is not modelled.
- Forests.SkeletonForest.BuiltLargestFirst: stated for any processing order in which component sizes do
  not increase. The order among components of equal size is whatever `argsort` returns.
- TreeGraph.ChildCountAboveOne: counts edges, so two copies of one edge count twice. The sparse graph
  `create_csgraph` builds would merge them. The code of that routine is not part of this model.
- `meshparty/trimesh_repair.py`. Mesh repair, KD-tree queries and a network client are outside the tree
  engine.
