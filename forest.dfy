/**
 * `SkeletonForest`: one skeleton per connected component of a vertex set.
 * The components are numbered block after block, largest first; the forest
 * remembers each original vertex's internal index, concatenates the
 * skeletons' index lists into its own numbering, and remaps vertex lists
 * given in the original numbering.
 */
module Forests {
  import opened Wrappers
  import opened TreeGraph
  import opened ForestIndex
  import opened Skeletons

  /**
   * What the graph routines the constructor relies on report: the component
   * label of each vertex (`connected_components`), the order in which the
   * components are processed (`argsort` of their sizes, reversed), and for
   * each component the root the skeleton falls back to and the hop distances
   * from the root it is rerooted at.
   */
  datatype Components = Components(labels: seq<nat>, order: seq<nat>, defaultRoots: seq<nat>, hops: seq<seq<Hops>>)

  /** The reports fit the vertices and edges they describe. */
  predicate Reported(c: Components, nVertices: nat, edges: seq<Edge>) {
    && |c.labels| == nVertices && EdgesInRange(edges, nVertices)
    && LabelsFollowEdges(c.labels, edges)
    && ComponentOrder(c.labels, c.order)
    && |c.defaultRoots| == |c.hops| == |c.order|
    && forall k :: 0 <= k < |c.order| ==>
         c.defaultRoots[k] < |Members(c.labels, c.order[k])| && |c.hops[k]| == |Members(c.labels, c.order[k])|
  }

  /**
   * Every component has an edge. The skeleton constructor stacks a
   * component's edges with `np.vstack`, which raises `ValueError` on an empty
   * edge array, so a component made of one isolated vertex stops the forest
   * constructor.
   */
  predicate EdgesInEveryComponent(c: Components, edges: seq<Edge>) {
    forall k :: 0 <= k < |c.order| ==> ComponentEdgeCount(c, edges, k) > 0
  }

  /** The number of edges of component `k`. */
  function ComponentEdgeCount(c: Components, edges: seq<Edge>, k: nat): nat
    requires k < |c.order|
  {
    |EdgeFilter(edges, Members(c.labels, c.order[k]))|
  }

  /** Every property array holds an entry per vertex, or per edge. */
  predicate PropertiesFit(props: Properties, n: nat) {
    forall name :: name in props ==> |props[name]| >= n
  }

  /**
   * Skeleton `k` as the constructor builds it: the component's vertex count,
   * the vertex properties in the mesh-map slot, the edge properties in the
   * vertex-property slot, no edge properties, the renumbered edges oriented
   * towards its root, and the forest's root when it lies in the component.
   */
  ghost predicate BuiltFrom(sk: Skeleton, c: Components, k: nat, edges: seq<Edge>,
                            vertexProperties: Properties, edgeProperties: Properties, root: Option<int>)
    reads sk
  {
    && k < |c.order| && k < |c.hops| && k < |c.defaultRoots|
    && PropertiesFit(vertexProperties, |c.labels|) && PropertiesFit(edgeProperties, |edges|)
    && var members := Members(c.labels, c.order[k]);
       && |c.hops[k]| == |members|
       && sk.nVertices == |members|
       && sk.meshToSkelMap == PropertySlot(FilterProperties(vertexProperties, members))
       && sk.vertexProperties == FilterProperties(edgeProperties, EdgeFilter(edges, members))
       && sk.edgeProperties == map[]
       && sk.edges == OrientAll(LocalEdges(edges, members), c.hops[k])
       && sk.root == (var r := LocalRoot(root, members); if r.Some? then r.value else c.defaultRoots[k])
  }

  /** The skeletons built so far: the first `|skels|` components, distinct objects, each valid. */
  ghost predicate AllBuilt(skels: seq<Skeleton>, c: Components, edges: seq<Edge>,
                           vertexProperties: Properties, edgeProperties: Properties, root: Option<int>)
    reads skels
  {
    && (forall i, j :: 0 <= i < j < |skels| ==> skels[i] != skels[j])
    && forall k :: 0 <= k < |skels| ==>
         skels[k].Valid() && BuiltFrom(skels[k], c, k, edges, vertexProperties, edgeProperties, root)
  }

  /** A skeleton built for the next component, distinct from the earlier ones, extends the built prefix. */
  lemma AllBuiltStep(skels: seq<Skeleton>, sk: Skeleton, c: Components, edges: seq<Edge>,
                     vertexProperties: Properties, edgeProperties: Properties, root: Option<int>)
    requires AllBuilt(skels, c, edges, vertexProperties, edgeProperties, root)
    requires sk !in skels && sk.Valid() && BuiltFrom(sk, c, |skels|, edges, vertexProperties, edgeProperties, root)
    ensures AllBuilt(skels + [sk], c, edges, vertexProperties, edgeProperties, root)
  {
    var all := skels + [sk];
    forall i, j | 0 <= i < j < |all| ensures all[i] != all[j] {
      if j == |skels| {
        assert all[i] in skels;
      }
    }
  }

  /** Property arrays long enough for `n` entries can be read at any index list below `n`. */
  lemma PropertiesFitSelect(props: Properties, idx: seq<nat>, n: nat)
    requires PropertiesFit(props, n) && InRange(idx, n)
    ensures forall name :: name in props ==> InRange(idx, |props[name]|)
  {
  }

  /**
   * One pass of the constructor's loop over the arrays: the vertices and edges
   * of component `order[k]` get its label, its vertices get the next block of
   * internal indices, and the root is recorded if it lies in the component.
   */
  method NumberComponent(vComps: array<Option<nat>>, vOrder: array<nat>, eComps: array<Option<nat>>,
                         labels: seq<nat>, order: seq<nat>, edges: seq<Edge>, root: Option<int>, k: nat,
                         indBase: nat, forestRoot: Option<nat>)
    returns (nextBase: nat, nextRoot: Option<nat>)
    requires vComps != eComps && EdgesInRange(edges, |labels|) && LabelsFollowEdges(labels, edges) && k < |order|
    requires Indexed(labels, order, edges, root, k, vOrder[..], vComps[..], eComps[..], indBase, forestRoot)
    modifies vComps, vOrder, eComps
    ensures Indexed(labels, order, edges, root, k + 1, vOrder[..], vComps[..], eComps[..], nextBase, nextRoot)
    ensures nextBase == indBase + |Members(labels, order[k])|
  {
    var lbl := order[k];
    var members := Members(labels, lbl);
    var eFilter := EdgeFilter(edges, members);
    IndexedStep(labels, order, edges, root, k, vOrder[..], vComps[..], eComps[..], indBase, forestRoot);
    ghost var vo := Renumbered(vOrder[..], members, indBase);
    ghost var vc := Assigned(vComps[..], members, Some(lbl));
    ghost var ec := Assigned(eComps[..], eFilter, Some(lbl));
    var rootF := LocalRoot(root, members);
    nextRoot := if rootF.Some? then Some(indBase + rootF.value) else forestRoot;
    nextBase := indBase + |members|;
    assert Indexed(labels, order, edges, root, k + 1, vo, vc, ec, nextBase, nextRoot);
    SetAll(vComps, members, Some(lbl));
    SetAll(eComps, eFilter, Some(lbl));
    SetBlock(vOrder, members, indBase);
    assert vOrder[..] == vo && vComps[..] == vc && eComps[..] == ec;
  }

  /** Which per-skeleton index list `_agglomerate_nodes_across_skeletons` reads. */
  datatype NodeList = EndPointList | BranchPointList

  /** What each skeleton's getter for `which` returns now, skeleton by skeleton. */
  ghost function PointLists(skels: seq<Skeleton>, which: NodeList): (r: seq<seq<nat>>)
    reads skels
    requires forall k :: 0 <= k < |skels| ==> skels[k].Valid()
    ensures |r| == |skels|
    ensures forall k :: 0 <= k < |skels| ==> InRange(r[k], skels[k].nVertices)
  {
    seq(|skels|, k requires 0 <= k < |skels| && skels[k].Valid() reads skels =>
      if which == EndPointList then skels[k].CurrentEndPoints() else skels[k].CurrentBranchPoints())
  }

  /**
   * What one skeleton's `end_points` or `branch_points` getter changed: both
   * point lists are now cached as the getters answered before the call, the
   * unweighted graph is the one cached before or is built from the edges, and
   * the root, edges, parent array, paths, segments and weighted graph are
   * as they were.
   */
  twostate predicate PointsCached(sk: Skeleton)
    reads sk
  {
    && old(sk.Valid())
    && sk.root == old(sk.root) && sk.edges == old(sk.edges) && sk.parentNodes == old(sk.parentNodes)
    && sk.paths == old(sk.paths) && sk.segments == old(sk.segments) && sk.segmentMap == old(sk.segmentMap)
    && sk.weightedGraph == old(sk.weightedGraph)
    && (sk.binaryGraph == old(sk.binaryGraph) || sk.binaryGraph == Some(sk.edges))
    && sk.endPoints == Some(old(sk.CurrentEndPoints()))
    && sk.branchPoints == Some(old(sk.CurrentBranchPoints()))
  }

  /** The getter for `which` of one skeleton. */
  method ReadPoints(sk: Skeleton, which: NodeList) returns (points: seq<nat>)
    requires sk.Valid()
    modifies sk
    ensures sk.Valid() && PointsCached(sk)
    ensures points == old(if which == EndPointList then sk.CurrentEndPoints() else sk.CurrentBranchPoints())
  {
    if which == EndPointList {
      points := sk.EndPoints();
    } else {
      points := sk.BranchPoints();
    }
  }

  /** The vertex counts of the skeletons add up to the vertex counts of the components numbered. */
  lemma {:induction false} SizesAddUp(sizes: seq<nat>, labels: seq<nat>, order: seq<nat>, k: nat)
    requires |sizes| == |order| && k <= |order|
    requires forall j :: 0 <= j < |order| ==> sizes[j] == |Members(labels, order[j])|
    ensures SumOf(sizes[..k]) == BlockBase(labels, order, k)
    decreases k
  {
    if k > 0 {
      SizesAddUp(sizes, labels, order, k - 1);
      assert sizes[..k][..k - 1] == sizes[..k - 1];
    }
  }

  /**
   * The component sizes `np.unique` counts add up to the vertex count when the
   * listed labels are exactly the labels in use.
   */
  lemma ComponentSizesCoverAll(labels: seq<nat>, order: seq<nat>)
    requires ComponentOrder(labels, order)
    ensures SumOf(ComponentSizes(labels, order)) == |labels|
  {
    var sizes := ComponentSizes(labels, order);
    SizesAddUp(sizes, labels, order, |order|);
    BlocksCoverAll(labels, order);
    assert sizes[..|order|] == sizes;
  }

  /** The running offset never passes the vertex count of the skeletons it has seen. */
  lemma {:induction false} NonEmptyBaseAtMostSum<T>(lists: seq<seq<T>>, sizes: seq<nat>)
    requires |sizes| == |lists|
    ensures NonEmptyBase(lists, sizes) <= SumOf(sizes)
    decreases |lists|
  {
    if lists != [] {
      NonEmptyBaseAtMostSum(lists[..|lists| - 1], sizes[..|sizes| - 1]);
    }
  }

  /**
   * Agglomerated vertex lists index the forest's vertices: each list indexes its
   * own skeleton, and the offset never passes the earlier skeletons' sizes.
   */
  lemma {:induction false} PointsInRange(lists: seq<seq<nat>>, sizes: seq<nat>)
    requires |sizes| == |lists| && forall k :: 0 <= k < |lists| ==> InRange(lists[k], sizes[k])
    ensures InRange(Agglomerated(lists, sizes, ShiftPoint), SumOf(sizes))
    decreases |lists|
  {
    if lists != [] {
      var n := |lists| - 1;
      PointsInRange(lists[..n], sizes[..n]);
      ShiftedListsStep(lists, sizes, ShiftPoint, n);
      NonEmptyBaseAtMostSum(lists[..n], sizes[..n]);
      assert lists[..n + 1] == lists && sizes[..n + 1] == sizes;
      var done := ShiftedLists(lists[..n], sizes[..n], ShiftPoint);
      var last := Shifted(lists[n], NonEmptyBase(lists[..n], sizes[..n]), ShiftPoint);
      assert (done + [last])[..n] == done;
    }
  }

  /** The same for edge lists: both ends of every agglomerated edge index the forest's vertices. */
  lemma {:induction false} EdgeListsInRange(lists: seq<seq<Edge>>, sizes: seq<nat>)
    requires |sizes| == |lists| && forall k :: 0 <= k < |lists| ==> EdgesInRange(lists[k], sizes[k])
    ensures EdgesInRange(Agglomerated(lists, sizes, ShiftEdge), SumOf(sizes))
    decreases |lists|
  {
    if lists != [] {
      var n := |lists| - 1;
      EdgeListsInRange(lists[..n], sizes[..n]);
      ShiftedListsStep(lists, sizes, ShiftEdge, n);
      NonEmptyBaseAtMostSum(lists[..n], sizes[..n]);
      assert lists[..n + 1] == lists && sizes[..n + 1] == sizes;
      var done := ShiftedLists(lists[..n], sizes[..n], ShiftEdge);
      var last := Shifted(lists[n], NonEmptyBase(lists[..n], sizes[..n]), ShiftEdge);
      assert (done + [last])[..n] == done;
    }
  }

  /** Skeletons built for every component have the components' sizes, which add up to the vertex count. */
  lemma BuiltSizes(skels: seq<Skeleton>, c: Components)
    requires |skels| == |c.order| && ComponentOrder(c.labels, c.order)
    requires forall k :: 0 <= k < |skels| ==> skels[k].nVertices == |Members(c.labels, c.order[k])|
    ensures SumOf(SizesOf(skels)) == |c.labels|
  {
    var sizes := SizesOf(skels);
    SizesAddUp(sizes, c.labels, c.order, |c.order|);
    BlocksCoverAll(c.labels, c.order);
    assert sizes[..|c.order|] == sizes;
  }

  /** The vertex count of each skeleton, in order. */
  function SizesOf(skels: seq<Skeleton>): (r: seq<nat>)
    ensures |r| == |skels| && forall k :: 0 <= k < |skels| ==> r[k] == skels[k].nVertices
  {
    seq(|skels|, k requires 0 <= k < |skels| => skels[k].nVertices)
  }

  /** What the forest keeps of the built skeletons: distinct, valid, component-sized, without edge properties. */
  lemma AllBuiltShape(skels: seq<Skeleton>, c: Components, edges: seq<Edge>,
                      vertexProperties: Properties, edgeProperties: Properties, root: Option<int>)
    requires AllBuilt(skels, c, edges, vertexProperties, edgeProperties, root)
    ensures forall i, j :: 0 <= i < j < |skels| ==> skels[i] != skels[j]
    ensures forall k :: 0 <= k < |skels| ==>
      && skels[k].Valid() && skels[k].edgeProperties == map[]
      && k < |c.order| && skels[k].nVertices == |Members(c.labels, c.order[k])|
  {
    forall k | 0 <= k < |skels|
      ensures skels[k].Valid() && skels[k].edgeProperties == map[]
      ensures k < |c.order| && skels[k].nVertices == |Members(c.labels, c.order[k])|
    {
      assert BuiltFrom(skels[k], c, k, edges, vertexProperties, edgeProperties, root);
    }
  }

  /**
   * `Skeleton(vertices_f, edges_f, vertex_properties_f, edge_properties_f,
   * root=root_f)` for component `order[k]`: the filtered property dictionaries
   * land in the slots after the edges, one place further than their names say.
   */
  method BuildSkeleton(nVertices: nat, edges: seq<Edge>, vertexProperties: Properties, edgeProperties: Properties,
                       root: Option<int>, c: Components, k: nat)
    returns (sk: Skeleton)
    requires Reported(c, nVertices, edges) && EdgesInEveryComponent(c, edges) && k < |c.order|
    requires PropertiesFit(vertexProperties, nVertices) && PropertiesFit(edgeProperties, |edges|)
    ensures fresh(sk) && sk.Valid() && BuiltFrom(sk, c, k, edges, vertexProperties, edgeProperties, root)
  {
    var members := Members(c.labels, c.order[k]);
    var eFilter := EdgeFilter(edges, members);
    var rootF := LocalRoot(root, members);
    assert ComponentEdgeCount(c, edges, k) > 0;
    PropertiesFitSelect(vertexProperties, members, nVertices);
    PropertiesFitSelect(edgeProperties, eFilter, |edges|);
    sk := new Skeleton(|members|, LocalEdges(edges, members),
                       PropertySlot(FilterProperties(vertexProperties, members)),
                       FilterProperties(edgeProperties, eFilter), map[],
                       rootF, c.defaultRoots[k], c.hops[k]);
  }

  /** Builds the skeleton of component `k` and appends it to those of the components before it. */
  method AppendSkeleton(nVertices: nat, edges: seq<Edge>, vertexProperties: Properties, edgeProperties: Properties,
                        root: Option<int>, c: Components, k: nat, skels: seq<Skeleton>)
    returns (nextSkels: seq<Skeleton>)
    requires Reported(c, nVertices, edges) && EdgesInEveryComponent(c, edges) && k < |c.order|
    requires PropertiesFit(vertexProperties, nVertices) && PropertiesFit(edgeProperties, |edges|)
    requires |skels| == k && AllBuilt(skels, c, edges, vertexProperties, edgeProperties, root)
    ensures |nextSkels| == k + 1 && AllBuilt(nextSkels, c, edges, vertexProperties, edgeProperties, root)
  {
    ghost var built := AllBuilt(skels, c, edges, vertexProperties, edgeProperties, root);
    var sk := BuildSkeleton(nVertices, edges, vertexProperties, edgeProperties, root, c, k);
    assert forall j :: 0 <= j < |skels| ==> unchanged(skels[j]);
    assert built == AllBuilt(skels, c, edges, vertexProperties, edgeProperties, root);
    AllBuiltStep(skels, sk, c, edges, vertexProperties, edgeProperties, root);
    nextSkels := skels + [sk];
  }

  /**
   * One iteration of the loop of `SkeletonForest.__init__`: numbers component
   * `order[k]` in the arrays and builds its skeleton.
   */
  method BuildComponent(vComps: array<Option<nat>>, vOrder: array<nat>, eComps: array<Option<nat>>,
                        nVertices: nat, edges: seq<Edge>, vertexProperties: Properties, edgeProperties: Properties,
                        root: Option<int>, c: Components, k: nat, skels: seq<Skeleton>, indBase: nat, forestRoot: Option<nat>)
    returns (nextSkels: seq<Skeleton>, nextBase: nat, nextRoot: Option<nat>)
    requires vComps != eComps && Reported(c, nVertices, edges) && EdgesInEveryComponent(c, edges) && k < |c.order|
    requires PropertiesFit(vertexProperties, nVertices) && PropertiesFit(edgeProperties, |edges|)
    requires Indexed(c.labels, c.order, edges, root, k, vOrder[..], vComps[..], eComps[..], indBase, forestRoot)
    requires |skels| == k && AllBuilt(skels, c, edges, vertexProperties, edgeProperties, root)
    modifies vComps, vOrder, eComps
    ensures Indexed(c.labels, c.order, edges, root, k + 1, vOrder[..], vComps[..], eComps[..], nextBase, nextRoot)
    ensures |nextSkels| == k + 1 && AllBuilt(nextSkels, c, edges, vertexProperties, edgeProperties, root)
  {
    nextSkels := AppendSkeleton(nVertices, edges, vertexProperties, edgeProperties, root, c, k, skels);
    ghost var built := AllBuilt(nextSkels, c, edges, vertexProperties, edgeProperties, root);
    label built:
    nextBase, nextRoot := NumberComponent(vComps, vOrder, eComps, c.labels, c.order, edges, root, k, indBase, forestRoot);
    assert forall j :: 0 <= j < |nextSkels| ==> unchanged@built(nextSkels[j]);
    assert built == AllBuilt(nextSkels, c, edges, vertexProperties, edgeProperties, root);
  }

  /**
   * The loop of `SkeletonForest.__init__`: numbers the components one after
   * another and builds a skeleton for each.
   */
  method BuildSkeletons(nVertices: nat, edges: seq<Edge>, vertexProperties: Properties, edgeProperties: Properties,
                        root: Option<int>, c: Components)
    returns (vertexOrder: seq<nat>, vertexComponents: seq<Option<nat>>, edgeComponents: seq<Option<nat>>,
             skels: seq<Skeleton>, forestRoot: Option<nat>)
    requires Reported(c, nVertices, edges) && EdgesInEveryComponent(c, edges)
    requires PropertiesFit(vertexProperties, nVertices) && PropertiesFit(edgeProperties, |edges|)
    ensures Indexed(c.labels, c.order, edges, root, |c.order|, vertexOrder, vertexComponents, edgeComponents,
                    BlockBase(c.labels, c.order, |c.order|), forestRoot)
    ensures |skels| == |c.order| && AllBuilt(skels, c, edges, vertexProperties, edgeProperties, root)
  {
    var vComps, vOrder, eComps := FreshArrays(c.labels, c.order, edges, root);
    skels := [];
    forestRoot := None;
    var indBase: nat := 0;
    for k := 0 to |c.order|
      invariant Indexed(c.labels, c.order, edges, root, k, vOrder[..], vComps[..], eComps[..], indBase, forestRoot)
      invariant |skels| == k
      invariant AllBuilt(skels, c, edges, vertexProperties, edgeProperties, root)
    {
      skels, indBase, forestRoot := BuildComponent(vComps, vOrder, eComps, nVertices, edges, vertexProperties, edgeProperties,
                                                   root, c, k, skels, indBase, forestRoot);
    }
    vertexOrder, vertexComponents, edgeComponents := vOrder[..], vComps[..], eComps[..];
  }

  /** The constructor's arrays before its loop: no vertex or edge labelled, every internal index 0. */
  method FreshArrays(labels: seq<nat>, order: seq<nat>, edges: seq<Edge>, root: Option<int>)
    returns (vComps: array<Option<nat>>, vOrder: array<nat>, eComps: array<Option<nat>>)
    requires ComponentOrder(labels, order) && EdgesInRange(edges, |labels|)
    ensures fresh(vComps) && fresh(vOrder) && fresh(eComps) && vComps != eComps
    ensures Indexed(labels, order, edges, root, 0, vOrder[..], vComps[..], eComps[..], 0, None)
  {
    vComps := new Option<nat>[|labels|](_ => None);
    vOrder := new nat[|labels|](_ => 0);
    eComps := new Option<nat>[|edges|](_ => None);
    assert order[..0] == [];
  }

  /** The constructor's loop, with the arrays in their final state: every vertex and edge labelled, every vertex numbered. */
  method BuildForest(nVertices: nat, edges: seq<Edge>, vertexProperties: Properties, edgeProperties: Properties,
                     root: Option<int>, c: Components)
    returns (vertexOrder: seq<nat>, vertexComponents: seq<Option<nat>>, edgeComponents: seq<Option<nat>>,
             skels: seq<Skeleton>, forestRoot: Option<nat>)
    requires Reported(c, nVertices, edges) && EdgesInEveryComponent(c, edges)
    requires PropertiesFit(vertexProperties, nVertices) && PropertiesFit(edgeProperties, |edges|)
    ensures vertexOrder == VertexOrder(c.labels, c.order)
    ensures |vertexComponents| == nVertices && forall v :: 0 <= v < nVertices ==> vertexComponents[v] == Some(c.labels[v])
    ensures |edgeComponents| == |edges| && forall i :: 0 <= i < |edges| ==> edgeComponents[i] == Some(c.labels[edges[i].0])
    ensures forestRoot == if root.Some? && 0 <= root.value < nVertices then Some(vertexOrder[root.value]) else None
    ensures |skels| == |c.order| && AllBuilt(skels, c, edges, vertexProperties, edgeProperties, root)
  {
    vertexOrder, vertexComponents, edgeComponents, skels, forestRoot :=
      BuildSkeletons(nVertices, edges, vertexProperties, edgeProperties, root, c);
    IndexedComplete(c.labels, c.order, edges, root, vertexOrder, vertexComponents, edgeComponents,
                    BlockBase(c.labels, c.order, |c.order|), forestRoot);
  }

  class SkeletonForest {
    /** `_vertex_components`: the component label of each original vertex. */
    const vertexComponents: seq<Option<nat>>
    /** `_vertex_order`: the internal index of each original vertex. */
    const vertexOrder: seq<nat>
    /** `_edge_components`: the component label of each original edge. */
    const edgeComponents: seq<Option<nat>>
    /** `_skeletons`, one per component. */
    const skeletons: seq<Skeleton>
    /** `_root`, in the internal numbering. */
    const root: Option<nat>
    /** `_vertex_lists`, in the internal numbering when remapped. */
    var vertexLists: map<string, seq<Option<int>>>

    /** The skeletons are distinct objects, each valid. */
    ghost predicate Valid()
      reads skeletons
    {
      && (forall i, j :: 0 <= i < j < |skeletons| ==> skeletons[i] != skeletons[j])
      && (forall k :: 0 <= k < |skeletons| ==> skeletons[k].Valid())
    }

    /** Every skeleton was given an empty edge-property dictionary (the forest's shifted slots). */
    predicate SlotsShifted() {
      forall k :: 0 <= k < |skeletons| ==> skeletons[k].edgeProperties == map[]
    }

    /**
     * `SkeletonForest(vertices, edges, vertex_properties, edge_properties,
     * vertex_lists, root)` for `nVertices` vertices, with the graph routines'
     * reports in `c`. Every vertex list is remapped into the internal numbering.
     */
    constructor (nVertices: nat, edges: seq<Edge>, vertexProperties: Properties, edgeProperties: Properties,
                 vertexLists: map<string, seq<Option<int>>>, root: Option<int>, c: Components)
      requires Reported(c, nVertices, edges) && EdgesInEveryComponent(c, edges)
      requires PropertiesFit(vertexProperties, nVertices) && PropertiesFit(edgeProperties, |edges|)
      requires forall name :: name in vertexLists ==> Indexable(vertexLists[name], nVertices)
      ensures Valid() && SlotsShifted()
      ensures vertexOrder == VertexOrder(c.labels, c.order)
      ensures |vertexComponents| == nVertices && forall v :: 0 <= v < nVertices ==> vertexComponents[v] == Some(c.labels[v])
      ensures |edgeComponents| == |edges| && forall i :: 0 <= i < |edges| ==> edgeComponents[i] == Some(c.labels[edges[i].0])
      ensures this.root == if root.Some? && 0 <= root.value < nVertices then Some(vertexOrder[root.value]) else None
      ensures |skeletons| == |c.order|
      ensures AllBuilt(skeletons, c, edges, vertexProperties, edgeProperties, root)
      ensures this.vertexLists.Keys == vertexLists.Keys
      ensures forall name :: name in vertexLists ==> RemapVertexList(vertexOrder, vertexLists[name]) == Success(this.vertexLists[name])
    {
      var order, vComps, eComps, skels, forestRoot := BuildForest(nVertices, edges, vertexProperties, edgeProperties, root, c);
      this.vertexComponents := vComps;
      this.vertexOrder := order;
      this.edgeComponents := eComps;
      this.skeletons := skels;
      this.root := forestRoot;
      this.vertexLists := RemapAll(order, vertexLists);
      ghost var built := AllBuilt(skels, c, edges, vertexProperties, edgeProperties, root);
      label allocation:
      new;
      assert forall j :: 0 <= j < |skels| ==> unchanged@allocation(skels[j]);
      assert built == AllBuilt(skeletons, c, edges, vertexProperties, edgeProperties, root);
      BuiltValid(c, edges, vertexProperties, edgeProperties, root);
    }

    /** Skeletons built by the constructor make a valid forest whose edge-property slots are empty. */
    lemma BuiltValid(c: Components, edges: seq<Edge>, vertexProperties: Properties, edgeProperties: Properties,
                     root: Option<int>)
      requires AllBuilt(skeletons, c, edges, vertexProperties, edgeProperties, root)
      ensures Valid() && SlotsShifted()
    {
      AllBuiltShape(skeletons, c, edges, vertexProperties, edgeProperties, root);
    }

    /** Built skeletons hold every vertex exactly once between them: `n_vertices` is the input's vertex count. */
    lemma BuiltKeepsAllVertices(c: Components, edges: seq<Edge>, vertexProperties: Properties,
                                edgeProperties: Properties, root: Option<int>)
      requires AllBuilt(skeletons, c, edges, vertexProperties, edgeProperties, root) && |skeletons| == |c.order|
      requires ComponentOrder(c.labels, c.order)
      ensures NVertices() == |c.labels|
    {
      AllBuiltShape(skeletons, c, edges, vertexProperties, edgeProperties, root);
      BuiltSizes(skeletons, c);
    }

    /** Components processed largest first give skeletons in non-increasing size. */
    lemma BuiltLargestFirst(c: Components, edges: seq<Edge>, vertexProperties: Properties,
                            edgeProperties: Properties, root: Option<int>)
      requires AllBuilt(skeletons, c, edges, vertexProperties, edgeProperties, root) && |skeletons| == |c.order|
      requires LargestFirst(c.labels, c.order)
      ensures forall i, j :: 0 <= i < j < |skeletons| ==> skeletons[i].nVertices >= skeletons[j].nVertices
    {
      AllBuiltShape(skeletons, c, edges, vertexProperties, edgeProperties, root);
      var sizes := ComponentSizes(c.labels, c.order);
      forall i, j | 0 <= i < j < |skeletons| ensures skeletons[i].nVertices >= skeletons[j].nVertices {
        assert sizes[i] >= sizes[j];
      }
    }

    /** The vertex count of each skeleton, in order. */
    function Sizes(): seq<nat> {
      SizesOf(skeletons)
    }

    /** `n_vertices`: the vertices of all skeletons together. */
    function NVertices(): nat {
      SumOf(Sizes())
    }

    /** The `edges` getter: every skeleton's edge list, moved into the forest's numbering. */
    method Edges() returns (r: seq<Edge>)
      requires Valid()
      ensures r == Agglomerated(EdgeLists(), Sizes(), ShiftEdge)
      ensures EdgesInRange(r, NVertices())
    {
      r := AgglomerateNodes(EdgeLists(), Sizes(), ShiftEdge);
      EdgeListsInRange(EdgeLists(), Sizes());
    }

    /** Each skeleton's current edges, skeleton by skeleton. */
    function EdgeLists(): (r: seq<seq<Edge>>)
      reads skeletons
      ensures |r| == |skeletons| && forall k :: 0 <= k < |skeletons| ==> r[k] == skeletons[k].edges
    {
      seq(|skeletons|, k requires 0 <= k < |skeletons| reads skeletons => skeletons[k].edges)
    }

    /** Calls the `end_points` or `branch_points` getter of every skeleton, in order. */
    method CollectPoints(which: NodeList) returns (lists: seq<seq<nat>>)
      requires Valid()
      modifies skeletons
      ensures Valid()
      ensures lists == old(PointLists(skeletons, which))
      ensures forall k :: 0 <= k < |skeletons| ==> PointsCached(skeletons[k])
    {
      ghost var before := PointLists(skeletons, which);
      lists := [];
      for k := 0 to |skeletons|
        invariant Valid()
        invariant lists == before[..k]
        invariant forall j :: 0 <= j < k ==> PointsCached(skeletons[j])
        invariant forall j :: k <= j < |skeletons| ==> unchanged(skeletons[j])
      {
        label step:
        var points := ReadPoints(skeletons[k], which);
        assert forall j :: 0 <= j < |skeletons| && j != k ==> unchanged@step(skeletons[j]);
        assert PointsCached(skeletons[k]);
        lists := lists + [points];
      }
    }

    /**
     * The `end_points` getter: every skeleton's end points, moved by the sizes
     * of the earlier skeletons that have end points.
     */
    method EndPoints() returns (r: seq<nat>)
      requires Valid()
      modifies skeletons
      ensures Valid()
      ensures r == Agglomerated(old(PointLists(skeletons, EndPointList)), Sizes(), ShiftPoint)
      ensures InRange(r, NVertices())
      ensures forall k :: 0 <= k < |skeletons| ==> PointsCached(skeletons[k])
    {
      var lists := CollectPoints(EndPointList);
      r := AgglomerateNodes(lists, Sizes(), ShiftPoint);
      PointsInRange(lists, Sizes());
    }

    /**
     * The `branch_points` getter: every skeleton's branch points, moved by the
     * sizes of the earlier skeletons that have branch points.
     */
    method BranchPoints() returns (r: seq<nat>)
      requires Valid()
      modifies skeletons
      ensures Valid()
      ensures r == Agglomerated(old(PointLists(skeletons, BranchPointList)), Sizes(), ShiftPoint)
      ensures InRange(r, NVertices())
      ensures forall k :: 0 <= k < |skeletons| ==> PointsCached(skeletons[k])
    {
      var lists := CollectPoints(BranchPointList);
      r := AgglomerateNodes(lists, Sizes(), ShiftPoint);
      PointsInRange(lists, Sizes());
    }

    /** The positions of the skeletons with more than one vertex. */
    function Branching(): (r: seq<nat>)
      ensures Ascending(r) && InRange(r, |skeletons|)
      ensures forall k :: k in r <==> 0 <= k < |skeletons| && skeletons[k].nVertices > 1
    {
      WhereSpec(skeletons, (sk: Skeleton) => sk.nVertices > 1);
      Where(skeletons, (sk: Skeleton) => sk.nVertices > 1)
    }

    /** The vertex-property dictionaries of the skeletons with more than one vertex, in order. */
    function VertexDicts(): (r: seq<Properties>)
    {
      var picked := Branching();
      seq(|picked|, j requires 0 <= j < |picked| => skeletons[picked[j]].vertexProperties)
    }

    /**
     * `_vertex_property(name)`: the named vertex property of every skeleton with
     * more than one vertex, concatenated.
     */
    function VertexProperty(name: string): Result<seq<int>> {
      Gather(VertexDicts(), name)
    }

    /**
     * The lookup succeeds exactly when some skeleton has more than one vertex
     * and all such skeletons have the property; a missing property is reported
     * before an empty concatenation.
     */
    lemma VertexPropertySpec(name: string)
      ensures VertexProperty(name).Success? <==>
        && (exists k :: 0 <= k < |skeletons| && skeletons[k].nVertices > 1)
        && (forall k :: 0 <= k < |skeletons| && skeletons[k].nVertices > 1 ==> name in skeletons[k].vertexProperties)
      ensures VertexProperty(name).Failure? ==> (VertexProperty(name).error ==
        if exists k :: 0 <= k < |skeletons| && skeletons[k].nVertices > 1 then MissingProperty else NothingToConcatenate)
    {
      var picked := Branching();
      var dicts := VertexDicts();
      WhereSpec(skeletons, (sk: Skeleton) => sk.nVertices > 1);
      var some := exists k :: 0 <= k < |skeletons| && skeletons[k].nVertices > 1;
      var all := forall k :: 0 <= k < |skeletons| && skeletons[k].nVertices > 1 ==> name in skeletons[k].vertexProperties;
      assert some <==> |dicts| > 0 by {
        if some {
          var k :| 0 <= k < |skeletons| && skeletons[k].nVertices > 1;
          assert k in picked;
        }
        if |dicts| > 0 {
          assert picked[0] in picked;
        }
      }
      assert all <==> forall j :: 0 <= j < |dicts| ==> name in dicts[j] by {
        if all {
          forall j | 0 <= j < |dicts| ensures name in dicts[j] {
            assert picked[j] in picked;
          }
        } else {
          var k :| 0 <= k < |skeletons| && skeletons[k].nVertices > 1 && name !in skeletons[k].vertexProperties;
          assert k in picked;
          var j :| 0 <= j < |picked| && picked[j] == k;
          assert name !in dicts[j];
        }
      }
    }

    /** Every failing vertex-property lookup fails for the same reason, whatever the name. */
    lemma VertexPropertyErrors()
      ensures forall name :: VertexProperty(name).Failure? ==> (VertexProperty(name).error ==
        if exists k :: 0 <= k < |skeletons| && skeletons[k].nVertices > 1 then MissingProperty else NothingToConcatenate)
    {
      forall name
        ensures VertexProperty(name).Failure? ==> (VertexProperty(name).error ==
          if exists k :: 0 <= k < |skeletons| && skeletons[k].nVertices > 1 then MissingProperty else NothingToConcatenate)
      {
        VertexPropertySpec(name);
      }
    }

    /** `_edge_property(name)`: the named edge property of every skeleton, concatenated. */
    function EdgeProperty(name: string): (r: Result<seq<int>>)
      ensures r.Success? <==> |skeletons| > 0 && forall k :: 0 <= k < |skeletons| ==> name in skeletons[k].edgeProperties
      ensures r.Failure? ==> (r.error ==
        if exists k :: 0 <= k < |skeletons| && name !in skeletons[k].edgeProperties then MissingProperty else NothingToConcatenate)
    {
      var dicts := seq(|skeletons|, k requires 0 <= k < |skeletons| => skeletons[k].edgeProperties);
      assert forall k :: 0 <= k < |skeletons| ==> dicts[k] == skeletons[k].edgeProperties;
      Gather(dicts, name)
    }

    /**
     * The `vertex_properties` getter: every vertex property named by the first
     * skeleton, concatenated across skeletons. Every failing name raises the
     * same error, so the order in which names are tried does not matter.
     */
    function VertexProperties(): (r: Result<Properties>)
      ensures |skeletons| == 0 ==> r == Failure(NoSkeletons)
      ensures |skeletons| > 0 ==>
        (r.Success? <==> forall name :: name in skeletons[0].vertexProperties ==> VertexProperty(name).Success?)
      ensures r.Success? ==> (r.value.Keys == skeletons[0].vertexProperties.Keys &&
        forall name :: name in r.value ==> VertexProperty(name) == Success(r.value[name]))
      ensures r.Failure? && |skeletons| > 0 ==> forall name ::
        name in skeletons[0].vertexProperties && VertexProperty(name).Failure? ==> VertexProperty(name).error == r.error
    {
      VertexPropertyErrors();
      if |skeletons| == 0 then Failure(NoSkeletons)
      else if forall name :: name in skeletons[0].vertexProperties ==> VertexProperty(name).Success? then
        Success(map name | name in skeletons[0].vertexProperties :: VertexProperty(name).value)
      else if exists k :: 0 <= k < |skeletons| && skeletons[k].nVertices > 1 then Failure(MissingProperty)
      else Failure(NothingToConcatenate)
    }

    /**
     * The `edge_properties` getter: every edge property named by the first
     * skeleton, concatenated across skeletons.
     */
    function EdgeProperties(): (r: Result<Properties>)
      ensures |skeletons| == 0 ==> r == Failure(NoSkeletons)
      ensures |skeletons| > 0 ==>
        (r.Success? <==> forall name :: name in skeletons[0].edgeProperties ==> EdgeProperty(name).Success?)
      ensures r.Success? ==> (r.value.Keys == skeletons[0].edgeProperties.Keys &&
        forall name :: name in r.value ==> EdgeProperty(name) == Success(r.value[name]))
      ensures r.Failure? && |skeletons| > 0 ==> forall name ::
        name in skeletons[0].edgeProperties && EdgeProperty(name).Failure? ==> EdgeProperty(name).error == r.error
    {
      if |skeletons| == 0 then Failure(NoSkeletons)
      else if forall name :: name in skeletons[0].edgeProperties ==> EdgeProperty(name).Success? then
        Success(map name | name in skeletons[0].edgeProperties :: EdgeProperty(name).value)
      else Failure(MissingProperty)
    }

    /**
     * With the shifted slots no skeleton has edge properties: every edge
     * property lookup fails, and the `edge_properties` getter is empty.
     */
    lemma ShiftedSlotsLoseEdgeProperties(name: string)
      requires SlotsShifted()
      ensures EdgeProperty(name) == Failure(if |skeletons| > 0 then MissingProperty else NothingToConcatenate)
      ensures |skeletons| > 0 ==> EdgeProperties() == Success(map[])
    {
      if |skeletons| > 0 {
        assert name !in skeletons[0].edgeProperties;
      }
    }

    /**
     * `add_vertex_list`: stores the list as given, or remapped into the
     * internal numbering; a failed remapping raises and stores nothing.
     */
    method AddVertexList(name: string, vertexList: seq<Option<int>>, remapFromOriginalOrder: bool)
      returns (r: Result<seq<Option<int>>>)
      modifies this`vertexLists
      ensures r == if remapFromOriginalOrder then RemapVertexList(vertexOrder, vertexList) else Success(vertexList)
      ensures vertexLists == if r.Success? then old(vertexLists)[name := r.value] else old(vertexLists)
    {
      if remapFromOriginalOrder {
        r := RemapVertexList(vertexOrder, vertexList);
      } else {
        r := Success(vertexList);
      }
      if r.Success? {
        vertexLists := vertexLists[name := r.value];
      }
    }
  }
}
