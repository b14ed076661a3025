/**
 * The index bookkeeping of the skeleton forest: the vertices of each
 * connected component, the contiguous block of internal indices each
 * component receives, the renumbered edges and property arrays handed to the
 * per-component skeletons, the offset concatenation of per-skeleton index
 * lists, and the remapping of externally supplied vertex lists.
 */
module ForestIndex {
  import opened Wrappers
  import opened TreeGraph
  import Skeletons

  /** `np.flatnonzero(p(s))`: the positions of `s` whose element satisfies `p`, ascending. */
  function Where<T>(s: seq<T>, p: T -> bool): (r: seq<nat>)
    ensures InRange(r, |s|)
    decreases |s|
  {
    if s == [] then []
    else
      var i := |s| - 1;
      Where(s[..i], p) + (if p(s[i]) then [i] else [])
  }

  lemma {:induction false} WhereSpec<T>(s: seq<T>, p: T -> bool)
    ensures Ascending(Where(s, p))
    ensures forall i: nat :: i in Where(s, p) <==> i < |s| && p(s[i])
    decreases |s|
  {
    if s != [] {
      var i := |s| - 1;
      var prefix := s[..i];
      WhereSpec(prefix, p);
      assert forall j :: 0 <= j < i ==> prefix[j] == s[j];
    }
  }

  /** `np.flatnonzero(v_lbls == lbl)`: the vertices of the component labelled `lbl`. */
  function Members(labels: seq<nat>, lbl: nat): (r: seq<nat>)
    ensures InRange(r, |labels|)
  {
    Where(labels, l => l == lbl)
  }

  /** The members of a component are its vertices, each once and in ascending order. */
  lemma MembersSpec(labels: seq<nat>, lbl: nat)
    ensures Ascending(Members(labels, lbl)) && Distinct(Members(labels, lbl))
    ensures forall v: nat :: v in Members(labels, lbl) <==> v < |labels| && labels[v] == lbl
  {
    WhereSpec(labels, l => l == lbl);
  }

  /** `np.where(x == s)[0][0]`: the first position of `x` in `s`. */
  function IndexOf(s: seq<nat>, x: nat): (i: nat)
    requires x in s
    ensures i < |s| && s[i] == x && x !in s[..i]
  {
    if s[0] == x then 0
    else
      var j := IndexOf(s[1..], x);
      assert s[..1 + j] == [s[0]] + s[1..][..j];
      1 + j
  }

  /** In a list without repeats, the position of the element at `i` is `i`. */
  lemma IndexOfDistinct(s: seq<nat>, i: nat)
    requires Distinct(s) && i < |s|
    ensures IndexOf(s, s[i]) == i
  {
    var j := IndexOf(s, s[i]);
    assert s[j] == s[i];
  }

  /** `ind_base` once the first `k` components of `order` are numbered: their vertex counts added up. */
  function BlockBase(labels: seq<nat>, order: seq<nat>, k: nat): nat
    requires k <= |order|
  {
    if k == 0 then 0 else BlockBase(labels, order, k - 1) + |Members(labels, order[k - 1])|
  }

  /** `order` lists each label in use exactly once, as `np.unique` then `argsort` give it. */
  predicate ComponentOrder(labels: seq<nat>, order: seq<nat>) {
    && Distinct(order)
    && (forall v :: 0 <= v < |labels| ==> labels[v] in order)
  }

  /**
   * `lbls[argsort(count)[::-1]]`: every listed label names a component with
   * vertices, and components with more vertices come first.
   */
  predicate LargestFirst(labels: seq<nat>, order: seq<nat>) {
    var sizes := ComponentSizes(labels, order);
    && (forall k :: 0 <= k < |sizes| ==> sizes[k] > 0)
    && (forall i, j :: 0 <= i < j < |sizes| ==> sizes[i] >= sizes[j])
  }

  /** The vertex count of each listed component, in order. */
  function ComponentSizes(labels: seq<nat>, order: seq<nat>): (r: seq<nat>)
    ensures |r| == |order| && forall k :: 0 <= k < |order| ==> r[k] == |Members(labels, order[k])|
  {
    seq(|order|, k requires 0 <= k < |order| => |Members(labels, order[k])|)
  }

  /** The position of vertex `v` among the vertices of its own component. */
  function LocalIndex(labels: seq<nat>, v: nat): (i: nat)
    requires v < |labels|
    ensures i < |Members(labels, labels[v])| && Members(labels, labels[v])[i] == v
  {
    MembersSpec(labels, labels[v]);
    IndexOf(Members(labels, labels[v]), v)
  }

  /**
   * The internal index of every original vertex (`_vertex_order`): the base of
   * its component's block plus its position within the component.
   */
  function VertexOrder(labels: seq<nat>, order: seq<nat>): (r: seq<nat>)
    requires forall v :: 0 <= v < |labels| ==> labels[v] in order
    ensures |r| == |labels|
  {
    seq(|labels|, v requires 0 <= v < |labels| =>
      BlockBase(labels, order, IndexOf(order, labels[v])) + LocalIndex(labels, v))
  }

  lemma {:induction false} BlockBaseMonotone(labels: seq<nat>, order: seq<nat>, i: nat, j: nat)
    requires i <= j <= |order|
    ensures BlockBase(labels, order, i) <= BlockBase(labels, order, j)
    decreases j
  {
    if i < j {
      BlockBaseMonotone(labels, order, i, j - 1);
    }
  }

  /**
   * Vertex `v` lands in the block of its component, `ind_base .. ind_base+len-1`,
   * at its position within the component.
   */
  lemma VertexOrderBlock(labels: seq<nat>, order: seq<nat>, v: nat)
    requires ComponentOrder(labels, order) && v < |labels|
    ensures IndexOf(order, labels[v]) < |order|
    ensures BlockBase(labels, order, IndexOf(order, labels[v])) <= VertexOrder(labels, order)[v]
    ensures VertexOrder(labels, order)[v] < BlockBase(labels, order, IndexOf(order, labels[v]) + 1)
    ensures Members(labels, labels[v])[VertexOrder(labels, order)[v] - BlockBase(labels, order, IndexOf(order, labels[v]))] == v
  {
  }

  /** No two vertices share an internal index. */
  lemma VertexOrderInjective(labels: seq<nat>, order: seq<nat>, v: nat, w: nat)
    requires ComponentOrder(labels, order) && v < |labels| && w < |labels| && v != w
    ensures VertexOrder(labels, order)[v] != VertexOrder(labels, order)[w]
  {
    VertexOrderBlock(labels, order, v);
    VertexOrderBlock(labels, order, w);
    var kv, kw := IndexOf(order, labels[v]), IndexOf(order, labels[w]);
    if kv == kw {
      assert labels[v] == order[kv] == labels[w];
    } else if kv < kw {
      BlockBaseMonotone(labels, order, kv + 1, kw);
    } else {
      BlockBaseMonotone(labels, order, kw + 1, kv);
    }
  }

  /** A list without repeats has as many elements as the set of its elements. */
  lemma {:induction false} DistinctCard(s: seq<nat>, elems: set<nat>)
    requires Distinct(s) && forall x :: x in s <==> x in elems
    ensures |elems| == |s|
    decreases |s|
  {
    if s != [] {
      var prefix := s[..|s| - 1];
      var x := s[|s| - 1];
      assert forall y :: y in prefix ==> y in s;
      DistinctCard(prefix, elems - {x});
    }
  }

  /** The indices `0 .. n-1`. */
  function Range(n: nat): (r: set<nat>)
    ensures |r| == n && forall v: nat :: v in r <==> v < n
  {
    if n == 0 then {} else Range(n - 1) + {n - 1}
  }

  lemma SubsetCard(a: set<nat>, b: set<nat>)
    requires a <= b
    ensures |a| <= |b|
  {
    assert b == a + (b - a);
  }

  /** A list of `n` distinct indices below `n` holds every index below `n`. */
  lemma Pigeonhole(s: seq<nat>)
    requires InRange(s, |s|) && Distinct(s)
    ensures forall i :: 0 <= i < |s| ==> i in s
  {
    var image := set x | x in s;
    DistinctCard(s, image);
    forall i | 0 <= i < |s| ensures i in s {
      if i !in s {
        SubsetCard(image, Range(|s|) - {i});
      }
    }
  }

  /** The vertices of component `lbl`, as a set. */
  ghost function MemberSet(labels: seq<nat>, lbl: nat): set<nat> {
    set v | 0 <= v < |labels| && labels[v] == lbl
  }

  /** The vertices of the first `k` components of `order`. */
  ghost function Labelled(labels: seq<nat>, order: seq<nat>, k: nat): set<nat>
    requires k <= |order|
  {
    if k == 0 then {} else Labelled(labels, order, k - 1) + MemberSet(labels, order[k - 1])
  }

  lemma {:induction false} LabelledSpec(labels: seq<nat>, order: seq<nat>, k: nat)
    requires k <= |order|
    ensures forall v: nat :: v in Labelled(labels, order, k) <==> v < |labels| && labels[v] in order[..k]
    decreases k
  {
    if k > 0 {
      LabelledSpec(labels, order, k - 1);
      assert order[..k] == order[..k - 1] + [order[k - 1]];
    }
  }

  /** A component's vertices are not among those of the components before it. */
  lemma LabelledDisjoint(labels: seq<nat>, order: seq<nat>, k: nat)
    requires Distinct(order) && k < |order|
    ensures Labelled(labels, order, k) * MemberSet(labels, order[k]) == {}
  {
    LabelledSpec(labels, order, k);
    NextLabel(order, k);
  }

  /** `ind_base` counts the vertices of the components numbered so far. */
  lemma {:induction false} BlockBaseCounts(labels: seq<nat>, order: seq<nat>, k: nat)
    requires Distinct(order) && k <= |order|
    ensures BlockBase(labels, order, k) == |Labelled(labels, order, k)|
    decreases k
  {
    if k > 0 {
      BlockBaseCounts(labels, order, k - 1);
      MembersCard(labels, order[k - 1]);
      LabelledDisjoint(labels, order, k - 1);
      DisjointUnionCard(Labelled(labels, order, k - 1), MemberSet(labels, order[k - 1]));
    }
  }

  lemma MembersCard(labels: seq<nat>, lbl: nat)
    ensures |Members(labels, lbl)| == |MemberSet(labels, lbl)|
  {
    MembersSpec(labels, lbl);
    DistinctCard(Members(labels, lbl), MemberSet(labels, lbl));
  }

  lemma DisjointUnionCard(a: set<nat>, b: set<nat>)
    requires a * b == {}
    ensures |a + b| == |a| + |b|
  {
  }

  /** The blocks of all components together cover exactly `0 .. n-1`. */
  lemma BlocksCoverAll(labels: seq<nat>, order: seq<nat>)
    requires ComponentOrder(labels, order)
    ensures BlockBase(labels, order, |order|) == |labels|
  {
    BlockBaseCounts(labels, order, |order|);
    LabelledSpec(labels, order, |order|);
    assert order[..|order|] == order;
    assert Labelled(labels, order, |order|) == Range(|labels|);
  }

  /** Every internal index lies below the vertex count. */
  lemma VertexOrderBounded(labels: seq<nat>, order: seq<nat>)
    requires ComponentOrder(labels, order)
    ensures InRange(VertexOrder(labels, order), |labels|)
  {
    BlocksCoverAll(labels, order);
    forall v | 0 <= v < |labels| ensures VertexOrder(labels, order)[v] < |labels| {
      VertexOrderBlock(labels, order, v);
      BlockBaseMonotone(labels, order, IndexOf(order, labels[v]) + 1, |order|);
    }
  }

  /** `_vertex_order` is a bijection of the vertices onto `0 .. n-1`. */
  lemma VertexOrderIsPermutation(labels: seq<nat>, order: seq<nat>)
    requires ComponentOrder(labels, order)
    ensures InRange(VertexOrder(labels, order), |labels|) && Distinct(VertexOrder(labels, order))
    ensures forall i :: 0 <= i < |labels| ==> i in VertexOrder(labels, order)
  {
    var vo := VertexOrder(labels, order);
    VertexOrderBounded(labels, order);
    forall v, w | 0 <= v < w < |labels| ensures vo[v] != vo[w] {
      VertexOrderInjective(labels, order, v, w);
    }
    Pigeonhole(vo);
  }

  /** Every edge joins two vertices of one component, as `connected_components` guarantees. */
  predicate LabelsFollowEdges(labels: seq<nat>, edges: seq<Edge>)
    requires EdgesInRange(edges, |labels|)
  {
    forall i :: 0 <= i < |edges| ==> labels[edges[i].0] == labels[edges[i].1]
  }

  /**
   * `_vertex_order` and `_vertex_components` once the first `k` components are
   * numbered: their vertices hold their final index and label, the others the
   * initial 0 and `None`.
   */
  ghost predicate VerticesIndexed(labels: seq<nat>, order: seq<nat>, k: nat,
                                  vertexOrder: seq<nat>, vertexComponents: seq<Option<nat>>)
  {
    && ComponentOrder(labels, order) && k <= |order|
    && |vertexOrder| == |vertexComponents| == |labels|
    && forall v :: 0 <= v < |labels| ==>
         if labels[v] in order[..k] then vertexOrder[v] == VertexOrder(labels, order)[v] && vertexComponents[v] == Some(labels[v])
         else vertexOrder[v] == 0 && vertexComponents[v].None?
  }

  /** `_edge_components` once the first `k` components are numbered. */
  ghost predicate EdgesIndexed(labels: seq<nat>, order: seq<nat>, edges: seq<Edge>, k: nat, edgeComponents: seq<Option<nat>>)
  {
    && EdgesInRange(edges, |labels|) && k <= |order| && |edgeComponents| == |edges|
    && forall i :: 0 <= i < |edges| ==>
         edgeComponents[i] == if labels[edges[i].0] in order[..k] then Some(labels[edges[i].0]) else None
  }

  /**
   * `_root` once the first `k` components are numbered: set, to the root's
   * entry of `_vertex_order`, only when the root's component is among them.
   */
  ghost predicate RootIndexed(labels: seq<nat>, order: seq<nat>, root: Option<int>, k: nat,
                              vertexOrder: seq<nat>, forestRoot: Option<nat>)
  {
    && k <= |order| && |vertexOrder| == |labels|
    && forestRoot == if root.Some? && 0 <= root.value < |labels| && labels[root.value] in order[..k]
                     then Some(vertexOrder[root.value]) else None
  }

  /** The state of `SkeletonForest.__init__` after numbering the first `k` components, `ind_base` included. */
  ghost predicate Indexed(labels: seq<nat>, order: seq<nat>, edges: seq<Edge>, root: Option<int>, k: nat,
                          vertexOrder: seq<nat>, vertexComponents: seq<Option<nat>>,
                          edgeComponents: seq<Option<nat>>, indBase: nat, forestRoot: Option<nat>)
  {
    && VerticesIndexed(labels, order, k, vertexOrder, vertexComponents)
    && EdgesIndexed(labels, order, edges, k, edgeComponents)
    && RootIndexed(labels, order, root, k, vertexOrder, forestRoot)
    && indBase == BlockBase(labels, order, k)
  }

  /** Once every component is numbered, the arrays hold their final contents and `ind_base` counts every vertex. */
  lemma IndexedComplete(labels: seq<nat>, order: seq<nat>, edges: seq<Edge>, root: Option<int>,
                        vertexOrder: seq<nat>, vertexComponents: seq<Option<nat>>,
                        edgeComponents: seq<Option<nat>>, indBase: nat, forestRoot: Option<nat>)
    requires Indexed(labels, order, edges, root, |order|, vertexOrder, vertexComponents, edgeComponents, indBase, forestRoot)
    ensures vertexOrder == VertexOrder(labels, order)
    ensures |vertexComponents| == |labels| && forall v :: 0 <= v < |labels| ==> vertexComponents[v] == Some(labels[v])
    ensures |edgeComponents| == |edges| && forall i :: 0 <= i < |edges| ==> edgeComponents[i] == Some(labels[edges[i].0])
    ensures forestRoot == if root.Some? && 0 <= root.value < |labels| then Some(vertexOrder[root.value]) else None
    ensures indBase == |labels|
  {
    assert order[..|order|] == order;
    BlocksCoverAll(labels, order);
  }

  /** `filters[1]`: the edges with both ends in the component, ascending. */
  function EdgeFilter(edges: seq<Edge>, members: seq<nat>): (r: seq<nat>)
    ensures InRange(r, |edges|)
  {
    Where(edges, (e: Edge) => e.0 in members && e.1 in members)
  }

  lemma EdgeFilterSpec(edges: seq<Edge>, members: seq<nat>)
    ensures Ascending(EdgeFilter(edges, members)) && Distinct(EdgeFilter(edges, members))
    ensures forall i: nat :: i in EdgeFilter(edges, members) <==> i < |edges| && edges[i].0 in members && edges[i].1 in members
  {
    WhereSpec(edges, (e: Edge) => e.0 in members && e.1 in members);
  }

  /**
   * `a[idx] = base + np.arange(len(idx))` on a list without repeats: the `j`-th
   * listed position gets `base + j`, all others keep their value.
   */
  function Renumbered(s: seq<nat>, idx: seq<nat>, base: nat): (r: seq<nat>)
    requires Distinct(idx)
    ensures |r| == |s|
  {
    seq(|s|, v requires 0 <= v < |s| => if v in idx then base + IndexOf(idx, v) else s[v])
  }

  method SetBlock(a: array<nat>, idx: seq<nat>, base: nat)
    requires InRange(idx, a.Length) && Distinct(idx)
    modifies a
    ensures a[..] == Renumbered(old(a[..]), idx, base)
  {
    ghost var before := a[..];
    for j := 0 to |idx|
      invariant forall v :: 0 <= v < a.Length ==> a[v] == if v in idx[..j] then base + IndexOf(idx, v) else before[v]
    {
      assert idx[..j + 1] == idx[..j] + [idx[j]];
      IndexOfDistinct(idx, j);
      a[idx[j]] := base + j;
    }
    assert idx[..|idx|] == idx;
  }

  /** The labels numbered after `k + 1` passes: those after `k` and the `k`-th. */
  lemma NextLabel(order: seq<nat>, k: nat)
    requires Distinct(order) && k < |order|
    ensures forall l :: l in order[..k + 1] <==> l in order[..k] || l == order[k]
    ensures order[k] !in order[..k] && IndexOf(order, order[k]) == k
  {
    assert order[..k + 1] == order[..k] + [order[k]];
    IndexOfDistinct(order, k);
  }

  /** A vertex of the `k`-th component gets `ind_base` plus its position among the component's vertices. */
  lemma MemberOrder(labels: seq<nat>, order: seq<nat>, k: nat, v: nat)
    requires ComponentOrder(labels, order) && k < |order| && v in Members(labels, order[k])
    ensures v < |labels| && labels[v] == order[k]
    ensures VertexOrder(labels, order)[v] == BlockBase(labels, order, k) + IndexOf(Members(labels, order[k]), v)
  {
    MembersSpec(labels, order[k]);
    NextLabel(order, k);
  }

  lemma VerticesStep(labels: seq<nat>, order: seq<nat>, k: nat,
                     vertexOrder: seq<nat>, vertexComponents: seq<Option<nat>>)
    requires VerticesIndexed(labels, order, k, vertexOrder, vertexComponents) && k < |order|
    ensures Distinct(Members(labels, order[k]))
    ensures VerticesIndexed(labels, order, k + 1,
                            Renumbered(vertexOrder, Members(labels, order[k]), BlockBase(labels, order, k)),
                            Assigned(vertexComponents, Members(labels, order[k]), Some(order[k])))
  {
    var members := Members(labels, order[k]);
    MembersSpec(labels, order[k]);
    NextLabel(order, k);
    forall v | 0 <= v < |labels| && v in members
      ensures VertexOrder(labels, order)[v] == BlockBase(labels, order, k) + IndexOf(members, v)
    {
      MemberOrder(labels, order, k, v);
    }
  }

  lemma EdgesStep(labels: seq<nat>, order: seq<nat>, edges: seq<Edge>, k: nat, edgeComponents: seq<Option<nat>>)
    requires EdgesIndexed(labels, order, edges, k, edgeComponents) && LabelsFollowEdges(labels, edges)
    requires Distinct(order) && k < |order|
    ensures EdgesIndexed(labels, order, edges, k + 1,
                         Assigned(edgeComponents, EdgeFilter(edges, Members(labels, order[k])), Some(order[k])))
  {
    MembersSpec(labels, order[k]);
    EdgeFilterSpec(edges, Members(labels, order[k]));
    NextLabel(order, k);
  }

  /** The position of the forest's root among the vertices of component `members`, if it is one of them. */
  function LocalRoot(root: Option<int>, members: seq<nat>): (r: Option<nat>)
    ensures r.Some? <==> root.Some? && root.value >= 0 && root.value as nat in members
    ensures r.Some? ==> r.value < |members| && root == Some(members[r.value] as int)
    ensures r.Some? ==> root.value as nat !in members[..r.value]
  {
    if root.Some? && root.value >= 0 && root.value as nat in members then Some(IndexOf(members, root.value as nat)) else None
  }

  lemma RootStep(labels: seq<nat>, order: seq<nat>, root: Option<int>, k: nat,
                 vertexOrder: seq<nat>, indBase: nat, forestRoot: Option<nat>)
    requires RootIndexed(labels, order, root, k, vertexOrder, forestRoot) && Distinct(order) && k < |order|
    requires Distinct(Members(labels, order[k]))
    ensures RootIndexed(labels, order, root, k + 1, Renumbered(vertexOrder, Members(labels, order[k]), indBase),
              if LocalRoot(root, Members(labels, order[k])).Some?
              then Some(indBase + LocalRoot(root, Members(labels, order[k])).value)
              else forestRoot)
  {
    NextLabel(order, k);
    if root.Some? && 0 <= root.value < |labels| {
      var v := root.value as nat;
      if v in Members(labels, order[k]) {
        MembersSpec(labels, order[k]);
        assert labels[v] in order[..k + 1];
      } else {
        NotMember(labels, order[k], v);
        assert labels[v] in order[..k + 1] <==> labels[v] in order[..k];
      }
    }
  }

  lemma NotMember(labels: seq<nat>, lbl: nat, v: nat)
    requires v < |labels| && v !in Members(labels, lbl)
    ensures labels[v] != lbl
  {
    MembersSpec(labels, lbl);
  }

  /**
   * One component numbered: the three arrays get its labels and block, the
   * root moves into the block when it lies there, and `ind_base` grows by the
   * component's size.
   */
  lemma IndexedStep(labels: seq<nat>, order: seq<nat>, edges: seq<Edge>, root: Option<int>, k: nat,
                    vertexOrder: seq<nat>, vertexComponents: seq<Option<nat>>,
                    edgeComponents: seq<Option<nat>>, indBase: nat, forestRoot: Option<nat>)
    requires EdgesInRange(edges, |labels|) && LabelsFollowEdges(labels, edges) && k < |order|
    requires Indexed(labels, order, edges, root, k, vertexOrder, vertexComponents, edgeComponents, indBase, forestRoot)
    ensures Distinct(Members(labels, order[k]))
    ensures var members := Members(labels, order[k]);
      var rootF := LocalRoot(root, members);
      Indexed(labels, order, edges, root, k + 1,
              Renumbered(vertexOrder, members, indBase), Assigned(vertexComponents, members, Some(order[k])),
              Assigned(edgeComponents, EdgeFilter(edges, members), Some(order[k])),
              indBase + |members|, if rootF.Some? then Some(indBase + rootF.value) else forestRoot)
  {
    VerticesStep(labels, order, k, vertexOrder, vertexComponents);
    EdgesStep(labels, order, edges, k, edgeComponents);
    RootStep(labels, order, root, k, vertexOrder, indBase, forestRoot);
  }

  /** `np.array(values)[idx]`: the values at the listed positions, in that order. */
  function Select(values: seq<int>, idx: seq<nat>): (r: seq<int>)
    requires InRange(idx, |values|)
    ensures |r| == |idx|
  {
    seq(|idx|, j requires 0 <= j < |idx| => values[idx[j]])
  }

  /** `{n: np.array(v)[idx] for n, v in props.items()}`. */
  function FilterProperties(props: Skeletons.Properties, idx: seq<nat>): (r: Skeletons.Properties)
    requires forall name :: name in props ==> InRange(idx, |props[name]|)
    ensures r.Keys == props.Keys
    ensures forall name :: name in props ==> |r[name]| == |idx|
  {
    map name | name in props :: Select(props[name], idx)
  }

  /** A filtered property read at a vertex's local position is the original property at that vertex. */
  lemma FilterPropertiesLocal(props: Skeletons.Properties, members: seq<nat>, name: string, v: nat)
    requires forall name :: name in props ==> InRange(members, |props[name]|)
    requires name in props && v in members
    ensures FilterProperties(props, members)[name][IndexOf(members, v)] == props[name][v]
  {
  }

  /**
   * `edges_f`: the edges with both ends in the component, each end renumbered to
   * its position among the component's vertices.
   */
  function LocalEdges(edges: seq<Edge>, members: seq<nat>): (r: seq<Edge>)
    ensures |r| == |EdgeFilter(edges, members)| && EdgesInRange(r, |members|)
    ensures forall j :: 0 <= j < |r| ==>
      members[r[j].0] == edges[EdgeFilter(edges, members)[j]].0 && members[r[j].1] == edges[EdgeFilter(edges, members)[j]].1
  {
    var f := EdgeFilter(edges, members);
    EdgeFilterSpec(edges, members);
    seq(|f|, j requires 0 <= j < |f| => (IndexOf(members, edges[f[j]].0), IndexOf(members, edges[f[j]].1)))
  }

  /** `node_inds + n_shift` for a list of vertices. */
  function ShiftPoint(v: nat, shift: nat): nat {
    v + shift
  }

  /** `node_inds + n_shift` for an edge list: both ends move. */
  function ShiftEdge(e: Edge, shift: nat): Edge {
    (e.0 + shift, e.1 + shift)
  }

  function Shifted<T>(s: seq<T>, shift: nat, move: (T, nat) -> T): (r: seq<T>)
    ensures |r| == |s| && forall i :: 0 <= i < |s| ==> r[i] == move(s[i], shift)
  {
    seq(|s|, i requires 0 <= i < |s| => move(s[i], shift))
  }

  /** `np.concatenate(lists)` on a list that is not empty, or the empty result. */
  function Flatten<T>(lists: seq<seq<T>>): seq<T>
    decreases |lists|
  {
    if lists == [] then [] else Flatten(lists[..|lists| - 1]) + lists[|lists| - 1]
  }

  /** The number of entries of all lists together. */
  function Total<T>(lists: seq<seq<T>>): nat
    decreases |lists|
  {
    if lists == [] then 0 else Total(lists[..|lists| - 1]) + |lists[|lists| - 1]|
  }

  function SumOf(sizes: seq<nat>): nat
    decreases |sizes|
  {
    if sizes == [] then 0 else SumOf(sizes[..|sizes| - 1]) + sizes[|sizes| - 1]
  }

  /** Entry `j` of list `k` sits, in the concatenation, after all entries of the earlier lists. */
  lemma {:induction false} FlattenEntry<T>(lists: seq<seq<T>>, k: nat, j: nat)
    requires k < |lists| && j < |lists[k]|
    ensures |Flatten(lists)| == Total(lists)
    ensures Total(lists[..k]) + j < Total(lists)
    ensures Flatten(lists)[Total(lists[..k]) + j] == lists[k][j]
    decreases |lists|
  {
    var last := |lists| - 1;
    var prefix := lists[..last];
    FlattenLength(prefix);
    if k < last {
      FlattenEntry(prefix, k, j);
      assert prefix[..k] == lists[..k];
    } else {
      assert lists[..k] == prefix;
    }
  }

  lemma {:induction false} FlattenLength<T>(lists: seq<seq<T>>)
    ensures |Flatten(lists)| == Total(lists)
    decreases |lists|
  {
    if lists != [] {
      FlattenLength(lists[..|lists| - 1]);
    }
  }

  /** `n_shift` after the given skeletons: the sizes of those whose list was non-empty. */
  function NonEmptyBase<T>(lists: seq<seq<T>>, sizes: seq<nat>): nat
    requires |sizes| == |lists|
    decreases |lists|
  {
    if lists == [] then 0
    else
      var k := |lists| - 1;
      NonEmptyBase(lists[..k], sizes[..k]) + if |lists[k]| > 0 then sizes[k] else 0
  }

  /** Each list shifted by the `n_shift` in force when the loop reaches it. */
  function ShiftedLists<T>(lists: seq<seq<T>>, sizes: seq<nat>, move: (T, nat) -> T): (r: seq<seq<T>>)
    requires |sizes| == |lists|
    ensures |r| == |lists|
  {
    seq(|lists|, k requires 0 <= k < |lists| => Shifted(lists[k], NonEmptyBase(lists[..k], sizes[..k]), move))
  }

  /**
   * What `_agglomerate_nodes_across_skeletons` returns for the per-skeleton
   * lists `lists` of skeletons with `sizes` vertices.
   */
  function Agglomerated<T>(lists: seq<seq<T>>, sizes: seq<nat>, move: (T, nat) -> T): seq<T>
    requires |sizes| == |lists|
  {
    Flatten(ShiftedLists(lists, sizes, move))
  }

  /** Taking one more skeleton appends its list, shifted by the `n_shift` reached so far. */
  lemma ShiftedListsStep<T>(lists: seq<seq<T>>, sizes: seq<nat>, move: (T, nat) -> T, i: nat)
    requires |sizes| == |lists| && i < |lists|
    ensures ShiftedLists(lists[..i + 1], sizes[..i + 1], move)
            == ShiftedLists(lists[..i], sizes[..i], move) + [Shifted(lists[i], NonEmptyBase(lists[..i], sizes[..i]), move)]
    ensures NonEmptyBase(lists[..i + 1], sizes[..i + 1])
            == NonEmptyBase(lists[..i], sizes[..i]) + if |lists[i]| > 0 then sizes[i] else 0
  {
    assert lists[..i + 1][..i] == lists[..i] && sizes[..i + 1][..i] == sizes[..i];
    var longer := ShiftedLists(lists[..i + 1], sizes[..i + 1], move);
    var shorter := ShiftedLists(lists[..i], sizes[..i], move);
    var base := NonEmptyBase(lists[..i], sizes[..i]);
    forall k | 0 <= k <= i
      ensures longer[k] == (shorter + [Shifted(lists[i], base, move)])[k]
    {
      assert lists[..i + 1][..k] == lists[..k] && sizes[..i + 1][..k] == sizes[..k];
      if k < i {
        assert lists[..i][..k] == lists[..k] && sizes[..i][..k] == sizes[..k];
      }
    }
  }

  method AgglomerateNodes<T>(lists: seq<seq<T>>, sizes: seq<nat>, move: (T, nat) -> T) returns (stacked: seq<T>)
    requires |sizes| == |lists|
    ensures stacked == Agglomerated(lists, sizes, move)
  {
    stacked := [];
    var nShift := 0;
    for i := 0 to |lists|
      invariant stacked == Flatten(ShiftedLists(lists[..i], sizes[..i], move))
      invariant nShift == NonEmptyBase(lists[..i], sizes[..i])
    {
      ShiftedListsStep(lists, sizes, move, i);
      ghost var done := ShiftedLists(lists[..i], sizes[..i], move);
      assert (done + [Shifted(lists[i], nShift, move)])[..|done|] == done;
      if |lists[i]| > 0 {
        stacked := stacked + Shifted(lists[i], nShift, move);
        nShift := nShift + sizes[i];
      }
    }
    assert lists[..|lists|] == lists && sizes[..|sizes|] == sizes;
  }

  /**
   * Entry `j` of skeleton `k`'s list appears after the entries of the earlier
   * lists, moved by the sizes of the earlier skeletons whose list was non-empty.
   */
  lemma AgglomeratedEntry<T>(lists: seq<seq<T>>, sizes: seq<nat>, move: (T, nat) -> T, k: nat, j: nat)
    requires |sizes| == |lists| && k < |lists| && j < |lists[k]|
    ensures |Agglomerated(lists, sizes, move)| == Total(lists)
    ensures Total(lists[..k]) + j < Total(lists)
    ensures Agglomerated(lists, sizes, move)[Total(lists[..k]) + j] == move(lists[k][j], NonEmptyBase(lists[..k], sizes[..k]))
  {
    var shifted := ShiftedLists(lists, sizes, move);
    FlattenEntry(shifted, k, j);
    TotalShifted(lists, sizes, move, k);
    TotalShifted(lists, sizes, move, |lists|);
    assert shifted[..|lists|] == shifted && lists[..|lists|] == lists;
  }

  lemma {:induction false} TotalShifted<T>(lists: seq<seq<T>>, sizes: seq<nat>, move: (T, nat) -> T, k: nat)
    requires |sizes| == |lists| && k <= |lists|
    ensures Total(ShiftedLists(lists, sizes, move)[..k]) == Total(lists[..k])
    decreases k
  {
    if k > 0 {
      TotalShifted(lists, sizes, move, k - 1);
      assert ShiftedLists(lists, sizes, move)[..k][..k - 1] == ShiftedLists(lists, sizes, move)[..k - 1];
      assert lists[..k][..k - 1] == lists[..k - 1];
    }
  }

  /** When no list is empty, each list is moved by the sizes of all earlier skeletons. */
  lemma {:induction false} NonEmptyBaseAllSizes<T>(lists: seq<seq<T>>, sizes: seq<nat>)
    requires |sizes| == |lists| && forall k :: 0 <= k < |lists| ==> |lists[k]| > 0
    ensures NonEmptyBase(lists, sizes) == SumOf(sizes)
    decreases |lists|
  {
    if lists != [] {
      var k := |lists| - 1;
      NonEmptyBaseAllSizes(lists[..k], sizes[..k]);
    }
  }

  /**
   * A skeleton with no entries moves nothing: the second skeleton's vertex 0,
   * which is vertex 2 of the forest when the first skeleton has two vertices,
   * comes out as 0.
   */
  lemma EmptyListSkipsOffset()
    ensures Agglomerated([[], [0]], [2, 1], ShiftPoint) == [0]
    ensures SumOf([2]) == 2
  {
    var none: seq<seq<nat>> := [];
    var lists: seq<seq<nat>> := [[], [0]];
    var sizes: seq<nat> := [2, 1];
    assert lists[..0] == none && sizes[..0] == [];
    assert lists[..1] == [[]] && sizes[..1] == [2];
    assert [[]][..0] == none && [2][..0] == [];
    assert NonEmptyBase(lists[..1], sizes[..1]) == 0;
    var shifted := ShiftedLists(lists, sizes, ShiftPoint);
    assert shifted[0] == [] && shifted[1] == [0];
    assert shifted == [[], [0]];
    assert shifted[..1] == [[]] && [[]][..0] == none;
    assert Flatten(shifted[..1]) == [];
  }

  /** numpy's reading of index `i` into `n` entries: a negative index counts from the end. */
  function WrapIndex(i: int, n: nat): int {
    if i < 0 then i + n else i
  }

  /** Every present entry is an index numpy accepts for `n` entries. */
  predicate Indexable(vertexList: seq<Option<int>>, n: nat) {
    forall j :: 0 <= j < |vertexList| && vertexList[j].Some? ==> -(n as int) <= vertexList[j].value < n
  }

  /**
   * `remap_vertex_list`: missing entries stay missing, present ones are looked
   * up in `order` (`np.take`, which raises outside `[-n, n)`).
   */
  function RemapVertexList(order: seq<nat>, vertexList: seq<Option<int>>): (r: Result<seq<Option<int>>>)
    ensures r.Success? <==> Indexable(vertexList, |order|)
    ensures r.Failure? ==> r.error == IndexOutOfRange
    ensures r.Success? ==> |r.value| == |vertexList| && forall j :: 0 <= j < |vertexList| ==>
      (vertexList[j].None? ==> r.value[j].None?) &&
      (vertexList[j].Some? ==> r.value[j] == Some(order[WrapIndex(vertexList[j].value, |order|)] as int))
  {
    if !Indexable(vertexList, |order|) then Failure(IndexOutOfRange)
    else
      Success(seq(|vertexList|, j requires 0 <= j < |vertexList| =>
        if vertexList[j].None? then None else Some(order[WrapIndex(vertexList[j].value, |order|)] as int)))
  }

  /** `add_vertex_list(..., remap_from_original_order=True)` for every list given to the constructor. */
  function RemapAll(order: seq<nat>, vertexLists: map<string, seq<Option<int>>>): (r: map<string, seq<Option<int>>>)
    requires forall name :: name in vertexLists ==> Indexable(vertexLists[name], |order|)
    ensures r.Keys == vertexLists.Keys
    ensures forall name :: name in vertexLists ==> RemapVertexList(order, vertexLists[name]) == Success(r[name])
  {
    map name | name in vertexLists :: RemapVertexList(order, vertexLists[name]).value
  }

  /** The inverse of a permutation of `0 .. n-1`: where each index came from. */
  function Inverse(order: seq<nat>): (r: seq<nat>)
    requires forall i :: 0 <= i < |order| ==> i in order
    ensures |r| == |order| && InRange(r, |order|) && forall i :: 0 <= i < |order| ==> order[r[i]] == i
  {
    seq(|order|, i requires 0 <= i < |order| => IndexOf(order, i))
  }

  /** Remapping a list of non-negative indices and then remapping back with the inverse order returns the list. */
  lemma RemapRoundTrip(order: seq<nat>, vertexList: seq<Option<int>>)
    requires InRange(order, |order|) && Distinct(order) && forall i :: 0 <= i < |order| ==> i in order
    requires forall j :: 0 <= j < |vertexList| && vertexList[j].Some? ==> 0 <= vertexList[j].value < |order|
    ensures RemapVertexList(order, vertexList).Success?
    ensures RemapVertexList(Inverse(order), RemapVertexList(order, vertexList).value) == Success(vertexList)
  {
    var there := RemapVertexList(order, vertexList).value;
    var inv := Inverse(order);
    var back := RemapVertexList(inv, there);
    assert back.Success?;
    forall j | 0 <= j < |vertexList| && vertexList[j].Some?
      ensures back.value[j] == vertexList[j]
    {
      var v := vertexList[j].value as nat;
      IndexOfDistinct(order, v);
    }
    assert back.value == vertexList;
  }

  /** Remapping with the inverse order and then with the order itself returns the list too. */
  lemma RemapInverseRoundTrip(order: seq<nat>, vertexList: seq<Option<int>>)
    requires InRange(order, |order|) && Distinct(order) && forall i :: 0 <= i < |order| ==> i in order
    requires forall j :: 0 <= j < |vertexList| && vertexList[j].Some? ==> 0 <= vertexList[j].value < |order|
    ensures RemapVertexList(Inverse(order), vertexList).Success?
    ensures RemapVertexList(order, RemapVertexList(Inverse(order), vertexList).value) == Success(vertexList)
  {
    var there := RemapVertexList(Inverse(order), vertexList).value;
    var back := RemapVertexList(order, there);
    assert back.Success?;
    assert back.value == vertexList;
  }

  /**
   * `np.concatenate([d[name] for d in dicts])`: a missing name raises first
   * (`KeyError`), an empty list of arrays raises next (`ValueError`).
   */
  function Gather(dicts: seq<Skeletons.Properties>, name: string): (r: Result<seq<int>>)
    ensures r.Success? <==> |dicts| > 0 && forall i :: 0 <= i < |dicts| ==> name in dicts[i]
    ensures r.Failure? ==> r.error == if exists i :: 0 <= i < |dicts| && name !in dicts[i]
                                     then MissingProperty else NothingToConcatenate
  {
    if exists i :: 0 <= i < |dicts| && name !in dicts[i] then Failure(MissingProperty)
    else if dicts == [] then Failure(NothingToConcatenate)
    else Success(Flatten(seq(|dicts|, i requires 0 <= i < |dicts| => dicts[i][name])))
  }

  /** A successful gathering holds each dictionary's array, one after another. */
  lemma GatherEntry(dicts: seq<Skeletons.Properties>, name: string, k: nat, j: nat)
    requires Gather(dicts, name).Success? && k < |dicts| && j < |dicts[k][name]|
    ensures
      var arrays := seq(|dicts|, i requires 0 <= i < |dicts| => dicts[i][name]);
      && |Gather(dicts, name).value| == Total(arrays)
      && Total(arrays[..k]) + j < Total(arrays)
      && Gather(dicts, name).value[Total(arrays[..k]) + j] == dicts[k][name][j]
  {
    var arrays := seq(|dicts|, i requires 0 <= i < |dicts| => dicts[i][name]);
    FlattenEntry(arrays, k, j);
  }
}
