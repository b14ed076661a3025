/**
 * The pure part of the skeleton engine: how `reroot` orients edges from hop
 * distances, the parent array it fills, the child counts behind branch and
 * end points, and when a walk along parent pointers ends.
 */
module TreeGraph {
  import opened Wrappers

  /** A vertex pair of the edge list; once a skeleton is rooted, (child, parent). */
  type Edge = (nat, nat)

  predicate EdgesInRange(edges: seq<Edge>, n: nat) {
    forall i :: 0 <= i < |edges| ==> edges[i].0 < n && edges[i].1 < n
  }

  predicate InRange(s: seq<nat>, n: nat) {
    forall i :: 0 <= i < |s| ==> s[i] < n
  }

  predicate Ascending(s: seq<nat>) {
    forall i, j :: 0 <= i < j < |s| ==> s[i] < s[j]
  }

  predicate Distinct(s: seq<nat>) {
    forall i, j :: 0 <= i < j < |s| ==> s[i] != s[j]
  }

  /** A distance reported by a shortest-path routine: a finite value or infinity. */
  datatype Extended<T> = Finite(value: T) | Infinite

  /** Unweighted shortest-path distances are hop counts. */
  type Hops = Extended<nat>

  /**
   * The floating-point comparison `a > b` on hop distances: infinity is greater
   * than every count and not greater than itself.
   */
  predicate Farther(a: Hops, b: Hops) {
    match a
    case Infinite => b.Finite?
    case Finite(x) => b.Finite? && x > b.value
  }

  /**
   * One edge as `reroot` orients it (`is_ordered`): the first endpoint stays the
   * child only when it is strictly farther from the root; otherwise, ties
   * included, the second endpoint becomes the child.
   */
  function Orient(e: Edge, d: seq<Hops>): Edge
    requires e.0 < |d| && e.1 < |d|
  {
    if Farther(d[e.0], d[e.1]) then e else (e.1, e.0)
  }

  /** Every edge oriented as (child, parent) by the distances `d` from the new root. */
  function OrientAll(edges: seq<Edge>, d: seq<Hops>): (r: seq<Edge>)
    requires EdgesInRange(edges, |d|)
    ensures |r| == |edges| && EdgesInRange(r, |d|)
  {
    seq(|edges|, i requires 0 <= i < |edges| => Orient(edges[i], d))
  }

  /** What orienting promises of each edge. */
  lemma OrientAllSpec(edges: seq<Edge>, d: seq<Hops>)
    requires EdgesInRange(edges, |d|)
    ensures var r := OrientAll(edges, d);
      // each edge keeps its unordered endpoint pair
      && (forall i :: 0 <= i < |r| ==> r[i] == edges[i] || r[i] == (edges[i].1, edges[i].0))
      // a parent is never farther from the root than its child ...
      && (forall i :: 0 <= i < |r| ==> !Farther(d[r[i].1], d[r[i].0]))
      // ... and strictly closer when the two distances differ
      && (forall i :: 0 <= i < |r| && d[edges[i].0] != d[edges[i].1] ==> Farther(d[r[i].0], d[r[i].1]))
      // on a tie the original second endpoint becomes the child
      && (forall i :: 0 <= i < |r| && d[edges[i].0] == d[edges[i].1] ==> r[i] == (edges[i].1, edges[i].0))
  {
    var r := OrientAll(edges, d);
    forall i | 0 <= i < |r| ensures !Farther(d[r[i].1], d[r[i].0]) {
      assert r[i] == Orient(edges[i], d);
    }
  }

  predicate NoTies(edges: seq<Edge>, d: seq<Hops>)
    requires EdgesInRange(edges, |d|)
  {
    forall i :: 0 <= i < |edges| ==> d[edges[i].0] != d[edges[i].1]
  }

  /**
   * Rerooting twice with the same distances: untied edges keep the orientation
   * of the first reroot, tied edges return to their order before it.
   */
  lemma RerootTwice(edges: seq<Edge>, d: seq<Hops>)
    requires EdgesInRange(edges, |d|)
    ensures forall i :: 0 <= i < |edges| ==>
      OrientAll(OrientAll(edges, d), d)[i] ==
        if d[edges[i].0] == d[edges[i].1] then edges[i] else OrientAll(edges, d)[i]
    ensures NoTies(edges, d) ==> OrientAll(OrientAll(edges, d), d) == OrientAll(edges, d)
  {
    var once := OrientAll(edges, d);
    var twice := OrientAll(once, d);
    OrientAllSpec(edges, d);
    OrientAllSpec(once, d);
    forall i | 0 <= i < |edges|
      ensures twice[i] == if d[edges[i].0] == d[edges[i].1] then edges[i] else once[i]
    {
      if d[edges[i].0] != d[edges[i].1] {
        assert Farther(d[once[i].0], d[once[i].1]);
      }
    }
  }

  predicate ParentsInRange(parent: seq<Option<nat>>) {
    forall v :: 0 <= v < |parent| && parent[v].Some? ==> parent[v].value < |parent|
  }

  /**
   * The parent array that `parent[c] := p` for every (c, p) of `edges`, in
   * order, leaves in an array of `n` empty slots: a later edge overwrites an
   * earlier one with the same child.
   */
  function ParentsOf(n: nat, edges: seq<Edge>): (r: seq<Option<nat>>)
    requires EdgesInRange(edges, n)
    ensures |r| == n && ParentsInRange(r)
    decreases |edges|
  {
    if edges == [] then seq(n, _ => None)
    else
      var last := edges[|edges| - 1];
      ParentsOf(n, edges[..|edges| - 1])[last.0 := Some(last.1)]
  }

  /**
   * A vertex has no parent exactly when it is the child of no edge, and its
   * parent is the one named by the last edge with that child.
   */
  lemma {:induction false} ParentIsLastWrite(n: nat, edges: seq<Edge>, v: nat)
    requires EdgesInRange(edges, n) && v < n
    ensures ParentsOf(n, edges)[v].None? <==> forall i :: 0 <= i < |edges| ==> edges[i].0 != v
    ensures forall i :: 0 <= i < |edges| && edges[i].0 == v && (forall j :: i < j < |edges| ==> edges[j].0 != v) ==>
              ParentsOf(n, edges)[v] == Some(edges[i].1)
    decreases |edges|
  {
    if edges != [] {
      var prefix := edges[..|edges| - 1];
      ParentIsLastWrite(n, prefix, v);
      forall i | 0 <= i < |prefix| ensures prefix[i] == edges[i] { }
    }
  }

  /** Every parent pointer comes from an edge (child, parent). */
  lemma {:induction false} ParentFromEdge(n: nat, edges: seq<Edge>, v: nat)
    requires EdgesInRange(edges, n) && v < n && ParentsOf(n, edges)[v].Some?
    ensures exists i :: 0 <= i < |edges| && edges[i] == (v, ParentsOf(n, edges)[v].value)
    decreases |edges|
  {
    var last := edges[|edges| - 1];
    var prefix := edges[..|edges| - 1];
    if last.0 != v {
      ParentFromEdge(n, prefix, v);
      var i :| 0 <= i < |prefix| && prefix[i] == (v, ParentsOf(n, prefix)[v].value);
      assert edges[i] == prefix[i];
    }
  }

  /** When no vertex is the child of two edges, every edge (c, p) gives `parent[c] == p`. */
  lemma ParentOfEveryEdge(n: nat, edges: seq<Edge>)
    requires EdgesInRange(edges, n)
    requires forall i, j :: 0 <= i < j < |edges| ==> edges[i].0 != edges[j].0
    ensures forall i :: 0 <= i < |edges| ==> ParentsOf(n, edges)[edges[i].0] == Some(edges[i].1)
  {
    forall i | 0 <= i < |edges| ensures ParentsOf(n, edges)[edges[i].0] == Some(edges[i].1) {
      ParentIsLastWrite(n, edges, edges[i].0);
    }
  }

  /** The walk up from `v` reaches a vertex without a parent within `k` steps. */
  predicate TopWithin(parent: seq<Option<nat>>, v: nat, k: nat)
    requires ParentsInRange(parent) && v < |parent|
    decreases k
  {
    parent[v].None? || (k > 0 && TopWithin(parent, parent[v].value, k - 1))
  }

  /** The walk up from `v` ends (it does not run around a cycle of parent pointers). */
  ghost predicate HasTop(parent: seq<Option<nat>>, v: nat)
    requires ParentsInRange(parent) && v < |parent|
  {
    exists k: nat :: TopWithin(parent, v, k)
  }

  /** Every walk up along parent pointers ends. */
  ghost predicate Acyclic(parent: seq<Option<nat>>)
    requires ParentsInRange(parent)
  {
    forall v :: 0 <= v < |parent| ==> HasTop(parent, v)
  }

  /** More steps never hurt. */
  lemma {:induction false} TopWithinMore(parent: seq<Option<nat>>, v: nat, k: nat, m: nat)
    requires ParentsInRange(parent) && v < |parent| && k <= m && TopWithin(parent, v, k)
    ensures TopWithin(parent, v, m)
    decreases k
  {
    if parent[v].Some? {
      TopWithinMore(parent, parent[v].value, k - 1, m - 1);
    }
  }

  predicate AllFinite(d: seq<Hops>) {
    forall v :: 0 <= v < |d| ==> d[v].Finite?
  }

  /** With finite, untied distances, the walk up from `v` ends within `d[v]` steps. */
  lemma {:induction false} TopWithinDistance(edges: seq<Edge>, d: seq<Hops>, v: nat)
    requires EdgesInRange(edges, |d|) && AllFinite(d) && NoTies(edges, d) && v < |d|
    ensures TopWithin(ParentsOf(|d|, OrientAll(edges, d)), v, d[v].value)
    decreases d[v].value
  {
    var oriented := OrientAll(edges, d);
    var parent := ParentsOf(|d|, oriented);
    OrientAllSpec(edges, d);
    if parent[v].Some? {
      var p := parent[v].value;
      ParentFromEdge(|d|, oriented, v);
      var i :| 0 <= i < |oriented| && oriented[i] == (v, p);
      assert Farther(d[v], d[p]);
      TopWithinDistance(edges, d, p);
      TopWithinMore(parent, p, d[p].value, d[v].value - 1);
    }
  }

  /**
   * When every vertex is reachable from the new root and no edge is tied, the
   * parent array `reroot` fills has no cycle: every walk up ends.
   */
  lemma RerootedParentsAcyclic(edges: seq<Edge>, d: seq<Hops>)
    requires EdgesInRange(edges, |d|) && AllFinite(d) && NoTies(edges, d)
    ensures Acyclic(ParentsOf(|d|, OrientAll(edges, d)))
  {
    var parent := ParentsOf(|d|, OrientAll(edges, d));
    forall v | 0 <= v < |d| ensures HasTop(parent, v) {
      TopWithinDistance(edges, d, v);
    }
  }

  /**
   * The number of edges (c, v): the column sum of the directed binary graph
   * that `_create_branch_and_end_points` reads.
   */
  function ChildCount(edges: seq<Edge>, v: nat): nat
    decreases |edges|
  {
    if edges == [] then 0
    else ChildCount(edges[..|edges| - 1], v) + (if edges[|edges| - 1].1 == v then 1 else 0)
  }

  lemma {:induction false} ChildCountZero(edges: seq<Edge>, v: nat)
    ensures ChildCount(edges, v) == 0 <==> forall i :: 0 <= i < |edges| ==> edges[i].1 != v
    decreases |edges|
  {
    if edges != [] {
      var prefix := edges[..|edges| - 1];
      ChildCountZero(prefix, v);
      forall i | 0 <= i < |prefix| ensures prefix[i] == edges[i] { }
    }
  }

  /** A vertex has more than one child exactly when two distinct edges point to it. */
  lemma {:induction false} ChildCountAboveOne(edges: seq<Edge>, v: nat)
    ensures ChildCount(edges, v) > 1 <==>
      exists i, j :: 0 <= i < j < |edges| && edges[i].1 == v && edges[j].1 == v
    decreases |edges|
  {
    if edges != [] {
      var prefix := edges[..|edges| - 1];
      var last := |edges| - 1;
      ChildCountAboveOne(prefix, v);
      ChildCountZero(prefix, v);
      if ChildCount(edges, v) > 1 {
        if ChildCount(prefix, v) > 1 {
          var i, j :| 0 <= i < j < |prefix| && prefix[i].1 == v && prefix[j].1 == v;
          assert edges[i] == prefix[i] && edges[j] == prefix[j];
        } else {
          var i :| 0 <= i < |prefix| && prefix[i].1 == v;
          assert edges[i] == prefix[i] && edges[last].1 == v;
        }
      }
      if exists i, j :: 0 <= i < j < |edges| && edges[i].1 == v && edges[j].1 == v {
        var i, j :| 0 <= i < j < |edges| && edges[i].1 == v && edges[j].1 == v;
        assert prefix[i] == edges[i];
        if j < last {
          assert prefix[j] == edges[j];
        }
      }
    }
  }

  /** The vertices below `n` with more than one child, ascending (`flatnonzero(n_children > 1)`). */
  function BranchPointsOf(edges: seq<Edge>, n: nat): (r: seq<nat>)
    ensures InRange(r, n)
    decreases n
  {
    if n == 0 then []
    else BranchPointsOf(edges, n - 1) + (if ChildCount(edges, n - 1) > 1 then [n - 1] else [])
  }

  /** The branch points are ascending and are exactly the vertices with more than one child. */
  lemma {:induction false} BranchPointsOfSpec(edges: seq<Edge>, n: nat)
    ensures var r := BranchPointsOf(edges, n);
      && Ascending(r)
      && forall v: nat :: v in r <==> v < n && ChildCount(edges, v) > 1
    decreases n
  {
    if n > 0 {
      var below := BranchPointsOf(edges, n - 1);
      var tail := if ChildCount(edges, n - 1) > 1 then [n - 1] else [];
      var r := below + tail;
      assert r == BranchPointsOf(edges, n);
      BranchPointsOfSpec(edges, n - 1);
      forall v: nat ensures v in r <==> v < n && ChildCount(edges, v) > 1 {
        assert v in r <==> v in below || v in tail;
        assert v in tail <==> v == n - 1 && ChildCount(edges, n - 1) > 1;
      }
      forall i, j | 0 <= i < j < |r| ensures r[i] < r[j] {
        assert r[i] == below[i];
        if j < |below| {
          assert r[j] == below[j];
        } else {
          assert r[j] == n - 1 && below[i] < n - 1;
        }
      }
    }
  }

  /** The vertices below `n` without children, ascending (`flatnonzero(n_children == 0)`). */
  function EndPointsOf(edges: seq<Edge>, n: nat): (r: seq<nat>)
    ensures InRange(r, n)
    decreases n
  {
    if n == 0 then []
    else EndPointsOf(edges, n - 1) + (if ChildCount(edges, n - 1) == 0 then [n - 1] else [])
  }

  /** The end points are ascending and are exactly the vertices without children. */
  lemma {:induction false} EndPointsOfSpec(edges: seq<Edge>, n: nat)
    ensures var r := EndPointsOf(edges, n);
      && Ascending(r)
      && forall v: nat :: v in r <==> v < n && ChildCount(edges, v) == 0
    decreases n
  {
    if n > 0 {
      var below := EndPointsOf(edges, n - 1);
      var tail := if ChildCount(edges, n - 1) == 0 then [n - 1] else [];
      var r := below + tail;
      assert r == EndPointsOf(edges, n);
      EndPointsOfSpec(edges, n - 1);
      forall v: nat ensures v in r <==> v < n && ChildCount(edges, v) == 0 {
        assert v in r <==> v in below || v in tail;
        assert v in tail <==> v == n - 1 && ChildCount(edges, n - 1) == 0;
      }
      forall i, j | 0 <= i < j < |r| ensures r[i] < r[j] {
        assert r[i] == below[i];
        if j < |below| {
          assert r[j] == below[j];
        } else {
          assert r[j] == n - 1 && below[i] < n - 1;
        }
      }
    }
  }

  /** Consecutive vertices of `path` are (child, parent) pairs of the parent array. */
  predicate Linked(parent: seq<Option<nat>>, path: seq<nat>) {
    forall i :: 0 <= i < |path| - 1 ==> path[i] < |parent| && parent[path[i]] == Some(path[i + 1])
  }

  predicate NonEmptyRuns(runs: seq<seq<nat>>) {
    forall i :: 0 <= i < |runs| ==> |runs[i]| > 0
  }

  function Last(s: seq<nat>): nat
    requires |s| > 0
  {
    s[|s| - 1]
  }

  /** The first vertex of every run, in order. */
  function Starts(runs: seq<seq<nat>>): (r: seq<nat>)
    requires NonEmptyRuns(runs)
    ensures |r| == |runs|
    decreases |runs|
  {
    if runs == [] then [] else Starts(runs[..|runs| - 1]) + [runs[|runs| - 1][0]]
  }

  /** Every vertex on some run. */
  function Covered(runs: seq<seq<nat>>): set<nat>
    decreases |runs|
  {
    if runs == [] then {}
    else
      var run := runs[|runs| - 1];
      Covered(runs[..|runs| - 1]) + set i | 0 <= i < |run| :: run[i]
  }

  /** Every vertex on some run other than as the run's last vertex. */
  function InteriorCovered(runs: seq<seq<nat>>): (r: set<nat>)
    requires NonEmptyRuns(runs)
    ensures r <= Covered(runs)
    decreases |runs|
  {
    if runs == [] then {}
    else
      var run := runs[|runs| - 1];
      InteriorCovered(runs[..|runs| - 1]) + set i | 0 <= i < |run| - 1 :: run[i]
  }

  /** The parents of the runs' last vertices: where each run stopped short of. */
  function StopPoints(parent: seq<Option<nat>>, runs: seq<seq<nat>>): set<nat>
    requires NonEmptyRuns(runs)
    requires forall i :: 0 <= i < |runs| ==> Last(runs[i]) < |parent|
    decreases |runs|
  {
    if runs == [] then {}
    else
      var stop := parent[Last(runs[|runs| - 1])];
      StopPoints(parent, runs[..|runs| - 1]) + (if stop.Some? then {stop.value} else {})
  }

  /** The start list holds each run's first vertex at the run's position. */
  lemma {:induction false} StartsAt(runs: seq<seq<nat>>)
    requires NonEmptyRuns(runs)
    ensures forall i :: 0 <= i < |runs| ==> Starts(runs)[i] == runs[i][0]
    decreases |runs|
  {
    if runs != [] {
      StartsAt(runs[..|runs| - 1]);
    }
  }

  /** A stop point is the parent of some run's last vertex, and every such parent is one. */
  lemma {:induction false} StopPointsMembers(parent: seq<Option<nat>>, runs: seq<seq<nat>>)
    requires NonEmptyRuns(runs)
    requires forall i :: 0 <= i < |runs| ==> Last(runs[i]) < |parent|
    ensures forall b :: b in StopPoints(parent, runs) <==> exists i :: 0 <= i < |runs| && parent[Last(runs[i])] == Some(b)
    decreases |runs|
  {
    if runs != [] {
      var prefix := runs[..|runs| - 1];
      StopPointsMembers(parent, prefix);
      forall b | b in StopPoints(parent, runs) ensures exists i :: 0 <= i < |runs| && parent[Last(runs[i])] == Some(b) {
        if b in StopPoints(parent, prefix) {
          var i :| 0 <= i < |prefix| && parent[Last(prefix[i])] == Some(b);
          assert runs[i] == prefix[i];
        }
      }
      forall b, i | 0 <= i < |runs| && parent[Last(runs[i])] == Some(b) ensures b in StopPoints(parent, runs) {
        if i < |prefix| {
          assert runs[i] == prefix[i];
        }
      }
    }
  }

  /** numpy's `a[idx] = x`: every listed position gets `x`, all others keep their value. */
  method SetAll<T>(a: array<T>, idx: seq<nat>, x: T)
    requires InRange(idx, a.Length)
    modifies a
    ensures a[..] == Assigned(old(a[..]), idx, x)
  {
    ghost var before := a[..];
    for j := 0 to |idx|
      invariant forall v :: 0 <= v < a.Length ==> a[v] == if v in idx[..j] then x else before[v]
    {
      assert idx[..j + 1] == idx[..j] + [idx[j]];
      a[idx[j]] := x;
    }
    assert idx[..|idx|] == idx;
  }

  /** `s` with every position listed in `idx` set to `x`. */
  function Assigned<T>(s: seq<T>, idx: seq<nat>, x: T): (r: seq<T>)
    ensures |r| == |s|
    ensures forall v :: 0 <= v < |s| ==> r[v] == if v in idx then x else s[v]
  {
    seq(|s|, v requires 0 <= v < |s| => if v in idx then x else s[v])
  }
}
