/**
 * What the paths and segments of a skeleton cover once `reroot` has turned
 * its edges into a tree: every vertex lies on some path of `_compute_paths`,
 * and the segments of `_compute_segments` partition the vertices, the segment
 * map naming the one segment that holds each vertex.
 */
module SkeletonCover {
  import opened Wrappers
  import opened TreeGraph
  import opened Skeletons
  import ForestIndex

  /**
   * Every edge runs (child, parent) from a higher rank down to a lower one, as
   * `reroot` orients the edges when the two ends of every edge lie at
   * different hop distances from the root.
   */
  predicate Ranked(edges: seq<Edge>, rank: seq<nat>) {
    forall i :: 0 <= i < |edges| ==> edges[i].0 < |rank| && edges[i].1 < |rank| && rank[edges[i].0] > rank[edges[i].1]
  }

  /** No vertex is the child of two edges, as in a tree. */
  predicate SingleParent(edges: seq<Edge>) {
    forall i, j :: 0 <= i < j < |edges| ==> edges[i].0 != edges[j].0
  }

  /** The parent of every vertex of `s` lies in `s` as well. */
  ghost predicate UpClosed(parent: seq<Option<nat>>, s: set<nat>) {
    forall v :: v in s && v < |parent| && parent[v].Some? ==> parent[v].value in s
  }

  /** Finite hop distances as plain counts. */
  function Counts(d: seq<Hops>): (r: seq<nat>)
    requires AllFinite(d)
    ensures |r| == |d| && forall v :: 0 <= v < |d| ==> r[v] == d[v].value
  {
    seq(|d|, v requires 0 <= v < |d| && d[v].Finite? => d[v].value)
  }

  /**
   * Rerooting with finite, untied hop distances leaves every edge pointing
   * from the vertex farther from the root to the nearer one.
   */
  lemma OrientedRanked(edges: seq<Edge>, d: seq<Hops>)
    requires EdgesInRange(edges, |d|) && AllFinite(d) && NoTies(edges, d)
    ensures Ranked(OrientAll(edges, d), Counts(d))
  {
    OrientAllSpec(edges, d);
  }

  /** The largest rank (0 for no vertices). */
  function MaxRank(rank: seq<nat>): (m: nat)
    ensures forall v :: 0 <= v < |rank| ==> rank[v] <= m
    decreases |rank|
  {
    if rank == [] then 0
    else
      var below := MaxRank(rank[..|rank| - 1]);
      if rank[|rank| - 1] > below then rank[|rank| - 1] else below
  }

  /** A vertex is covered by some run exactly when some run holds it. */
  lemma {:induction false} CoveredSpec(runs: seq<seq<nat>>, v: nat)
    ensures v in Covered(runs) <==> exists i :: 0 <= i < |runs| && v in runs[i]
    decreases |runs|
  {
    if runs != [] {
      var prefix := runs[..|runs| - 1];
      var run := runs[|runs| - 1];
      CoveredSpec(prefix, v);
      assert forall i :: 0 <= i < |prefix| ==> prefix[i] == runs[i];
      assert v in run <==> v in set i | 0 <= i < |run| :: run[i];
    }
  }

  /**
   * A parent-closed set that holds every vertex without children holds every
   * vertex: below any vertex with a child there is a childless one, since the
   * ranks grow going down and are bounded.
   */
  lemma {:induction false} HoldsAllBelow(edges: seq<Edge>, rank: seq<nat>, s: set<nat>, v: nat)
    requires Ranked(edges, rank) && SingleParent(edges)
    requires UpClosed(ParentsOf(|rank|, edges), s)
    requires forall x :: 0 <= x < |rank| && ChildCount(edges, x) == 0 ==> x in s
    requires v < |rank|
    ensures v in s
    decreases MaxRank(rank) - rank[v]
  {
    if ChildCount(edges, v) != 0 {
      assert EdgesInRange(edges, |rank|);
      ChildCountZero(edges, v);
      var i :| 0 <= i < |edges| && edges[i].1 == v;
      ParentOfEveryEdge(|rank|, edges);
      HoldsAllBelow(edges, rank, s, edges[i].0);
    }
  }

  /**
   * The vertices of a segment decomposition are closed under parents: inside
   * a segment the parent is the next vertex, and past the last one it is a
   * branch point where the walk stopped, which starts a segment of its own.
   */
  lemma SegmentsUpClosed(parent: seq<Option<nat>>, segs: seq<seq<nat>>, segMap: seq<int>, eps: seq<nat>, bps: seq<nat>)
    requires SegmentDecomposition(parent, segs, segMap, eps, bps)
    ensures UpClosed(parent, Covered(segs))
  {
    SegmentRuns(parent, segs, segMap, eps, bps);
    StopPointsMembers(parent, segs);
    StartsAt(segs);
    forall v | v in Covered(segs) && v < |parent| && parent[v].Some? ensures parent[v].value in Covered(segs) {
      var p := parent[v].value;
      CoveredSpec(segs, v);
      CoveredSpec(segs, p);
      var i :| 0 <= i < |segs| && v in segs[i];
      var seg := segs[i];
      var k :| 0 <= k < |seg| && seg[k] == v;
      assert IsSegment(parent, seg, bps);
      if k < |seg| - 1 {
        assert parent[seg[k]] == Some(seg[k + 1]);
        assert p in segs[i];
      } else {
        assert p in StopPoints(parent, segs);
        assert p in multiset(Starts(segs));
        var j :| 0 <= j < |segs| && Starts(segs)[j] == p;
        assert p in segs[j];
      }
    }
  }

  /**
   * On tree edges with fresh end and branch points, every vertex lies on a
   * segment, and the segment map gives one that holds it.
   */
  lemma SegmentsCoverTree(edges: seq<Edge>, rank: seq<nat>, segs: seq<seq<nat>>, segMap: seq<int>)
    requires Ranked(edges, rank) && SingleParent(edges)
    requires SegmentDecomposition(ParentsOf(|rank|, edges), segs, segMap, EndPointsOf(edges, |rank|), BranchPointsOf(edges, |rank|))
    ensures forall v :: 0 <= v < |rank| ==> 0 <= segMap[v] < |segs| && v in segs[segMap[v]]
  {
    var n := |rank|;
    var eps := EndPointsOf(edges, n);
    SegmentsUpClosed(ParentsOf(n, edges), segs, segMap, eps, BranchPointsOf(edges, n));
    EndPointsOfSpec(edges, n);
    SegmentRuns(ParentsOf(n, edges), segs, segMap, eps, BranchPointsOf(edges, n));
    StartsAt(segs);
    forall x | 0 <= x < n && ChildCount(edges, x) == 0 ensures x in Covered(segs) {
      assert x in eps;
      assert x in multiset(Starts(segs));
      var j :| 0 <= j < |segs| && Starts(segs)[j] == x;
      CoveredSpec(segs, x);
      assert x in segs[j];
    }
    forall v | 0 <= v < n ensures 0 <= segMap[v] < |segs| && v in segs[segMap[v]] {
      HoldsAllBelow(edges, rank, Covered(segs), v);
      CoveredSpec(segs, v);
      LastHoldingSpec(segs, v);
    }
  }

  /** A value at two positions of a list occurs at least twice in its multiset. */
  lemma TwiceInMultiset(s: seq<nat>, i: nat, j: nat)
    requires i < j < |s| && s[i] == s[j]
    ensures multiset(s)[s[i]] >= 2
  {
    assert s == s[..i] + [s[i]] + s[i + 1..j] + [s[j]] + s[j + 1..];
  }

  /** Every segment is non-empty and ends on a vertex. */
  lemma SegmentRuns(parent: seq<Option<nat>>, segs: seq<seq<nat>>, segMap: seq<int>, eps: seq<nat>, bps: seq<nat>)
    requires SegmentDecomposition(parent, segs, segMap, eps, bps)
    ensures NonEmptyRuns(segs) && forall i :: 0 <= i < |segs| ==> Last(segs[i]) < |parent|
  {
    forall i | 0 <= i < |segs| ensures |segs[i]| > 0 && Last(segs[i]) < |parent| {
      assert IsSegment(parent, segs[i], bps);
    }
  }

  /**
   * Each vertex starts at most one segment: the starts are the end points,
   * each once, and the branch points where walks stopped, each once, and no
   * end point is a branch point.
   */
  lemma StartsOnce(edges: seq<Edge>, n: nat, segs: seq<seq<nat>>, segMap: seq<int>, x: nat)
    requires EdgesInRange(edges, n)
    requires SegmentDecomposition(ParentsOf(n, edges), segs, segMap, EndPointsOf(edges, n), BranchPointsOf(edges, n))
    ensures NonEmptyRuns(segs) && multiset(Starts(segs))[x] <= 1
  {
    var parent := ParentsOf(n, edges);
    var eps, bps := EndPointsOf(edges, n), BranchPointsOf(edges, n);
    SegmentRuns(parent, segs, segMap, eps, bps);
    EndPointsOfSpec(edges, n);
    BranchPointsOfSpec(edges, n);
    DistinctMultiset(eps, set y | y in eps);
    assert x !in eps || x !in StopPoints(parent, segs) by {
      if x in StopPoints(parent, segs) {
        StopPointsMembers(parent, segs);
        var k :| 0 <= k < |segs| && parent[Last(segs[k])] == Some(x);
        assert IsSegment(parent, segs[k], bps);
      }
    }
  }

  /** No two segments start at the same vertex. */
  lemma DistinctStarts(edges: seq<Edge>, n: nat, segs: seq<seq<nat>>, segMap: seq<int>)
    requires EdgesInRange(edges, n)
    requires SegmentDecomposition(ParentsOf(n, edges), segs, segMap, EndPointsOf(edges, n), BranchPointsOf(edges, n))
    ensures forall i, j :: 0 <= i < j < |segs| ==> segs[i][0] != segs[j][0]
  {
    forall i, j | 0 <= i < j < |segs| ensures segs[i][0] != segs[j][0] {
      StartsOnce(edges, n, segs, segMap, segs[i][0]);
      StartsAt(segs);
      if segs[i][0] == segs[j][0] {
        TwiceInMultiset(Starts(segs), i, j);
      }
    }
  }

  /** A vertex that is the parent of two different vertices is a branch point. */
  lemma TwoChildren(edges: seq<Edge>, n: nat, x: nat, y: nat, v: nat)
    requires EdgesInRange(edges, n) && x < n && y < n && x != y
    requires ParentsOf(n, edges)[x] == Some(v) && ParentsOf(n, edges)[y] == Some(v)
    ensures v in BranchPointsOf(edges, n)
  {
    ParentFromEdge(n, edges, x);
    ParentFromEdge(n, edges, y);
    var ex :| 0 <= ex < |edges| && edges[ex] == (x, v);
    var ey :| 0 <= ey < |edges| && edges[ey] == (y, v);
    ChildCountAboveOne(edges, v);
    if ex < ey {
      assert edges[ex].1 == v && edges[ey].1 == v;
    } else {
      assert edges[ey].1 == v && edges[ex].1 == v;
    }
    BranchPointsOfSpec(edges, n);
  }

  /**
   * The first vertex of a segment is never further along another (or the
   * same) segment: it would have to be a child's parent, hence no end point,
   * and a start that is no end point is a branch point, which a segment
   * only holds first.
   */
  lemma StartNotInside(edges: seq<Edge>, n: nat, segs: seq<seq<nat>>, segMap: seq<int>, i: nat, j: nat, b: nat)
    requires EdgesInRange(edges, n)
    requires SegmentDecomposition(ParentsOf(n, edges), segs, segMap, EndPointsOf(edges, n), BranchPointsOf(edges, n))
    requires i < |segs| && j < |segs| && 1 <= b < |segs[j]|
    ensures segs[i][0] != segs[j][b]
  {
    var parent := ParentsOf(n, edges);
    var eps, bps := EndPointsOf(edges, n), BranchPointsOf(edges, n);
    SegmentRuns(parent, segs, segMap, eps, bps);
    var y := segs[j][b];
    assert IsSegment(parent, segs[j], bps);
    var c := segs[j][b - 1];
    assert parent[c] == Some(y);
    ParentFromEdge(n, edges, c);
    ChildCountZero(edges, y);
    EndPointsOfSpec(edges, n);
    assert y !in eps;
    StopPointsMembers(parent, segs);
    assert y !in StopPoints(parent, segs) by {
      forall k | 0 <= k < |segs| ensures parent[Last(segs[k])] != Some(y) {
        assert IsSegment(parent, segs[k], bps);
      }
    }
    assert y !in multiset(Starts(segs));
    StartsAt(segs);
    assert Starts(segs)[i] == segs[i][0];
  }

  /**
   * Two different segments share no vertex. Walking both down from a shared
   * vertex, they either reach the start of one inside the other or part at
   * a vertex with two children, a branch point, which a segment only holds
   * first.
   */
  lemma {:induction false} SegmentsApart(edges: seq<Edge>, n: nat, segs: seq<seq<nat>>, segMap: seq<int>,
                                         i: nat, j: nat, a: nat, b: nat)
    requires EdgesInRange(edges, n)
    requires SegmentDecomposition(ParentsOf(n, edges), segs, segMap, EndPointsOf(edges, n), BranchPointsOf(edges, n))
    requires i < |segs| && j < |segs| && i != j && a < |segs[i]| && b < |segs[j]|
    ensures segs[i][a] != segs[j][b]
    decreases a + b
  {
    if a == 0 && b == 0 {
      DistinctStarts(edges, n, segs, segMap);
    } else if a == 0 {
      StartNotInside(edges, n, segs, segMap, i, j, b);
    } else if b == 0 {
      StartNotInside(edges, n, segs, segMap, j, i, a);
    } else {
      var parent := ParentsOf(n, edges);
      var bps := BranchPointsOf(edges, n);
      assert IsSegment(parent, segs[i], bps) && IsSegment(parent, segs[j], bps);
      var x, y := segs[i][a - 1], segs[j][b - 1];
      assert parent[x] == Some(segs[i][a]) && parent[y] == Some(segs[j][b]);
      assert segs[i][a] !in bps;
      SegmentsApart(edges, n, segs, segMap, i, j, a - 1, b - 1);
      if segs[i][a] == segs[j][b] {
        TwoChildren(edges, n, x, y, segs[i][a]);
      }
    }
  }

  /**
   * The segments `_compute_segments` finds on a rerooted tree with fresh end
   * and branch points partition the vertices: each vertex lies in exactly
   * one segment, and the segment map names it.
   */
  lemma SegmentsPartitionTree(edges: seq<Edge>, rank: seq<nat>, segs: seq<seq<nat>>, segMap: seq<int>)
    requires Ranked(edges, rank) && SingleParent(edges)
    requires SegmentDecomposition(ParentsOf(|rank|, edges), segs, segMap, EndPointsOf(edges, |rank|), BranchPointsOf(edges, |rank|))
    ensures forall v :: 0 <= v < |rank| ==> 0 <= segMap[v] < |segs| && v in segs[segMap[v]]
    ensures forall v, i, j :: 0 <= i < |segs| && 0 <= j < |segs| && v in segs[i] && v in segs[j] ==> i == j
  {
    SegmentsCoverTree(edges, rank, segs, segMap);
    assert EdgesInRange(edges, |rank|);
    forall v, i, j | 0 <= i < |segs| && 0 <= j < |segs| && v in segs[i] && v in segs[j] ensures i == j {
      if i != j {
        var a :| 0 <= a < |segs[i]| && segs[i][a] == v;
        var b :| 0 <= b < |segs[j]| && segs[j][b] == v;
        SegmentsApart(edges, |rank|, segs, segMap, i, j, a, b);
      }
    }
  }

  /**
   * The vertices of paths that each end at the root (which has no parent),
   * on an earlier path, or earlier on themselves are closed under parents.
   */
  lemma {:induction false} PathsUpClosed(parent: seq<Option<nat>>, root: nat, ps: seq<seq<nat>>)
    requires root < |parent| && parent[root].None?
    requires forall j :: 0 <= j < |ps| ==>
      && |ps[j]| >= 1 && Linked(parent, ps[j])
      && (Last(ps[j]) == root || Last(ps[j]) in Covered(ps[..j]) || Last(ps[j]) in ps[j][..|ps[j]| - 1])
    ensures UpClosed(parent, Covered(ps))
    decreases |ps|
  {
    if ps != [] {
      var prefix := ps[..|ps| - 1];
      var run := ps[|ps| - 1];
      forall j | 0 <= j < |prefix| ensures prefix[..j] == ps[..j] { }
      PathsUpClosed(parent, root, prefix);
      assert ps[..|ps| - 1] == prefix;
      var last := set k | 0 <= k < |run| :: run[k];
      assert Covered(ps) == Covered(prefix) + last;
      forall v | v in Covered(ps) && v < |parent| && parent[v].Some? ensures parent[v].value in Covered(ps) {
        if v !in Covered(prefix) {
          var k :| 0 <= k < |run| && run[k] == v;
          if k < |run| - 1 {
            assert run[k + 1] in last;
          } else {
            assert Last(run) in run[..|run| - 1];
            var m :| 0 <= m < |run| - 1 && run[m] == v;
            assert run[m + 1] in last;
          }
        }
      }
    }
  }

  /**
   * On tree edges rooted at `root` (rank 0) with fresh end points all at
   * finite distance, the paths `_compute_paths` finds pass through every
   * vertex.
   */
  lemma PathsCoverTree(edges: seq<Edge>, rank: seq<nat>, root: nat, ps: seq<seq<nat>>, eps: seq<nat>,
                       key: seq<Extended<real>>, order: seq<nat>)
    requires Ranked(edges, rank) && SingleParent(edges) && root < |rank| && rank[root] == 0
    requires eps == EndPointsOf(edges, |rank|) && |key| == |eps| && IsPermutation(order, |eps|)
    requires forall e :: 0 <= e < |key| ==> key[e].Finite?
    requires PathDecomposition(ParentsOf(|rank|, edges), root, ps, eps, key, order)
    ensures forall v :: 0 <= v < |rank| ==> v in Covered(ps)
  {
    var n := |rank|;
    var parent := ParentsOf(n, edges);
    assert EdgesInRange(edges, n);
    ParentIsLastWrite(n, edges, root);
    PathsUpClosed(parent, root, ps);
    EndPointsOfSpec(edges, n);
    KeptMembers(order, key);
    ForestIndex.Pigeonhole(order);
    var kept := Kept(order, key);
    forall x | 0 <= x < n && ChildCount(edges, x) == 0 ensures x in Covered(ps) {
      assert x in eps;
      var e :| 0 <= e < |eps| && eps[e] == x;
      assert e in kept;
      var j :| 0 <= j < |kept| && kept[j] == e;
      CoveredSpec(ps, x);
      assert ps[j][0] == x;
    }
    forall v | 0 <= v < n ensures v in Covered(ps) {
      HoldsAllBelow(edges, rank, Covered(ps), v);
    }
  }
}
