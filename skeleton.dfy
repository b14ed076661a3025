/**
 * One skeleton: a tree over a fixed vertex set whose edges `reroot` orients as
 * (child, parent), with a parent array derived from them and lazily computed,
 * cached results (graphs, branch and end points, paths, segments).
 */
module Skeletons {
  import opened Wrappers
  import opened TreeGraph

  /** A named array co-indexed with vertices or edges; its entries are modelled as integers. */
  type Properties = map<string, seq<int>>

  /**
   * What the constructor's third positional slot (`mesh_to_skel_map`) holds:
   * nothing, a mesh-to-skeleton index array, or, as the forest passes it, a
   * property dictionary.
   */
  datatype MeshMapSlot = NoMeshMap | MeshMap(skeletonIndex: seq<int>) | PropertySlot(properties: Properties)

  /** Descending order of path keys, infinity first (`argsort(...)[::-1]`). */
  predicate AtLeast(a: Extended<real>, b: Extended<real>) {
    a.Infinite? || (b.Finite? && a.value >= b.value)
  }

  /** `order` lists every index below `n` exactly once. */
  predicate IsPermutation(order: seq<nat>, n: nat) {
    |order| == n && InRange(order, n) && Distinct(order)
  }

  predicate DescendingOrder(order: seq<nat>, key: seq<Extended<real>>)
    requires InRange(order, |key|)
  {
    forall i, j :: 0 <= i < j < |order| ==> AtLeast(key[order[i]], key[order[j]])
  }

  /** The end point positions of `order` whose distance to the root is finite, in order. */
  function Kept(order: seq<nat>, key: seq<Extended<real>>): (r: seq<nat>)
    requires InRange(order, |key|)
    ensures InRange(r, |key|)
    decreases |order|
  {
    if order == [] then []
    else
      var e := order[|order| - 1];
      Kept(order[..|order| - 1], key) + (if key[e].Infinite? then [] else [e])
  }

  /** `ds[:, root]`: the distance to the root of each end point, by position. */
  function EndPointDistances(eps: seq<nat>, distToRoot: seq<Extended<real>>): (key: seq<Extended<real>>)
    requires InRange(eps, |distToRoot|)
    ensures |key| == |eps| && forall i :: 0 <= i < |eps| ==> key[i] == distToRoot[eps[i]]
  {
    seq(|eps|, i requires 0 <= i < |eps| => distToRoot[eps[i]])
  }

  /** The kept positions are exactly the positions of `order` at finite distance. */
  lemma {:induction false} KeptMembers(order: seq<nat>, key: seq<Extended<real>>)
    requires InRange(order, |key|)
    ensures forall e :: e in Kept(order, key) <==> e in order && key[e].Finite?
    decreases |order|
  {
    if order != [] {
      var prefix := order[..|order| - 1];
      var last := order[|order| - 1];
      KeptMembers(prefix, key);
      assert order == prefix + [last];
      forall e ensures e in Kept(order, key) <==> e in order && key[e].Finite? {
        assert e in order <==> e in prefix || e == last;
      }
    }
  }

  /** No position is kept more often than it occurs in `order`. */
  lemma {:induction false} KeptCounts(order: seq<nat>, key: seq<Extended<real>>)
    requires InRange(order, |key|)
    ensures multiset(Kept(order, key)) <= multiset(order)
    decreases |order|
  {
    if order != [] {
      var prefix := order[..|order| - 1];
      var last := order[|order| - 1];
      var before := Kept(prefix, key);
      KeptCounts(prefix, key);
      assert order == prefix + [last];
      assert multiset(order) == multiset(prefix) + multiset{last};
      if key[last].Infinite? {
        assert Kept(order, key) == before;
        SumBelow(multiset(before), multiset(prefix), multiset{}, multiset{last});
      } else {
        assert Kept(order, key) == before + [last];
        assert multiset(before + [last]) == multiset(before) + multiset{last};
        SumBelow(multiset(before), multiset(prefix), multiset{last}, multiset{last});
      }
    }
  }

  /** Sums of smaller multisets are smaller. */
  lemma SumBelow(a: multiset<nat>, b: multiset<nat>, c: multiset<nat>, d: multiset<nat>)
    requires a <= b && c <= d
    ensures a + c <= b + d
  {
    forall x ensures (a + c)[x] <= (b + d)[x] {
      assert a[x] <= b[x] && c[x] <= d[x];
    }
  }

  /** Dropping the positions at infinite distance keeps the descending order. */
  lemma {:induction false} KeptDescending(order: seq<nat>, key: seq<Extended<real>>)
    requires InRange(order, |key|) && DescendingOrder(order, key)
    ensures DescendingOrder(Kept(order, key), key)
    decreases |order|
  {
    if order != [] {
      var prefix := order[..|order| - 1];
      var e := order[|order| - 1];
      assert DescendingOrder(prefix, key);
      KeptDescending(prefix, key);
      KeptMembers(prefix, key);
      var kept := Kept(prefix, key);
      forall x | x in kept ensures AtLeast(key[x], key[e]) {
        var i :| 0 <= i < |prefix| && prefix[i] == x;
        assert order[i] == x;
      }
      if key[e].Finite? {
        var r := kept + [e];
        forall i, j | 0 <= i < j < |r| ensures AtLeast(key[r[i]], key[r[j]]) {
          if j < |kept| {
            assert r[i] == kept[i] && r[j] == kept[j];
          } else {
            assert r[i] in kept;
          }
        }
      }
    }
  }

  /** The index of the last segment holding `v`, or -1 when none does. */
  function LastHolding(segs: seq<seq<nat>>, v: nat): (r: int)
    ensures -1 <= r < |segs|
    decreases |segs|
  {
    if segs == [] then -1
    else if v in segs[|segs| - 1] then |segs| - 1
    else LastHolding(segs[..|segs| - 1], v)
  }

  /**
   * `LastHolding` is -1 exactly when no segment holds `v`; otherwise the
   * segment it names holds `v` and no later one does.
   */
  lemma {:induction false} LastHoldingSpec(segs: seq<seq<nat>>, v: nat)
    ensures var r := LastHolding(segs, v);
      && (r == -1 <==> forall i :: 0 <= i < |segs| ==> v !in segs[i])
      && (r >= 0 ==> v in segs[r] && forall i :: r < i < |segs| ==> v !in segs[i])
    decreases |segs|
  {
    if segs != [] && v !in segs[|segs| - 1] {
      var prefix := segs[..|segs| - 1];
      LastHoldingSpec(prefix, v);
      assert forall i :: 0 <= i < |prefix| ==> prefix[i] == segs[i];
    }
  }

  /** `segMap[v]` is the index of the last segment holding `v`, or -1 when no segment holds it. */
  ghost predicate LastSegmentMap(segs: seq<seq<nat>>, segMap: seq<int>) {
    forall v :: 0 <= v < |segMap| ==> segMap[v] == LastHolding(segs, v)
  }

  /**
   * Marking the vertices of `marked` turns the flags `before` into `after`:
   * each of them was unmarked before, and nothing else changed.
   */
  ghost predicate Marked(before: seq<bool>, after: seq<bool>, marked: seq<nat>) {
    && |after| == |before|
    && (forall k :: 0 <= k < |marked| ==> marked[k] < |before| && !before[marked[k]])
    && (forall v :: 0 <= v < |after| ==> after[v] == (before[v] || v in marked))
  }

  /**
   * What `_compute_paths` promises of its result `ps` for the parent array
   * `parent`, the root, the end points `eps`, their distances `key` to the
   * root and the processing `order`: one path per end point at finite
   * distance, in that order, each a walk up from its end point whose
   * vertices before the last are neither the root nor on an earlier path,
   * and whose last vertex is the root, on an earlier path, or earlier on the
   * same walk.
   */
  ghost predicate PathDecomposition(parent: seq<Option<nat>>, root: nat, ps: seq<seq<nat>>, eps: seq<nat>,
                                    key: seq<Extended<real>>, order: seq<nat>)
    requires InRange(order, |key|) && |key| == |eps|
  {
    var kept := Kept(order, key);
    && |ps| == |kept|
    && forall j :: 0 <= j < |ps| ==>
      && |ps[j]| >= 1 && ps[j][0] == eps[kept[j]]
      && InRange(ps[j], |parent|) && Linked(parent, ps[j])
      && (forall k :: 0 <= k < |ps[j]| - 1 ==> ps[j][k] != root && ps[j][k] !in Covered(ps[..j]))
      && Distinct(ps[j][..|ps[j]| - 1])
      && (Last(ps[j]) == root || Last(ps[j]) in Covered(ps[..j]) || Last(ps[j]) in ps[j][..|ps[j]| - 1])
  }

  /**
   * The state of `_compute_paths` after the end points of `order`: the
   * paths found so far decompose them and the flags mark exactly the root
   * and the paths' vertices before their last.
   */
  ghost predicate PathLoop(parent: seq<Option<nat>>, root: nat, vis: seq<bool>, ps: seq<seq<nat>>, eps: seq<nat>,
                           key: seq<Extended<real>>, order: seq<nat>)
  {
    && |vis| == |parent| && ParentsInRange(parent)
    && InRange(order, |key|) && |key| == |eps| && InRange(eps, |parent|)
    && NonEmptyRuns(ps) && VisitedExactly(vis, root, ps)
    && PathDecomposition(parent, root, ps, eps, key, order)
  }

  /** A walk from the next end point that marks what it passes extends the decomposition. */
  lemma PathLoopStep(parent: seq<Option<nat>>, root: nat, before: seq<bool>, after: seq<bool>, ps: seq<seq<nat>>,
                     eps: seq<nat>, key: seq<Extended<real>>, order: seq<nat>, path: seq<nat>)
    requires |order| > 0 && PathLoop(parent, root, before, ps, eps, key, order[..|order| - 1])
    requires order[|order| - 1] < |key| && key[order[|order| - 1]].Finite?
    requires |path| >= 1 && path[0] == eps[order[|order| - 1]]
    requires InRange(path, |parent|) && Linked(parent, path)
    requires Marked(before, after, path[..|path| - 1]) && Distinct(path[..|path| - 1])
    requires before[Last(path)] || Last(path) in path[..|path| - 1]
    ensures PathLoop(parent, root, after, ps + [path], eps, key, order)
  {
    VisitStep(before, after, root, ps, path);
    PathStep(parent, root, ps, path, eps, key, order);
  }

  /** Skipping an end point at infinite distance keeps the loop state. */
  lemma PathLoopSkip(parent: seq<Option<nat>>, root: nat, vis: seq<bool>, ps: seq<seq<nat>>,
                     eps: seq<nat>, key: seq<Extended<real>>, order: seq<nat>)
    requires |order| > 0 && PathLoop(parent, root, vis, ps, eps, key, order[..|order| - 1])
    requires order[|order| - 1] < |key| && key[order[|order| - 1]].Infinite?
    ensures PathLoop(parent, root, vis, ps, eps, key, order)
  {
    assert Kept(order, key) == Kept(order[..|order| - 1], key);
  }

  /** A walk that marked all its vertices, the root being marked already, never reached the root. */
  lemma WalkMissesRoot(parent: seq<Option<nat>>, root: nat, before: seq<bool>, after: seq<bool>, ps: seq<seq<nat>>,
                       eps: seq<nat>, key: seq<Extended<real>>, order: seq<nat>, path: seq<nat>)
    requires PathLoop(parent, root, before, ps, eps, key, order)
    requires |path| >= 1 && Marked(before, after, path)
    ensures Last(path) != root
  {
    assert path[|path| - 1] == Last(path);
  }

  /** Adding one more walk keeps the decomposition. */
  lemma PathStep(parent: seq<Option<nat>>, root: nat, ps: seq<seq<nat>>, path: seq<nat>, eps: seq<nat>,
                 key: seq<Extended<real>>, order: seq<nat>)
    requires InRange(order, |key|) && |key| == |eps| && |order| > 0
    requires PathDecomposition(parent, root, ps, eps, key, order[..|order| - 1])
    requires key[order[|order| - 1]].Finite?
    requires |path| >= 1 && path[0] == eps[order[|order| - 1]]
    requires InRange(path, |parent|) && Linked(parent, path)
    requires forall k :: 0 <= k < |path| - 1 ==> path[k] != root && path[k] !in Covered(ps)
    requires Distinct(path[..|path| - 1])
    requires Last(path) == root || Last(path) in Covered(ps) || Last(path) in path[..|path| - 1]
    ensures PathDecomposition(parent, root, ps + [path], eps, key, order)
  {
    var qs := ps + [path];
    assert qs[..|ps|] == ps;
    forall j | 0 <= j < |ps| ensures qs[..j] == ps[..j] { }
  }

  /** A walk up the parent array extends by the parent of its last vertex. */
  lemma ExtendWalk(parent: seq<Option<nat>>, path: seq<nat>, v: nat)
    requires |path| >= 1 && InRange(path, |parent|) && Linked(parent, path)
    requires parent[Last(path)] == Some(v) && v < |parent|
    ensures InRange(path + [v], |parent|) && Linked(parent, path + [v])
    ensures (path + [v])[..|path|] == path && (path + [v])[0] == path[0]
  {
    var next := path + [v];
    forall i | 0 <= i < |next| - 1 ensures next[i] < |parent| && parent[next[i]] == Some(next[i + 1]) {
      if i < |path| - 1 {
        assert next[i] == path[i] && next[i + 1] == path[i + 1];
      }
    }
  }

  /** A vertex is marked afterwards exactly when it was before or is one of those marked. */
  lemma MarkedAt(before: seq<bool>, after: seq<bool>, marked: seq<nat>, v: nat)
    requires Marked(before, after, marked) && v < |after|
    ensures after[v] == (before[v] || v in marked)
  {
  }

  /**
   * The state of `_unvisited_path_on_tree` standing on `at`: the flags were
   * `before` and now also mark the vertices `walked`, which with `at`
   * form a walk up `parent` from `start`.
   */
  ghost predicate Walking(parent: seq<Option<nat>>, before: seq<bool>, flags: seq<bool>, start: nat, walked: seq<nat>, at: nat) {
    && |flags| == |parent| && ParentsInRange(parent) && at < |parent|
    && (walked + [at])[0] == start
    && InRange(walked + [at], |parent|) && Linked(parent, walked + [at])
    && Marked(before, flags, walked) && Distinct(walked)
  }

  /**
   * Marking the unmarked vertex the walk stands on leaves fewer vertices
   * unmarked, and stepping to its parent, when it has one, keeps walking.
   */
  lemma WalkOn(parent: seq<Option<nat>>, before: seq<bool>, flags: seq<bool>, start: nat, walked: seq<nat>, at: nat)
    requires Walking(parent, before, flags, start, walked, at) && !flags[at]
    ensures |Unmarked(flags[at := true])| < |Unmarked(flags)|
    ensures Marked(before, flags[at := true], walked + [at]) && Distinct(walked + [at])
    ensures parent[at].Some? ==> Walking(parent, before, flags[at := true], start, walked + [at], parent[at].value)
  {
    MarkOne(before, flags, walked, at);
    forall k | 0 <= k < |walked| ensures walked[k] != at {
      MarkedAt(before, flags, walked, walked[k]);
    }
    if parent[at].Some? {
      ExtendWalk(parent, walked + [at], parent[at].value);
    }
  }

  /** The vertices not yet marked. */
  ghost function Unmarked(flags: seq<bool>): set<nat> {
    set v | 0 <= v < |flags| && !flags[v]
  }

  /** Marking one more unmarked vertex extends the marking and leaves fewer vertices unmarked. */
  lemma MarkOne(before: seq<bool>, current: seq<bool>, marked: seq<nat>, v: nat)
    requires Marked(before, current, marked) && v < |current| && !current[v]
    ensures Marked(before, current[v := true], marked + [v])
    ensures |Unmarked(current[v := true])| < |Unmarked(current)|
  {
    assert Unmarked(current[v := true]) == Unmarked(current) - {v};
    var next := marked + [v];
    forall u | 0 <= u < |current| ensures current[v := true][u] == (before[u] || u in next) {
      assert u in next <==> u in marked || u == v;
    }
  }

  /**
   * The flags `vis` mark exactly the root and the vertices before the last of
   * each run, and every vertex on a run is marked.
   */
  ghost predicate VisitedExactly(vis: seq<bool>, root: nat, runs: seq<seq<nat>>)
    requires NonEmptyRuns(runs)
  {
    && root < |vis|
    && (forall v :: 0 <= v < |vis| ==> (vis[v] <==> v == root || v in InteriorCovered(runs)))
    && (forall v :: v in Covered(runs) ==> v < |vis| && vis[v])
  }

  /**
   * A walk that marks only unmarked vertices and ends on a vertex that was
   * marked, or earlier on the walk, is a fresh path: it avoids the root and
   * the earlier runs before its last vertex, and the marks afterwards are
   * those of the runs with the walk added.
   */
  lemma VisitStep(before: seq<bool>, after: seq<bool>, root: nat, runs: seq<seq<nat>>, path: seq<nat>)
    requires NonEmptyRuns(runs) && VisitedExactly(before, root, runs)
    requires |path| >= 1 && Last(path) < |before|
    requires Marked(before, after, path[..|path| - 1])
    requires before[Last(path)] || Last(path) in path[..|path| - 1]
    ensures NonEmptyRuns(runs + [path]) && VisitedExactly(after, root, runs + [path])
    ensures forall k :: 0 <= k < |path| - 1 ==> path[k] != root && path[k] !in Covered(runs)
    ensures Last(path) == root || Last(path) in Covered(runs) || Last(path) in path[..|path| - 1]
  {
    var interior := path[..|path| - 1];
    var next := runs + [path];
    assert next[..|runs|] == runs;
    assert InteriorCovered(next) == InteriorCovered(runs) + set i | 0 <= i < |path| - 1 :: path[i];
    assert Covered(next) == Covered(runs) + set i | 0 <= i < |path| :: path[i];
    forall k | 0 <= k < |path| - 1 ensures path[k] != root && path[k] !in Covered(runs) {
      assert interior[k] == path[k];
    }
    forall v | 0 <= v < |after| ensures after[v] <==> v == root || v in InteriorCovered(next) {
      assert v in interior <==> v in set i | 0 <= i < |path| - 1 :: path[i];
    }
    forall v | v in Covered(next) ensures v < |after| && after[v] {
      if v !in Covered(runs) {
        var i :| 0 <= i < |path| && path[i] == v;
        if i < |path| - 1 {
          assert interior[i] == v;
        }
      }
    }
  }

  /**
   * The parent array `reroot` fills: start with no parent anywhere and, edge
   * by edge, set the child's entry to the parent.
   */
  method FillParents(n: nat, edges: seq<Edge>) returns (parents: seq<Option<nat>>)
    requires EdgesInRange(edges, n)
    ensures parents == ParentsOf(n, edges)
  {
    var parent := new Option<nat>[n](_ => None);
    for i := 0 to |edges|
      modifies parent
      invariant parent[..] == ParentsOf(n, edges[..i])
    {
      FillStep(n, edges, i);
      parent[edges[i].0] := Some(edges[i].1);
    }
    assert edges[..|edges|] == edges;
    parents := parent[..];
  }

  /** One more `parent[c] := p` write fills the parent array of one more edge. */
  lemma FillStep(n: nat, edges: seq<Edge>, i: nat)
    requires EdgesInRange(edges, n) && i < |edges|
    ensures ParentsOf(n, edges[..i + 1]) == ParentsOf(n, edges[..i])[edges[i].0 := Some(edges[i].1)]
  {
    assert edges[..i + 1][..i] == edges[..i];
  }

  /**
   * `seg` is a walk up the parent array `parent` that holds a branch point of
   * `bps` at most as its first vertex, and stops where the next vertex up is a
   * branch point or where there is none.
   */
  ghost predicate IsSegment(parent: seq<Option<nat>>, seg: seq<nat>, bps: seq<nat>) {
    && |seg| >= 1 && InRange(seg, |parent|) && Linked(parent, seg)
    && (forall k :: 1 <= k < |seg| ==> seg[k] !in bps)
    && Last(seg) < |parent|
    && (parent[Last(seg)].None? || parent[Last(seg)].value in bps)
  }

  /**
   * What `_compute_segments` promises for the end points `eps` and branch
   * points `bps`: every segment is a walk up between branch points, the
   * segments start at the end points and at the branch points some segment
   * stopped short of, each of those once, and the map sends every vertex to
   * the last segment holding it.
   */
  ghost predicate SegmentDecomposition(parent: seq<Option<nat>>, segs: seq<seq<nat>>, segMap: seq<int>, eps: seq<nat>, bps: seq<nat>) {
    && |segMap| == |parent|
    && (forall i :: 0 <= i < |segs| ==> IsSegment(parent, segs[i], bps))
    && multiset(Starts(segs)) == multiset(eps) + multiset(StopPoints(parent, segs))
    && LastSegmentMap(segs, segMap)
  }

  /**
   * The bookkeeping of `_compute_segments` between two segments: the
   * segments recorded so far are proper, the branch points queued so far are
   * exactly those some segment stopped short of, each queued once, and the
   * segments' first vertices together with the queue are the end points and
   * the queued branch points.
   */
  ghost predicate QueueInvariant(parent: seq<Option<nat>>, segs: seq<seq<nat>>, queue: seq<nat>, bpSeen: seq<nat>, eps: seq<nat>, bps: seq<nat>) {
    && (forall i :: 0 <= i < |segs| ==> IsSegment(parent, segs[i], bps))
    && Distinct(bpSeen) && (forall b :: b in bpSeen ==> b in bps)
    && (forall b :: b in bpSeen <==> b in StopPoints(parent, segs))
    && multiset(Starts(segs)) + multiset(queue) == multiset(eps) + multiset(bpSeen)
  }

  /**
   * Recording a segment for the last queued vertex, and queueing the branch
   * point it stopped short of when that one was never queued, keeps the
   * bookkeeping.
   */
  lemma QueueStep(parent: seq<Option<nat>>, segs: seq<seq<nat>>, queue: seq<nat>, bpSeen: seq<nat>, eps: seq<nat>, bps: seq<nat>, segment: seq<nat>)
    requires QueueInvariant(parent, segs, queue, bpSeen, eps, bps)
    requires |queue| > 0 && IsSegment(parent, segment, bps) && segment[0] == Last(queue)
    ensures var stop := parent[Last(segment)];
      var rest := queue[..|queue| - 1];
      if stop.Some? && stop.value !in bpSeen
      then QueueInvariant(parent, segs + [segment], rest + [stop.value], bpSeen + [stop.value], eps, bps)
      else QueueInvariant(parent, segs + [segment], rest, bpSeen, eps, bps)
  {
    var rest := queue[..|queue| - 1];
    var stop := parent[Last(segment)];
    var next := segs + [segment];
    PopSegment(parent, segs, queue, bpSeen, eps, bps, segment);
    if stop.Some? && stop.value !in bpSeen {
      var seen := bpSeen + [stop.value];
      assert multiset(rest + [stop.value]) == multiset(rest) + multiset{stop.value};
      assert multiset(seen) == multiset(bpSeen) + multiset{stop.value};
      AddToBothSides(multiset(Starts(next)), multiset(rest), multiset(eps), multiset(bpSeen), multiset{stop.value});
      assert forall b :: b in seen <==> b in bpSeen || b == stop.value;
      AppendDistinct(bpSeen, stop.value);
    }
  }

  /** Taking the last queued vertex off the queue and recording its segment keeps the start bookkeeping. */
  lemma PopSegment(parent: seq<Option<nat>>, segs: seq<seq<nat>>, queue: seq<nat>, bpSeen: seq<nat>, eps: seq<nat>, bps: seq<nat>, segment: seq<nat>)
    requires QueueInvariant(parent, segs, queue, bpSeen, eps, bps)
    requires |queue| > 0 && IsSegment(parent, segment, bps) && segment[0] == Last(queue)
    ensures forall i :: 0 <= i < |segs| + 1 ==> IsSegment(parent, (segs + [segment])[i], bps)
    ensures NonEmptyRuns(segs + [segment])
    ensures forall i :: 0 <= i < |segs| + 1 ==> Last((segs + [segment])[i]) < |parent|
    ensures multiset(Starts(segs + [segment])) + multiset(queue[..|queue| - 1]) == multiset(eps) + multiset(bpSeen)
    ensures var stop := parent[Last(segment)];
      StopPoints(parent, segs + [segment]) == StopPoints(parent, segs) + (if stop.Some? then {stop.value} else {})
  {
    var rest := queue[..|queue| - 1];
    var next := segs + [segment];
    AppendSegment(parent, segs, segment, bps);
    assert queue == rest + [segment[0]];
    assert multiset(Starts(next)) == multiset(Starts(segs)) + multiset{segment[0]};
    assert multiset(queue) == multiset(rest) + multiset{segment[0]};
  }

  /** A sequence without repeats stays so when a new element is appended. */
  lemma AppendDistinct(s: seq<nat>, v: nat)
    requires Distinct(s) && v !in s
    ensures Distinct(s + [v])
  {
    var t := s + [v];
    forall i, j | 0 <= i < j < |t| ensures t[i] != t[j] {
      if j == |s| {
        assert t[i] in s;
      }
    }
  }

  /** Adding the same elements to one part of each side of a multiset equation keeps it. */
  lemma AddToBothSides(a: multiset<nat>, b: multiset<nat>, c: multiset<nat>, d: multiset<nat>, x: multiset<nat>)
    requires a + b == c + d
    ensures a + (b + x) == c + (d + x)
  {
    assert a + (b + x) == (a + b) + x;
    assert c + (d + x) == (c + d) + x;
  }

  /** Recording one more segment adds its first vertex to the starts and the vertex it stopped short of to the stop points. */
  lemma AppendSegment(parent: seq<Option<nat>>, segs: seq<seq<nat>>, segment: seq<nat>, bps: seq<nat>)
    requires forall i :: 0 <= i < |segs| ==> IsSegment(parent, segs[i], bps)
    requires IsSegment(parent, segment, bps)
    ensures NonEmptyRuns(segs) && NonEmptyRuns(segs + [segment])
    ensures forall i :: 0 <= i < |segs| + 1 ==> Last((segs + [segment])[i]) < |parent|
    ensures Starts(segs + [segment]) == Starts(segs) + [segment[0]]
    ensures var stop := parent[Last(segment)];
      StopPoints(parent, segs + [segment]) == StopPoints(parent, segs) + (if stop.Some? then {stop.value} else {})
  {
    var next := segs + [segment];
    assert next[..|segs|] == segs;
    forall i | 0 <= i < |next| ensures |next[i]| > 0 && Last(next[i]) < |parent| {
      assert IsSegment(parent, next[i], bps);
    }
  }

  class Skeleton {
    const nVertices: nat
    const meshToSkelMap: MeshMapSlot
    const vertexProperties: Properties
    const edgeProperties: Properties

    var root: nat
    var edges: seq<Edge>
    var parentNodes: seq<Option<nat>>

    // Cached results; `None` means "not computed yet". A cached graph is
    // represented by the edge list it was built from.
    var paths: Option<seq<seq<nat>>>
    var segments: Option<seq<seq<nat>>>
    var segmentMap: Option<seq<int>>
    var weightedGraph: Option<seq<Edge>>
    var binaryGraph: Option<seq<Edge>>
    var branchPoints: Option<seq<nat>>
    var endPoints: Option<seq<nat>>

    /** What every state has, also before the first reroot fills the parent array. */
    ghost predicate Shaped()
      reads this
    {
      && EdgesInRange(edges, nVertices)
      && (weightedGraph.Some? ==> weightedGraph.value == edges)
      && (binaryGraph.Some? ==> binaryGraph.value == edges)
      && (branchPoints.Some? <==> endPoints.Some?)
      && (branchPoints.Some? ==> InRange(branchPoints.value, nVertices))
      && (endPoints.Some? ==> InRange(endPoints.value, nVertices))
      && (segments.Some? <==> segmentMap.Some?)
    }

    /**
     * The object invariant: the root is a vertex, the parent array is the one
     * the current edges give, and a cached graph never belongs to an earlier
     * orientation. Cached branch and end points are only known to be vertices:
     * they may belong to an earlier orientation.
     */
    ghost predicate Valid()
      reads this
    {
      && Shaped()
      && root < nVertices
      && parentNodes == ParentsOf(nVertices, edges)
    }

    /**
     * `Skeleton(vertices, edges, mesh_to_skel_map, vertex_properties,
     * edge_properties, root)`. Without a root the skeleton is rerooted at
     * `defaultRoot`, the far point the graph helper picks. `d` holds the hop
     * distances from the root used, as the shortest-path routine reports them.
     * The edge list must not be empty: `np.vstack` raises `ValueError` on an
     * empty one.
     */
    constructor (nVertices: nat, edges: seq<Edge>, meshToSkelMap: MeshMapSlot,
                 vertexProperties: Properties, edgeProperties: Properties,
                 root: Option<nat>, defaultRoot: nat, d: seq<Hops>)
      requires |edges| > 0 && EdgesInRange(edges, nVertices)
      requires root.Some? ==> root.value < nVertices
      requires defaultRoot < nVertices && |d| == nVertices
      ensures Valid()
      ensures this.nVertices == nVertices && this.meshToSkelMap == meshToSkelMap
      ensures this.vertexProperties == vertexProperties && this.edgeProperties == edgeProperties
      ensures this.root == if root.Some? then root.value else defaultRoot
      ensures this.edges == OrientAll(edges, d)
      ensures paths.None? && segments.None? && segmentMap.None?
      ensures weightedGraph.None? && binaryGraph.None? && branchPoints.None? && endPoints.None?
    {
      this.nVertices := nVertices;
      this.meshToSkelMap := meshToSkelMap;
      this.vertexProperties := vertexProperties;
      this.edgeProperties := edgeProperties;
      this.edges := edges;
      this.root := defaultRoot;
      this.parentNodes := seq(nVertices, _ => None);
      this.paths, this.segments, this.segmentMap := None, None, None;
      this.weightedGraph, this.binaryGraph := None, None;
      this.branchPoints, this.endPoints := None, None;
      new;
      ResetDerivedObjects();
      if root.None? {
        Reroot(defaultRoot, d);
      } else {
        Reroot(root.value, d);
      }
    }

    /**
     * `reroot`: orient every edge by the distances `d` from `newRoot`, fill a
     * fresh parent array from the oriented edges and clear the cached paths,
     * segments and graphs. Cached branch and end points are left as they were.
     */
    method Reroot(newRoot: nat, d: seq<Hops>)
      requires Shaped() && newRoot < nVertices && |d| == nVertices
      modifies this`root, this`edges, this`parentNodes, this`paths, this`segments, this`segmentMap
      modifies this`weightedGraph, this`binaryGraph
      ensures Valid()
      ensures root == newRoot
      ensures edges == OrientAll(old(edges), d)
      ensures paths.None? && segments.None? && segmentMap.None?
      ensures weightedGraph.None? && binaryGraph.None?
      ensures branchPoints == old(branchPoints) && endPoints == old(endPoints)
    {
      root := newRoot;
      var oriented := OrientAll(edges, d);
      var parent := FillParents(nVertices, oriented);
      edges := oriented;
      parentNodes := parent;
      ResetDerivedObjects();
    }

    /** `_reset_derived_objects`: drop the cached graphs, paths and segments (not branch or end points). */
    method ResetDerivedObjects()
      modifies this`weightedGraph, this`binaryGraph, this`paths, this`segments, this`segmentMap
      ensures weightedGraph.None? && binaryGraph.None?
      ensures paths.None? && segments.None? && segmentMap.None?
    {
      weightedGraph := None;
      binaryGraph := None;
      paths := None;
      segments := None;
      segmentMap := None;
    }

    /** The `csgraph` getter: the weighted graph of the current edges, built once. */
    method Csgraph() returns (g: seq<Edge>)
      requires Valid()
      modifies this`weightedGraph
      ensures Valid() && g == edges && weightedGraph == Some(edges)
    {
      if weightedGraph.None? {
        weightedGraph := Some(edges);
      }
      g := weightedGraph.value;
    }

    /** The `csgraph_binary` getter: the unweighted graph of the current edges, built once. */
    method CsgraphBinary() returns (g: seq<Edge>)
      requires Valid()
      modifies this`binaryGraph
      ensures Valid() && g == edges && binaryGraph == Some(edges)
    {
      if binaryGraph.None? {
        binaryGraph := Some(edges);
      }
      g := binaryGraph.value;
    }

    /** `_create_branch_and_end_points`: classify the vertices by their number of children. */
    method CreateBranchAndEndPoints()
      requires Valid()
      modifies this`binaryGraph, this`branchPoints, this`endPoints
      ensures Valid() && binaryGraph == Some(edges)
      ensures branchPoints == Some(BranchPointsOf(edges, nVertices))
      ensures endPoints == Some(EndPointsOf(edges, nVertices))
    {
      var g := CsgraphBinary();
      branchPoints := Some(BranchPointsOf(g, nVertices));
      endPoints := Some(EndPointsOf(g, nVertices));
    }

    /** The end points the `end_points` getter returns now: the cached list if any, else a fresh one. */
    ghost function CurrentEndPoints(): (eps: seq<nat>)
      reads this
      requires Valid()
      ensures InRange(eps, nVertices)
    {
      if endPoints.Some? then endPoints.value else EndPointsOf(edges, nVertices)
    }

    /** The branch points the `branch_points` getter returns now: the cached list if any, else a fresh one. */
    ghost function CurrentBranchPoints(): (bps: seq<nat>)
      reads this
      requires Valid()
      ensures InRange(bps, nVertices)
    {
      if branchPoints.Some? then branchPoints.value else BranchPointsOf(edges, nVertices)
    }

    /**
     * The `branch_points` getter: the cached list if there is one, otherwise
     * a fresh classification, which also caches the end points.
     */
    method BranchPoints() returns (bps: seq<nat>)
      requires Valid()
      modifies this`binaryGraph, this`branchPoints, this`endPoints
      ensures Valid() && bps == old(CurrentBranchPoints())
      ensures branchPoints == Some(bps) && endPoints == Some(old(CurrentEndPoints()))
      ensures old(branchPoints).Some? ==> binaryGraph == old(binaryGraph)
      ensures old(branchPoints).None? ==> binaryGraph == Some(edges)
    {
      if branchPoints.None? {
        CreateBranchAndEndPoints();
      }
      bps := branchPoints.value;
    }

    /**
     * The `end_points` getter: the cached list if there is one, otherwise a
     * fresh classification, which also caches the branch points.
     */
    method EndPoints() returns (eps: seq<nat>)
      requires Valid()
      modifies this`binaryGraph, this`branchPoints, this`endPoints
      ensures Valid() && eps == old(CurrentEndPoints())
      ensures endPoints == Some(eps) && branchPoints == Some(old(CurrentBranchPoints()))
      ensures old(endPoints).Some? ==> binaryGraph == old(binaryGraph)
      ensures old(endPoints).None? ==> binaryGraph == Some(edges)
    {
      if endPoints.None? {
        CreateBranchAndEndPoints();
      }
      eps := endPoints.value;
    }

    /**
     * The `paths` getter: the cached paths, or else those `_compute_paths`
     * finds for the current end points (reading `csgraph` first, which
     * caches the weighted graph). `distToRoot[v]` is the length of the
     * walk from `v` up to the root (infinite when the walk never reaches it),
     * and `order` is `argsort(...)[::-1]` of the end points' distances: both
     * are given inputs.
     */
    method Paths(distToRoot: seq<Extended<real>>, order: seq<nat>) returns (r: Result<seq<seq<nat>>>)
      requires Valid() && |distToRoot| == nVertices
      requires IsPermutation(order, |CurrentEndPoints()|)
      requires DescendingOrder(order, EndPointDistances(CurrentEndPoints(), distToRoot))
      modifies this`weightedGraph, this`binaryGraph, this`branchPoints, this`endPoints, this`paths
      ensures Valid()
      ensures old(paths).Some? ==> r == Success(old(paths).value) && unchanged(this)
      ensures old(paths).None? ==> weightedGraph == Some(edges)
      ensures old(paths).None? ==> endPoints == Some(old(CurrentEndPoints())) && branchPoints == Some(old(CurrentBranchPoints()))
      ensures old(paths).None? && r.Success? ==>
        paths == Some(r.value) && PathDecomposition(parentNodes, root, r.value, endPoints.value, EndPointDistances(endPoints.value, distToRoot), order)
      ensures old(paths).None? && r.Failure? ==> paths.None? && r.error.NoParent?
    {
      if paths.Some? {
        return Success(paths.value);
      }
      var _ := Csgraph();
      var eps := EndPoints();
      r := ComputePaths(eps, EndPointDistances(eps, distToRoot), order);
      if r.Success? {
        paths := Some(r.value);
      }
    }

    /**
     * `self._segments, self._segment_map = self._compute_segments()`, as
     * both getters run it: compute the segments of the current end and
     * branch points and cache them with the segment map.
     */
    method CacheSegments()
      requires Valid() && Acyclic(parentNodes)
      modifies this`binaryGraph, this`branchPoints, this`endPoints, this`segments, this`segmentMap
      ensures Valid() && segments.Some? && segmentMap.Some?
      ensures endPoints == Some(old(CurrentEndPoints())) && branchPoints == Some(old(CurrentBranchPoints()))
      ensures SegmentDecomposition(parentNodes, segments.value, segmentMap.value, endPoints.value, branchPoints.value)
    {
      var segs, segMap := SegmentsOfCurrentPoints();
      segments, segmentMap := Some(segs), Some(segMap);
    }

    /** `_compute_segments` run on the end and branch points its getters return. */
    method SegmentsOfCurrentPoints() returns (segs: seq<seq<nat>>, segMap: seq<int>)
      requires Valid() && Acyclic(parentNodes)
      modifies this`binaryGraph, this`branchPoints, this`endPoints
      ensures Valid() && Acyclic(parentNodes) && segments == old(segments) && segmentMap == old(segmentMap)
      ensures endPoints == Some(old(CurrentEndPoints())) && branchPoints == Some(old(CurrentBranchPoints()))
      ensures SegmentDecomposition(parentNodes, segs, segMap, endPoints.value, branchPoints.value)
    {
      ghost var parent := parentNodes;
      var eps := EndPoints();
      var bps := BranchPoints();
      assert parentNodes == parent && Acyclic(parent);
      segs, segMap := ComputeSegments(eps, bps);
    }

    /** The `segments` getter: the cached segments, or else freshly computed ones. */
    method Segments() returns (segs: seq<seq<nat>>)
      requires Valid() && Acyclic(parentNodes)
      modifies this`binaryGraph, this`branchPoints, this`endPoints, this`segments, this`segmentMap
      ensures Valid() && segments == Some(segs) && segmentMap.Some?
      ensures old(segments).Some? ==> segs == old(segments).value && unchanged(this)
      ensures old(segments).None? ==>
        endPoints == Some(old(CurrentEndPoints())) && branchPoints == Some(old(CurrentBranchPoints()))
      ensures old(segments).None? ==>
        SegmentDecomposition(parentNodes, segs, segmentMap.value, old(CurrentEndPoints()), old(CurrentBranchPoints()))
    {
      if segments.None? {
        CacheSegments();
      }
      segs := segments.value;
    }

    /** The `segment_map` getter: the cached map, or else one freshly computed with the segments. */
    method SegmentMap() returns (segMap: seq<int>)
      requires Valid() && Acyclic(parentNodes)
      modifies this`binaryGraph, this`branchPoints, this`endPoints, this`segments, this`segmentMap
      ensures Valid() && segmentMap == Some(segMap) && segments.Some?
      ensures old(segmentMap).Some? ==> segMap == old(segmentMap).value && unchanged(this)
      ensures old(segmentMap).None? ==>
        endPoints == Some(old(CurrentEndPoints())) && branchPoints == Some(old(CurrentBranchPoints()))
      ensures old(segmentMap).None? ==>
        SegmentDecomposition(parentNodes, segments.value, segMap, old(CurrentEndPoints()), old(CurrentBranchPoints()))
    {
      if segmentMap.None? {
        CacheSegments();
      }
      segMap := segmentMap.value;
    }

    /**
     * `path_to_root`: `v`, then its parent, its parent's parent, and so on up
     * to the first vertex without a parent. The walk must end, which a cycle
     * of parent pointers would prevent.
     */
    method PathToRoot(v: nat) returns (path: seq<nat>)
      requires |parentNodes| == nVertices && ParentsInRange(parentNodes) && v < nVertices && HasTop(parentNodes, v)
      ensures |path| >= 1 && path[0] == v && InRange(path, nVertices)
      ensures Linked(parentNodes, path)
      ensures parentNodes[Last(path)].None?
    {
      path := [v];
      var ind := parentNodes[v];
      ghost var fuel :| TopWithin(parentNodes, v, fuel);
      while ind.Some?
        invariant |path| >= 1 && path[0] == v && InRange(path, nVertices)
        invariant Linked(parentNodes, path)
        invariant ind == parentNodes[Last(path)]
        invariant TopWithin(parentNodes, Last(path), fuel)
        decreases fuel
      {
        path := path + [ind.value];
        fuel := fuel - 1;
        ind := parentNodes[ind.value];
      }
    }

    /**
     * `_unvisited_path_on_tree`: walk up from `ind`, marking each vertex
     * visited, until the walk stands on a vertex that is already visited; that
     * vertex ends the path and is not marked again. When the walk stands on an
     * unvisited vertex without a parent the source fails (it indexes `visited`
     * with `None`); then `ok` is false and the path ends at that vertex.
     */
    method UnvisitedPathOnTree(ind: nat, visited: array<bool>) returns (path: seq<nat>, ok: bool)
      requires |parentNodes| == nVertices && ParentsInRange(parentNodes) && ind < nVertices && visited.Length == nVertices
      modifies visited
      ensures |path| >= 1 && path[0] == ind && InRange(path, nVertices)
      ensures Linked(parentNodes, path)
      ensures Marked(old(visited[..]), visited[..], if ok then path[..|path| - 1] else path)
      ensures Distinct(if ok then path[..|path| - 1] else path)
      ensures ok ==> old(visited[Last(path)]) || Last(path) in path[..|path| - 1]
      ensures !ok ==> parentNodes[Last(path)].None?
    {
      ghost var before := visited[..];
      var parent := parentNodes;
      var nInd := ind;
      path := [nInd];
      ghost var walked: seq<nat> := [];
      while !visited[nInd]
        invariant path == walked + [nInd] && Walking(parent, before, visited[..], ind, walked, nInd)
        decreases |Unmarked(visited[..])|
      {
        WalkOn(parent, before, visited[..], ind, walked, nInd);
        visited[nInd] := true;
        walked := path;
        var next := parent[nInd];
        if next.None? {
          return path, false;
        }
        nInd := next.value;
        path := path + [nInd];
      }
      assert walked == path[..|path| - 1];
      MarkedAt(before, visited[..], walked, nInd);
      ok := true;
    }

    /**
     * `_compute_paths`: mark the root visited, then walk up from each end point
     * in `order` (the end point positions sorted by descending distance to the
     * root, `key`), skipping those at infinite distance.
     */
    method ComputePaths(eps: seq<nat>, key: seq<Extended<real>>, order: seq<nat>) returns (r: Result<seq<seq<nat>>>)
      requires |parentNodes| == nVertices && ParentsInRange(parentNodes) && root < nVertices && InRange(eps, nVertices) && |key| == |eps|
      requires InRange(order, |eps|)
      ensures r.Success? ==> PathDecomposition(parentNodes, root, r.value, eps, key, order)
      ensures r.Failure? ==>
        r.error.NoParent? && r.error.vertex < nVertices && r.error.vertex != root && parentNodes[r.error.vertex].None?
    {
      var visited := new bool[nVertices](_ => false);
      visited[root] := true;
      var ps: seq<seq<nat>> := [];
      ghost var parent, top := parentNodes, root;
      for i := 0 to |order|
        invariant parentNodes == parent && root == top
        invariant PathLoop(parent, top, visited[..], ps, eps, key, order[..i])
      {
        var epInd := order[i];
        assert order[..i + 1][..i] == order[..i];
        if key[epInd].Infinite? {
          PathLoopSkip(parent, top, visited[..], ps, eps, key, order[..i + 1]);
          continue;
        }
        ghost var before := visited[..];
        var path, ok := UnvisitedPathOnTree(eps[epInd], visited);
        if !ok {
          WalkMissesRoot(parent, top, before, visited[..], ps, eps, key, order[..i], path);
          return Failure(NoParent(path[|path| - 1]));
        }
        PathLoopStep(parent, top, before, visited[..], ps, eps, key, order[..i + 1], path);
        ps := ps + [path];
      }
      assert order[..|order|] == order;
      return Success(ps);
    }

    /**
     * The inner loop of `_compute_segments`: from `ind`, follow the path to
     * the root collecting vertices until the next one is a branch point of
     * `bps` (`crossed`, and that one is `bp`) or the path ends.
     */
    method WalkToBranchPoint(ind: nat, bps: seq<nat>) returns (segment: seq<nat>, crossed: bool, bp: nat)
      requires |parentNodes| == nVertices && ParentsInRange(parentNodes) && Acyclic(parentNodes) && ind < nVertices
      ensures IsSegment(parentNodes, segment, bps) && segment[0] == ind
      ensures crossed <==> parentNodes[Last(segment)].Some?
      ensures crossed ==> parentNodes[Last(segment)].value == bp && bp in bps
    {
      segment := [ind];
      var ptr := PathToRoot(ind);
      crossed := false;
      bp := 0;
      if |ptr| > 1 {
        var k := 1;
        while k < |ptr|
          invariant 1 <= k <= |ptr| && segment == ptr[..k] && !crossed
          invariant forall j :: 1 <= j < k ==> ptr[j] !in bps
        {
          if ptr[k] in bps {
            crossed := true;
            bp := ptr[k];
            assert parentNodes[Last(segment)] == Some(bp);
            return;
          }
          segment := segment + [ptr[k]];
          k := k + 1;
        }
        assert segment == ptr;
      }
    }

    /**
     * `_compute_segments`: take vertices from a LIFO queue seeded with the end
     * points; from each, walk up collecting vertices until a branch point (which
     * is queued unless it was queued before) or the top of the walk, and record
     * the collected run as the next segment.
     */
    method ComputeSegments(eps: seq<nat>, bps: seq<nat>) returns (segs: seq<seq<nat>>, segMap: seq<int>)
      requires |parentNodes| == nVertices && ParentsInRange(parentNodes) && Acyclic(parentNodes) && InRange(eps, nVertices) && InRange(bps, nVertices)
      ensures SegmentDecomposition(parentNodes, segs, segMap, eps, bps)
    {
      ghost var parents := parentNodes;
      segs := [];
      var mapping := new int[nVertices](_ => -1);
      var queue := eps;
      var bpSeen: seq<nat> := [];
      ghost var remaining := set b | b in bps;
      var segInd := 0;
      while |queue| > 0
        invariant segInd == |segs|
        invariant SegmentLoop(parents, segs, queue, bpSeen, remaining, mapping[..], eps, bps)
        decreases |remaining|, |queue|
      {
        var ind := queue[|queue| - 1];
        ghost var popped := queue;
        queue := queue[..|queue| - 1];
        var segment, crossed, bp := WalkToBranchPoint(ind, bps);
        ghost var before := mapping[..];
        SetAll(mapping, segment, segInd);
        SegmentLoopStep(parents, segs, popped, bpSeen, remaining, before, eps, bps, segment);
        segs := segs + [segment];
        segInd := segInd + 1;
        if crossed && bp !in bpSeen {
          queue := queue + [bp];
          bpSeen := bpSeen + [bp];
          remaining := remaining - {bp};
        }
      }
      segMap := mapping[..];
      SegmentLoopDone(parents, segs, bpSeen, remaining, segMap, eps, bps);
    }
  }

  /** The loop invariant of `_compute_segments`. */
  ghost predicate SegmentLoop(parent: seq<Option<nat>>, segs: seq<seq<nat>>, queue: seq<nat>, bpSeen: seq<nat>,
                              remaining: set<nat>, segMap: seq<int>, eps: seq<nat>, bps: seq<nat>)
  {
    && InRange(queue, |parent|) && |segMap| == |parent|
    && QueueInvariant(parent, segs, queue, bpSeen, eps, bps)
    && (forall b :: b in remaining <==> b in bps && b !in bpSeen)
    && LastSegmentMap(segs, segMap)
  }

  /**
   * One turn of the `_compute_segments` loop keeps its invariant, and either
   * takes a never-queued branch point out of `remaining` or shortens the queue.
   */
  lemma SegmentLoopStep(parent: seq<Option<nat>>, segs: seq<seq<nat>>, queue: seq<nat>, bpSeen: seq<nat>,
                        remaining: set<nat>, segMap: seq<int>, eps: seq<nat>, bps: seq<nat>, segment: seq<nat>)
    requires SegmentLoop(parent, segs, queue, bpSeen, remaining, segMap, eps, bps)
    requires |queue| > 0 && IsSegment(parent, segment, bps) && segment[0] == Last(queue)
    requires InRange(bps, |parent|)
    ensures var stop := parent[Last(segment)];
      var rest := queue[..|queue| - 1];
      var m := Assigned(segMap, segment, |segs|);
      if stop.Some? && stop.value !in bpSeen
      then stop.value in remaining
        && SegmentLoop(parent, segs + [segment], rest + [stop.value], bpSeen + [stop.value], remaining - {stop.value}, m, eps, bps)
      else SegmentLoop(parent, segs + [segment], rest, bpSeen, remaining, m, eps, bps)
  {
    QueueStep(parent, segs, queue, bpSeen, eps, bps, segment);
    SegmentStep(segs, segment, segMap, Assigned(segMap, segment, |segs|));
    var stop := parent[Last(segment)];
    if stop.Some? && stop.value !in bpSeen {
      var seen := bpSeen + [stop.value];
      assert forall b :: b in seen <==> b in bpSeen || b == stop.value;
    }
  }

  /** When the queue is empty, the invariant gives the promised decomposition. */
  lemma SegmentLoopDone(parent: seq<Option<nat>>, segs: seq<seq<nat>>, bpSeen: seq<nat>,
                        remaining: set<nat>, segMap: seq<int>, eps: seq<nat>, bps: seq<nat>)
    requires SegmentLoop(parent, segs, [], bpSeen, remaining, segMap, eps, bps)
    ensures SegmentDecomposition(parent, segs, segMap, eps, bps)
  {
    DistinctMultiset(bpSeen, StopPoints(parent, segs));
  }

  /** Recording one more segment in the map keeps it pointing at the last segment holding each vertex. */
  lemma SegmentStep(segs: seq<seq<nat>>, segment: seq<nat>, before: seq<int>, after: seq<int>)
    requires LastSegmentMap(segs, before) && after == Assigned(before, segment, |segs|)
    ensures LastSegmentMap(segs + [segment], after)
  {
    assert (segs + [segment])[..|segs|] == segs;
  }

  /** A list without repeats holds each of its elements once. */
  lemma {:induction false} DistinctMultiset(s: seq<nat>, elems: set<nat>)
    requires Distinct(s) && forall x :: x in s <==> x in elems
    ensures multiset(s) == multiset(elems)
    decreases |s|
  {
    if s == [] {
      assert forall x :: x !in elems;
      assert elems == {};
    } else {
      var x := s[|s| - 1];
      var prefix := s[..|s| - 1];
      assert s == prefix + [x];
      assert x !in prefix;
      DistinctMultiset(prefix, elems - {x});
      assert elems == (elems - {x}) + {x};
    }
  }

  /**
   * The path 0 - 1 - 2 rooted at 0 has the end points [2]; rerooted at 1 it
   * has [0, 2]. `Reroot` keeps cached end points, so a skeleton whose end
   * points were read before the reroot keeps reporting [2].
   */
  lemma StaleEndPointsAfterReroot()
    ensures var rootedAt0 := OrientAll([(0, 1), (1, 2)], [Finite(0), Finite(1), Finite(2)]);
      var rootedAt1 := OrientAll(rootedAt0, [Finite(1), Finite(0), Finite(1)]);
      EndPointsOf(rootedAt0, 3) == [2] && EndPointsOf(rootedAt1, 3) == [0, 2]
  {
    OrientPath();
    EndPointsRootedAtEnd();
    EndPointsRootedInMiddle();
  }

  /**
   * The stale cache on a skeleton: the path 0 - 1 - 2 built rooted at 0, its
   * end points read ([2]), then rerooted at 1. The `end_points` getter still
   * answers [2], while the edges it now holds give [0, 2].
   */
  method StaleEndPointsCache() returns (reported: seq<nat>, current: seq<nat>)
    ensures reported == [2] && current == [0, 2]
  {
    var s := new Skeleton(3, [(0, 1), (1, 2)], NoMeshMap, map[], map[], Some(0), 0, [Finite(0), Finite(1), Finite(2)]);
    StaleEndPointsAfterReroot();
    OrientPath();
    var first := s.EndPoints();
    s.Reroot(1, [Finite(1), Finite(0), Finite(1)]);
    reported := s.EndPoints();
    current := EndPointsOf(s.edges, s.nVertices);
  }

  /** Rooting the path 0 - 1 - 2 at 0, then rerooting it at 1. */
  lemma OrientPath()
    ensures OrientAll([(0, 1), (1, 2)], [Finite(0), Finite(1), Finite(2)]) == [(1, 0), (2, 1)]
    ensures OrientAll([(1, 0), (2, 1)], [Finite(1), Finite(0), Finite(1)]) == [(0, 1), (2, 1)]
  {
    var d1: seq<Hops> := [Finite(0), Finite(1), Finite(2)];
    var d2: seq<Hops> := [Finite(1), Finite(0), Finite(1)];
    assert Orient((0, 1), d1) == (1, 0) && Orient((1, 2), d1) == (2, 1);
    assert Orient((1, 0), d2) == (0, 1) && Orient((2, 1), d2) == (2, 1);
  }

  /** The end points of the path 0 - 1 - 2 oriented towards 0. */
  lemma EndPointsRootedAtEnd()
    ensures EndPointsOf([(1, 0), (2, 1)], 3) == [2]
  {
    var e: seq<Edge> := [(1, 0), (2, 1)];
    assert e[..1] == [(1, 0)] && e[..1][..0] == [];
    assert ChildCount(e, 0) == 1 && ChildCount(e, 1) == 1 && ChildCount(e, 2) == 0;
    assert EndPointsOf(e, 1) == [] && EndPointsOf(e, 2) == [];
  }

  /** The end points of the path 0 - 1 - 2 oriented towards 1. */
  lemma EndPointsRootedInMiddle()
    ensures EndPointsOf([(0, 1), (2, 1)], 3) == [0, 2]
  {
    var e: seq<Edge> := [(0, 1), (2, 1)];
    assert e[..1] == [(0, 1)] && e[..1][..0] == [];
    assert ChildCount(e, 0) == 0 && ChildCount(e, 1) == 2 && ChildCount(e, 2) == 0;
    assert EndPointsOf(e, 1) == [0] && EndPointsOf(e, 2) == [0];
  }

  /**
   * The chain 3 - 2 - 1 - 0 rooted at 0, with end point 3 and no branch
   * point, has the single segment [3, 2, 1, 0], and the map sends every
   * vertex to it.
   */
  lemma ChainSegments(segs: seq<seq<nat>>, segMap: seq<int>)
    requires SegmentDecomposition([None, Some(0), Some(1), Some(2)], segs, segMap, [3], [])
    ensures segs == [[3, 2, 1, 0]] && segMap == [0, 0, 0, 0]
  {
    var parent: seq<Option<nat>> := [None, Some(0), Some(1), Some(2)];
    StartsAt(segs);
    StopPointsMembers(parent, segs);
    assert StopPoints(parent, segs) == {};
    assert multiset(Starts(segs)) == multiset{3};
    assert |segs| == 1 by {
      assert |multiset(Starts(segs))| == 1;
    }
    assert segs[0][0] == 3 by {
      assert Starts(segs)[0] in multiset(Starts(segs));
    }
    var seg := segs[0];
    forall k | 0 <= k < |seg| ensures seg[k] == 3 - k {
      WalkDown(parent, seg, k);
    }
    assert |seg| == 4 by {
      assert seg[|seg| - 1] == 3 - (|seg| - 1);
    }
    assert seg == [3, 2, 1, 0];
    forall v | 0 <= v < 4 ensures segMap[v] == 0 {
      assert v in seg by { assert seg[3 - v] == v; }
    }
  }

  /** On the chain of `ChainSegments`, a walk up from 3 meets 3 - k at step k. */
  lemma {:induction false} WalkDown(parent: seq<Option<nat>>, seg: seq<nat>, k: nat)
    requires parent == [None, Some(0), Some(1), Some(2)]
    requires |seg| >= 1 && seg[0] == 3 && Linked(parent, seg) && k < |seg|
    ensures seg[k] == 3 - k
  {
    if k > 0 {
      WalkDown(parent, seg, k - 1);
    }
  }

  /**
   * The star with centre 0 and leaves 1, 2, 3, rooted at its centre, whose
   * root is a branch point: every leaf is a segment of its own and the root
   * is one more, four segments in all.
   */
  lemma StarSegments(segs: seq<seq<nat>>, segMap: seq<int>)
    requires SegmentDecomposition([None, Some(0), Some(0), Some(0)], segs, segMap, [1, 2, 3], [0])
    ensures |segs| == 4 && forall i :: 0 <= i < |segs| ==> |segs[i]| == 1
    ensures multiset(Starts(segs)) == multiset{0, 1, 2, 3}
  {
    var parent: seq<Option<nat>> := [None, Some(0), Some(0), Some(0)];
    StarSingletons(parent, segs);
    forall i | 0 <= i < |segs| ensures Last(segs[i]) < |parent| {
      assert IsSegment(parent, segs[i], [0]);
    }
    StarStarts(parent, segs);
    assert |segs| == |multiset(Starts(segs))|;
  }

  /** On the star, the segments start at the three leaves and at the branch point 0. */
  lemma StarStarts(parent: seq<Option<nat>>, segs: seq<seq<nat>>)
    requires parent == [None, Some(0), Some(0), Some(0)]
    requires forall i :: 0 <= i < |segs| ==> IsSegment(parent, segs[i], [0])
    requires NonEmptyRuns(segs) && forall i :: 0 <= i < |segs| ==> Last(segs[i]) < |parent|
    requires multiset(Starts(segs)) == multiset([1, 2, 3]) + multiset(StopPoints(parent, segs))
    ensures multiset(Starts(segs)) == multiset{0, 1, 2, 3}
  {
    assert multiset([1, 2, 3]) == multiset{1, 2, 3};
    assert 1 in multiset(Starts(segs));
    StarStops(parent, segs);
  }

  /** On the star, a segment cannot go past the branch point 0, so it has one vertex. */
  lemma StarSingletons(parent: seq<Option<nat>>, segs: seq<seq<nat>>)
    requires parent == [None, Some(0), Some(0), Some(0)]
    requires forall i :: 0 <= i < |segs| ==> IsSegment(parent, segs[i], [0])
    ensures forall i :: 0 <= i < |segs| ==> |segs[i]| == 1
  {
    forall i | 0 <= i < |segs| ensures |segs[i]| == 1 {
      var seg := segs[i];
      assert IsSegment(parent, seg, [0]);
      LinkedFirst(parent, seg);
    }
  }

  /** A linked walk of two or more vertices goes from its first vertex to that vertex's parent. */
  lemma LinkedFirst(parent: seq<Option<nat>>, seg: seq<nat>)
    requires Linked(parent, seg) && |seg| >= 1
    ensures |seg| > 1 ==> seg[0] < |parent| && parent[seg[0]] == Some(seg[1])
  {
  }

  /** On the star, the leaf 1 starts a segment that stops short of 0, and nothing else is a stop. */
  lemma StarStops(parent: seq<Option<nat>>, segs: seq<seq<nat>>)
    requires parent == [None, Some(0), Some(0), Some(0)]
    requires forall i :: 0 <= i < |segs| ==> IsSegment(parent, segs[i], [0])
    requires NonEmptyRuns(segs) && forall i :: 0 <= i < |segs| ==> Last(segs[i]) < |parent|
    requires 1 in multiset(Starts(segs))
    ensures StopPoints(parent, segs) == {0}
  {
    StartsAt(segs);
    StopPointsMembers(parent, segs);
    var i :| 0 <= i < |segs| && Starts(segs)[i] == 1;
    StarSingletons(parent, segs);
    assert segs[i] == [1];
  }
}
