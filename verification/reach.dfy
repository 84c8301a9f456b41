/**
 * Reachability in an adjacency store, the reference against which the
 * level-synchronous BFS is proved. `Within(m, src, k)` is the set of
 * vertices reachable from `src` by at most `k` arcs; a vertex is at
 * distance `d` when it is within `d` arcs and not within `d - 1`.
 */
module Reach {
  import opened Adjacency

  /** The out-neighbours of the vertices in `s`. */
  ghost function Successors(m: Matrix, s: set<nat>): set<nat>
  {
    set u, w | u in s && u < |m.rows| && w in m.rows[u] :: w
  }

  /** The vertices reachable from `src` by at most `k` arcs. */
  ghost function Within(m: Matrix, src: nat, k: nat): set<nat>
  {
    if k == 0 then {src}
    else Within(m, src, k - 1) + Successors(m, Within(m, src, k - 1))
  }

  /** `v` lies exactly `d` arcs away from `src`: within `d`, not within `d - 1`. */
  ghost predicate AtDistance(m: Matrix, src: nat, v: nat, d: nat)
  {
    v in Within(m, src, d) && (d == 0 || v !in Within(m, src, d - 1))
  }

  ghost predicate Reachable(m: Matrix, src: nat, v: nat)
  {
    exists k: nat :: v in Within(m, src, k)
  }

  /**
   * What a BFS level array must be: one entry per vertex, the sentinel
   * exactly at the vertices not reachable from `src`, and the distance from
   * `src` everywhere else.
   */
  ghost predicate IsLevelArray(m: Matrix, src: nat, levels: seq<nat>, sentinel: nat)
  {
    |levels| == m.Dim() &&
    (forall v :: 0 <= v < |levels| ==> (levels[v] == sentinel <==> !Reachable(m, src, v))) &&
    (forall v :: 0 <= v < |levels| && levels[v] != sentinel ==> AtDistance(m, src, v, levels[v]))
  }

  /** Allowing more arcs never loses a vertex. */
  lemma {:induction false} WithinGrows(m: Matrix, src: nat, i: nat, j: nat)
    requires i <= j
    ensures Within(m, src, i) <= Within(m, src, j)
    decreases j
  {
    if i < j {
      WithinGrows(m, src, i, j - 1);
    }
  }

  /** In a well-formed store every vertex reached from a vertex is a vertex. */
  lemma {:induction false} WithinBelow(m: Matrix, src: nat, k: nat)
    requires m.WellFormed() && src < m.Dim()
    ensures forall v :: v in Within(m, src, k) ==> v < m.Dim()
  {
    if k > 0 {
      WithinBelow(m, src, k - 1);
    }
  }

  /** A distance is the least number of arcs that reaches the vertex. */
  lemma {:induction false} AtDistanceLeast(m: Matrix, src: nat, v: nat, d: nat, j: nat)
    requires AtDistance(m, src, v, d) && v in Within(m, src, j)
    ensures d <= j
  {
    if j < d {
      WithinGrows(m, src, j, d - 1);
    }
  }

  /** A vertex has at most one distance. */
  lemma {:induction false} DistanceUnique(m: Matrix, src: nat, v: nat, d1: nat, d2: nat)
    requires AtDistance(m, src, v, d1) && AtDistance(m, src, v, d2)
    ensures d1 == d2
  {
    AtDistanceLeast(m, src, v, d1, d2);
    AtDistanceLeast(m, src, v, d2, d1);
  }

  lemma {:induction false} Step(m: Matrix, src: nat, k: nat, u: nat, v: nat)
    requires u in Within(m, src, k) && u < |m.rows| && v in m.rows[u]
    ensures v in Within(m, src, k + 1)
  {
    assert v in Successors(m, Within(m, src, k));
  }

  lemma {:induction false} StepBack(m: Matrix, src: nat, k: nat, v: nat) returns (u: nat)
    requires v in Within(m, src, k + 1) && v !in Within(m, src, k)
    ensures u in Within(m, src, k) && u < |m.rows| && v in m.rows[u]
  {
    var prev := Within(m, src, k);
    assert v in Successors(m, prev);
    u :| u in prev && u < |m.rows| && v in m.rows[u];
  }

  lemma {:induction false} ParentOnLastLayer(m: Matrix, src: nat, k: nat, u: nat, d: nat, v: nat)
    requires AtDistance(m, src, u, d) && u in Within(m, src, k)
    requires u < |m.rows| && v in m.rows[u] && v !in Within(m, src, k)
    ensures d == k
  {
    AtDistanceLeast(m, src, u, d, k);
    if d < k {
      WithinGrows(m, src, d, k - 1);
      assert false;
    }
  }

  /** Once a round adds nothing, no later round adds anything. */
  lemma {:induction false} WithinSettles(m: Matrix, src: nat, k: nat, j: nat)
    requires Within(m, src, k + 1) == Within(m, src, k)
    ensures Within(m, src, j) <= Within(m, src, k)
    decreases j
  {
    if j <= k {
      WithinGrows(m, src, j, k);
    } else {
      WithinSettles(m, src, k, j - 1);
      assert Successors(m, Within(m, src, j - 1)) <= Successors(m, Within(m, src, k));
    }
  }

  /** `w` is an out-neighbour of some vertex of `frontier`. */
  ghost predicate HasArcFrom(m: Matrix, frontier: seq<nat>, w: nat)
  {
    exists u :: u in frontier && u < |m.rows| && w in m.rows[u]
  }

  /** Extending a frontier by `u` adds exactly the out-neighbours of `u`. */
  lemma HasArcFromAppend(m: Matrix, frontier: seq<nat>, u: nat, w: nat)
    ensures HasArcFrom(m, frontier + [u], w) <==> HasArcFrom(m, frontier, w) || (u < |m.rows| && w in m.rows[u])
  {
    if HasArcFrom(m, frontier + [u], w) {
      var x :| x in frontier + [u] && x < |m.rows| && w in m.rows[x];
      if x != u {
        assert x in frontier;
      }
    }
    if HasArcFrom(m, frontier, w) {
      var x :| x in frontier && x < |m.rows| && w in m.rows[x];
      assert x in frontier + [u];
    }
    if u < |m.rows| && w in m.rows[u] {
      assert u in frontier + [u];
    }
  }

  /** The facts a BFS round starts from: `before` labels exactly the vertices within `level - 1` arcs, with their distances, and `frontier` holds those at distance `level - 1`. */
  ghost predicate RoundStart(m: Matrix, src: nat, level: nat, sentinel: nat, frontier: seq<nat>, before: seq<nat>)
    requires 1 <= level
  {
    m.WellFormed() && src < m.Dim() && |before| == m.Dim() &&
    (forall v :: 0 <= v < |before| ==> (before[v] != sentinel <==> v in Within(m, src, level - 1))) &&
    (forall v :: 0 <= v < |before| && before[v] != sentinel ==> AtDistance(m, src, v, before[v])) &&
    (forall v :: v in frontier ==> v < |before|) &&
    (forall v :: 0 <= v < |before| ==> (v in frontier <==> before[v] == level - 1))
  }

  /** The first round starts from the source alone, at level 0. */
  lemma RoundStartInitial(m: Matrix, src: nat, sentinel: nat, levels: seq<nat>)
    requires m.WellFormed() && src < m.Dim() && |levels| == m.Dim() && 0 < sentinel
    requires forall v :: 0 <= v < |levels| ==> levels[v] == if v == src then 0 else sentinel
    ensures RoundStart(m, src, 1, sentinel, [src], levels)
  {
    assert Within(m, src, 0) == {src};
  }

  /** An out-neighbour of the frontier is within `level` arcs. */
  lemma {:induction false} FrontierArcWithin(m: Matrix, src: nat, level: nat, sentinel: nat, frontier: seq<nat>, before: seq<nat>, v: nat)
    requires 1 <= level < sentinel
    requires RoundStart(m, src, level, sentinel, frontier, before)
    requires HasArcFrom(m, frontier, v)
    ensures v in Within(m, src, level)
  {
    var u :| u in frontier && u < |m.rows| && v in m.rows[u];
    Step(m, src, level - 1, u, v);
  }

  /** A vertex first within `level` arcs is an out-neighbour of the frontier. */
  lemma {:induction false} NewVertexHasFrontierArc(m: Matrix, src: nat, level: nat, sentinel: nat, frontier: seq<nat>, before: seq<nat>, v: nat)
    requires 1 <= level
    requires |before| == |m.rows|
    requires forall x :: 0 <= x < |before| ==> (before[x] != sentinel <==> x in Within(m, src, level - 1))
    requires forall x :: 0 <= x < |before| && before[x] != sentinel ==> AtDistance(m, src, x, before[x])
    requires forall x :: 0 <= x < |before| ==> (x in frontier <==> before[x] == level - 1)
    requires v !in Within(m, src, level - 1)
    requires v in Within(m, src, level)
    ensures HasArcFrom(m, frontier, v)
  {
    var u := StepBack(m, src, level - 1, v);
    ParentOnLastLayer(m, src, level - 1, u, before[u], v);
    assert u in frontier;
  }

  /** A vertex first reached in round `level` is an out-neighbour of the frontier, and conversely. */
  lemma {:induction false} LayerStepAt(m: Matrix, src: nat, level: nat, sentinel: nat, frontier: seq<nat>, before: seq<nat>, v: nat)
    requires 1 <= level < sentinel
    requires RoundStart(m, src, level, sentinel, frontier, before)
    requires v < |before| && before[v] == sentinel
    ensures HasArcFrom(m, frontier, v) <==> v in Within(m, src, level)
  {
    if HasArcFrom(m, frontier, v) {
      FrontierArcWithin(m, src, level, sentinel, frontier, before, v);
    }
    if v in Within(m, src, level) {
      NewVertexHasFrontierArc(m, src, level, sentinel, frontier, before, v);
    }
  }

  /**
   * One BFS round. If `after` adds, at level `level`, exactly the
   * unlabelled out-neighbours of the frontier, then `after` labels exactly
   * the vertices within `level` arcs, each with its distance.
   */
  lemma {:induction false} LayerStep(m: Matrix, src: nat, level: nat, sentinel: nat,
                  frontier: seq<nat>, before: seq<nat>, after: seq<nat>)
    requires 1 <= level < sentinel
    requires RoundStart(m, src, level, sentinel, frontier, before)
    requires |after| == |before|
    requires forall w :: 0 <= w < |after| && before[w] != sentinel ==> after[w] == before[w]
    requires forall w :: 0 <= w < |after| && before[w] == sentinel ==>
      (after[w] != sentinel <==> HasArcFrom(m, frontier, w))
    requires forall w :: 0 <= w < |after| && before[w] == sentinel && after[w] != sentinel ==> after[w] == level
    ensures forall v :: 0 <= v < |after| ==> (after[v] != sentinel <==> v in Within(m, src, level))
    ensures forall v :: 0 <= v < |after| && after[v] != sentinel ==> AtDistance(m, src, v, after[v])
  {
    forall v | 0 <= v < |after|
      ensures after[v] != sentinel <==> v in Within(m, src, level)
      ensures after[v] != sentinel ==> AtDistance(m, src, v, after[v])
    {
      WithinGrows(m, src, level - 1, level);
      if before[v] == sentinel {
        LayerStepAt(m, src, level, sentinel, frontier, before, v);
      }
    }
  }

  /**
   * The facts a round starts from carry over to the next round, whose
   * frontier holds exactly the vertices this round labelled.
   */
  lemma {:induction false} RoundNext(m: Matrix, src: nat, level: nat, sentinel: nat,
                  frontier: seq<nat>, before: seq<nat>, after: seq<nat>, next: seq<nat>)
    requires 1 <= level < sentinel
    requires RoundStart(m, src, level, sentinel, frontier, before)
    requires forall v :: 0 <= v < |before| && before[v] != sentinel ==> before[v] < level
    requires |after| == |before|
    requires forall w :: 0 <= w < |after| && before[w] != sentinel ==> after[w] == before[w]
    requires forall w :: 0 <= w < |after| && before[w] == sentinel ==>
      (after[w] != sentinel <==> HasArcFrom(m, frontier, w))
    requires forall w :: 0 <= w < |after| && before[w] == sentinel && after[w] != sentinel ==> after[w] == level
    requires forall w :: w in next ==> w < |after|
    requires forall w :: 0 <= w < |after| ==> (w in next <==> before[w] == sentinel && after[w] != sentinel)
    ensures RoundStart(m, src, level + 1, sentinel, next, after)
    ensures forall v :: 0 <= v < |after| && after[v] != sentinel ==> after[v] < level + 1
  {
    LayerStep(m, src, level, sentinel, frontier, before, after);
  }

  /**
   * When a round finds no vertex at distance `L - 1`, the labelled vertices
   * are all the reachable ones: the labels form a level array.
   */
  lemma {:induction false} Settled(m: Matrix, src: nat, level: nat, sentinel: nat, levels: seq<nat>)
    requires m.WellFormed() && src < m.Dim() && |levels| == m.Dim()
    requires 2 <= level
    requires forall v :: 0 <= v < |levels| ==> (levels[v] != sentinel <==> v in Within(m, src, level - 1))
    requires forall v :: 0 <= v < |levels| && levels[v] != sentinel ==> AtDistance(m, src, v, levels[v])
    requires forall v :: 0 <= v < |levels| && levels[v] != sentinel ==> levels[v] < level - 1
    ensures IsLevelArray(m, src, levels, sentinel)
  {
    WithinBelow(m, src, level - 1);
    WithinGrows(m, src, level - 2, level - 1);
    var last := Within(m, src, level - 1);
    forall v: nat | v in last
      ensures v in Within(m, src, level - 2)
    {
      WithinGrows(m, src, levels[v], level - 2);
    }
    forall v | 0 <= v < |levels|
      ensures levels[v] == sentinel <==> !Reachable(m, src, v)
    {
      if levels[v] == sentinel && Reachable(m, src, v) {
        var k: nat :| v in Within(m, src, k);
        WithinSettles(m, src, level - 2, k);
        assert false;
      }
    }
  }

  /** Two level arrays for the same source agree: the BFS result is determined by the graph. */
  lemma {:induction false} LevelArrayUnique(m: Matrix, src: nat, a: seq<nat>, b: seq<nat>, sentinel: nat)
    requires IsLevelArray(m, src, a, sentinel) && IsLevelArray(m, src, b, sentinel)
    ensures a == b
  {
    forall v | 0 <= v < |a|
      ensures a[v] == b[v]
    {
      if a[v] != sentinel {
        DistanceUnique(m, src, v, a[v], b[v]);
      }
    }
  }

  /** The source is at level 0 in any level array. */
  lemma {:induction false} SourceAtZero(m: Matrix, src: nat, levels: seq<nat>, sentinel: nat)
    requires IsLevelArray(m, src, levels, sentinel) && src < |levels|
    ensures levels[src] == 0
  {
    assert src in Within(m, src, 0);
    AtDistanceLeast(m, src, src, levels[src], 0);
  }

  /**
   * Every vertex at level `k > 0` has an in-arc from a vertex at level `k - 1`.
   */
  lemma {:induction false} LevelHasParent(m: Matrix, src: nat, levels: seq<nat>, sentinel: nat, v: nat)
    requires IsLevelArray(m, src, levels, sentinel)
    requires v < |levels| && levels[v] != sentinel && levels[v] > 0
    ensures exists u :: 0 <= u < |levels| && v in m.rows[u] && levels[u] == levels[v] - 1
  {
    var k := levels[v];
    var u := StepBack(m, src, k - 1, v);
    assert Reachable(m, src, u);
    ParentOnLastLayer(m, src, k - 1, u, levels[u], v);
  }

  /** A walk: a non-empty vertex sequence whose consecutive vertices are joined by arcs. */
  ghost predicate IsWalk(m: Matrix, p: seq<nat>)
  {
    |p| >= 1 && forall i :: 0 <= i < |p| - 1 ==> p[i] < |m.rows| && p[i + 1] in m.rows[p[i]]
  }

  /** A walk from `src` with `k` arcs ends within `k` arcs of `src`. */
  lemma {:induction false} WalkEndWithin(m: Matrix, src: nat, p: seq<nat>)
    requires IsWalk(m, p) && p[0] == src
    ensures p[|p| - 1] in Within(m, src, |p| - 1)
  {
    if |p| > 1 {
      var q := p[..|p| - 1];
      assert IsWalk(m, q);
      WalkEndWithin(m, src, q);
      assert p[|p| - 1] in Successors(m, Within(m, src, |p| - 2));
    }
  }

  /** Every vertex within `k` arcs of `src` is the end of a walk from `src` with at most `k` arcs. */
  lemma {:induction false} WithinHasWalk(m: Matrix, src: nat, v: nat, k: nat)
    requires v in Within(m, src, k)
    ensures exists p :: IsWalk(m, p) && p[0] == src && p[|p| - 1] == v && |p| <= k + 1
    decreases k
  {
    if k == 0 {
      assert IsWalk(m, [src]);
    } else if v in Within(m, src, k - 1) {
      WithinHasWalk(m, src, v, k - 1);
    } else {
      var u :| u in Within(m, src, k - 1) && u < |m.rows| && v in m.rows[u];
      WithinHasWalk(m, src, u, k - 1);
      var p :| IsWalk(m, p) && p[0] == src && p[|p| - 1] == u && |p| <= k;
      var p' := p + [v];
      assert IsWalk(m, p');
    }
  }

  /**
   * The level of a labelled vertex is the length of a shortest walk to it
   * from `src`; a vertex labelled with the sentinel has no walk from `src`.
   */
  lemma {:induction false} LevelIsShortestWalk(m: Matrix, src: nat, levels: seq<nat>, sentinel: nat, v: nat)
    requires IsLevelArray(m, src, levels, sentinel) && v < |levels|
    ensures levels[v] != sentinel ==>
      (exists p :: IsWalk(m, p) && p[0] == src && p[|p| - 1] == v && |p| == levels[v] + 1)
    ensures levels[v] != sentinel ==>
      (forall p :: IsWalk(m, p) && p[0] == src && p[|p| - 1] == v ==> |p| >= levels[v] + 1)
    ensures levels[v] == sentinel <==>
      (forall p :: IsWalk(m, p) && p[0] == src ==> p[|p| - 1] != v)
  {
    if levels[v] != sentinel {
      var d := levels[v];
      WithinHasWalk(m, src, v, d);
      var p :| IsWalk(m, p) && p[0] == src && p[|p| - 1] == v && |p| <= d + 1;
      WalkEndWithin(m, src, p);
      AtDistanceLeast(m, src, v, d, |p| - 1);
      forall q | IsWalk(m, q) && q[0] == src && q[|q| - 1] == v
        ensures |q| >= d + 1
      {
        WalkEndWithin(m, src, q);
        AtDistanceLeast(m, src, v, d, |q| - 1);
      }
      assert !(forall q :: IsWalk(m, q) && q[0] == src ==> q[|q| - 1] != v);
    } else {
      forall q | IsWalk(m, q) && q[0] == src
        ensures q[|q| - 1] != v
      {
        WalkEndWithin(m, src, q);
      }
    }
  }
}
