/**
 * `SimpleGraph`: a directed graph held as a forward and a backward
 * adjacency store, its queries (`nv`, `ne`, `outneighbors`, `degree`), its
 * construction from the lines of an edge file, and the level-synchronous
 * breadth-first search that labels every vertex with its distance from a
 * source.
 */
module Graphs {
  import opened Wrappers
  import opened NodeIds
  import opened Adjacency
  import opened EdgeParse
  import opened Reach
  import opened Frontier

  /** Why a query fails: the vertex count does not fit the id width, or a vertex is not in the graph. */
  datatype GraphError = VertexCountOutOfRange | InvalidVertex

  /** Why `bfs` fails: fewer than two vertices leave the degree range `1..n` empty; the source is not a vertex. */
  datatype BfsError = EmptyDegreeRange | InvalidSource

  datatype SimpleGraph = SimpleGraph(width: Width, fadj: Matrix, badj: Matrix) {

    /**
     * What a loaded graph satisfies: both stores are well formed, have the
     * same dimension, and the backward store holds each forward arc turned
     * around.
     */
    ghost predicate Valid()
    {
      fadj.WellFormed() && badj.WellFormed() && badj.Dim() == fadj.Dim() &&
      forall u: nat, w: nat :: (u < fadj.Dim() && w in fadj.rows[u]) <==> (w < badj.Dim() && u in badj.rows[w])
    }

    /** `nv`: the number of vertices, which must fit the id width. */
    function Nv(): (r: Result<nat, GraphError>)
      ensures r.Ok? <==> fadj.Dim() <= MaxValue(width)
      ensures r.Ok? ==> r.value == |fadj.rows|
    {
      if fadj.Dim() <= MaxValue(width) then Ok(fadj.Dim()) else Err(VertexCountOutOfRange)
    }

    /** `ne`: the number of arcs. */
    function Ne(): (r: nat)
      ensures fadj.rows == [] ==> r == 0
    {
      fadj.N()
    }

    /** `outneighbors`: the forward row of `v`. */
    function OutNeighbors(v: nat): (r: Result<seq<nat>, GraphError>)
      ensures r.Ok? <==> v < fadj.Dim()
      ensures r.Ok? ==> r.value == fadj.Row(v)
    {
      if v < fadj.Dim() then Ok(fadj.Row(v)) else Err(InvalidVertex)
    }

    /** `degree`: the out-degree of `v`. */
    function Degree(v: nat): (r: Result<nat, GraphError>)
      ensures r.Ok? <==> v < fadj.Dim()
      ensures r.Ok? ==> r.value == |OutNeighbors(v).value|
    {
      if v < fadj.Dim() then Ok(fadj.RowLen(v)) else Err(InvalidVertex)
    }

    /**
     * The largest out-degree over the vertices `lo .. hi - 1`; `None` when
     * the range is empty (where the source's `.max()` yields nothing).
     */
    function MaxDegree(lo: nat, hi: nat): (r: Option<nat>)
      requires hi <= fadj.Dim()
      ensures r.None? <==> hi <= lo
      ensures r.Some? ==> forall v :: lo <= v < hi ==> |fadj.rows[v]| <= r.value
      ensures r.Some? ==> exists v :: lo <= v < hi && |fadj.rows[v]| == r.value
      decreases hi
    {
      if hi <= lo then None
      else
        var d := Degree(hi - 1).value;
        match MaxDegree(lo, hi - 1)
        case None => Some(d)
        case Some(rest) => if rest < d then Some(d) else Some(rest)
    }
  }

  /** The graph built from an edge list: forward store from the list, backward store from the swapped list. */
  function Assemble(width: Width, es: seq<Edge>): SimpleGraph
  {
    SimpleGraph(width, FromEdges(es), FromEdges(Reversed(es)))
  }

  /** An assembled graph is valid: its backward store mirrors its forward store. */
  lemma AssembleValid(width: Width, es: seq<Edge>)
    ensures Assemble(width, es).Valid()
  {
    FromEdgesArcs(es);
    FromEdgesArcs(Reversed(es));
    BackwardMirrorsForward(es);
  }

  /** The sum of the out-degrees of the vertices `0 .. k - 1`. */
  function DegreeSum(g: SimpleGraph, k: nat): nat
    requires k <= g.fadj.Dim()
  {
    if k == 0 then 0 else DegreeSum(g, k - 1) + g.Degree(k - 1).value
  }

  /** `ne` is the sum of the out-degrees of all vertices. */
  lemma NeIsDegreeSum(g: SimpleGraph)
    ensures g.Ne() == DegreeSum(g, g.fadj.Dim())
  {
    DegreeSumPrefix(g, g.fadj.Dim());
    assert g.fadj.rows[..g.fadj.Dim()] == g.fadj.rows;
  }

  lemma {:induction false} DegreeSumPrefix(g: SimpleGraph, k: nat)
    requires k <= g.fadj.Dim()
    ensures TotalLen(g.fadj.rows[..k]) == DegreeSum(g, k)
  {
    if k > 0 {
      DegreeSumPrefix(g, k - 1);
      assert g.fadj.rows[..k][..k - 1] == g.fadj.rows[..k - 1];
    }
  }

  /** An assembled graph has one arc per edge of the list, duplicates included. */
  lemma AssembleNe(width: Width, es: seq<Edge>)
    ensures Assemble(width, es).Ne() == |es|
  {
    FromEdgesCount(es);
  }

  /** In an assembled graph, `w` is an out-neighbour of `u` exactly when `u -> w` is listed. */
  lemma AssembleOutNeighbors(width: Width, es: seq<Edge>)
    ensures forall u: nat, w: nat ::
      Edge(u, w) in es <==> (Assemble(width, es).OutNeighbors(u).Ok? && w in Assemble(width, es).OutNeighbors(u).value)
  {
    FromEdgesArcs(es);
  }

  /**
   * The vertex count is one more than the largest id listed, so it fits
   * the id width only when every listed id is below the largest value of
   * the width.
   */
  lemma AssembleNv(width: Width, es: seq<Edge>)
    requires es != []
    ensures Assemble(width, es).Nv().Ok? <==>
      forall e :: e in es ==> e.src < MaxValue(width) && e.dst < MaxValue(width)
  {
    FromEdgesDim(es);
  }

  /** A `u8` graph that lists vertex 255 loads, but then has 256 vertices, too many for `nv`. */
  lemma NvOverflowExample()
    ensures Assemble(U8, [Edge(0, 255)]).Nv() == Err(VertexCountOutOfRange)
  {
    AssembleNv(U8, [Edge(0, 255)]);
  }

  /**
   * `from_edge_file`, given the file as its lines: each line is parsed in
   * turn and the first bad line stops the load; otherwise the graph is
   * assembled from the edges in file order.
   */
  method FromEdgeLines(lines: seq<string>, width: Width) returns (r: Result<SimpleGraph, LoadError>)
    ensures ParseEdges(lines, MaxValue(width)).Err? ==> r == Err(ParseEdges(lines, MaxValue(width)).error)
    ensures ParseEdges(lines, MaxValue(width)).Ok? ==> r == Ok(Assemble(width, ParseEdges(lines, MaxValue(width)).value))
  {
    var parsed := ReadEdges(lines, MaxValue(width));
    if parsed.Err? {
      return Err(parsed.error);
    }
    var edgelist := parsed.value;
    var bedges := Reversed(edgelist);
    r := Ok(SimpleGraph(width, FromEdges(edgelist), FromEdges(bedges)));
  }

  /**
   * The line loop of `from_edge_file`: lines are parsed in order, an edge
   * line appends its edge, a comment line is skipped and the first failing
   * line ends the load with its error.
   */
  method ReadEdges(lines: seq<string>, maxValue: nat) returns (r: Result<seq<Edge>, LoadError>)
    ensures r == ParseEdges(lines, maxValue)
  {
    var edgelist: seq<Edge> := [];
    ghost var rs := ParseLines(lines, maxValue);
    for i := 0 to |lines|
      invariant Collect(rs[..i]) == Ok(edgelist)
    {
      assert rs[..i + 1][..i] == rs[..i];
      var outcome := ParseLine(lines[i], maxValue);
      assert outcome == rs[i];
      match outcome {
        case Err(e) =>
          ErrorPersists(rs, i + 1, e);
          return Err(e);
        case Ok(None) =>
        case Ok(Some(e)) =>
          edgelist := edgelist + [e];
      }
    }
    assert rs[..|lines|] == rs;
    r := Ok(edgelist);
  }

  /**
   * The inner loop of `bfs` for one frontier vertex: each out-neighbour not
   * yet visited is marked, labelled `level` and pushed on `next`. `pushed`
   * records every push of the search.
   */
  method MarkNeighbours(nbrs: seq<nat>, visited: array<bool>, levels: array<nat>, level: nat, sentinel: nat,
                        next: seq<nat>, ghost pushed: seq<nat>)
    returns (next': seq<nat>, ghost pushed': seq<nat>)
    requires visited.Length == levels.Length
    requires forall w :: w in nbrs ==> w < levels.Length
    requires level != sentinel
    requires forall v :: 0 <= v < levels.Length ==> (visited[v] <==> levels[v] != sentinel)
    requires forall v :: 0 <= v < levels.Length ==> (v in pushed <==> levels[v] != sentinel)
    requires forall v :: v in pushed ==> v < levels.Length
    requires Distinct(pushed)
    modifies visited, levels
    ensures |next'| >= |next| && next'[..|next|] == next
    ensures |pushed'| - |pushed| == |next'| - |next|
    ensures forall w :: w in next' <==>
      w in next || (0 <= w < levels.Length && old(levels[w]) == sentinel && levels[w] != sentinel)
    ensures forall v :: 0 <= v < levels.Length ==> (visited[v] <==> levels[v] != sentinel)
    ensures forall v :: 0 <= v < levels.Length ==> (v in pushed' <==> levels[v] != sentinel)
    ensures forall v :: v in pushed' ==> v < levels.Length
    ensures Distinct(pushed')
    ensures forall w :: 0 <= w < levels.Length && old(levels[w]) != sentinel ==> levels[w] == old(levels[w])
    ensures forall w :: 0 <= w < levels.Length && old(levels[w]) == sentinel ==>
      (levels[w] != sentinel <==> w in nbrs) && (levels[w] != sentinel ==> levels[w] == level)
  {
    next', pushed' := next, pushed;
    for j := 0 to |nbrs|
      invariant |next'| >= |next| && next'[..|next|] == next
      invariant |pushed'| - |pushed| == |next'| - |next|
      invariant forall w :: w in next' <==>
        w in next || (0 <= w < levels.Length && old(levels[w]) == sentinel && levels[w] != sentinel)
      invariant forall v :: 0 <= v < levels.Length ==> (visited[v] <==> levels[v] != sentinel)
      invariant forall v :: 0 <= v < levels.Length ==> (v in pushed' <==> levels[v] != sentinel)
      invariant forall v :: v in pushed' ==> v < levels.Length
      invariant Distinct(pushed')
      invariant forall w :: 0 <= w < levels.Length && old(levels[w]) != sentinel ==> levels[w] == old(levels[w])
      invariant forall w :: 0 <= w < levels.Length && old(levels[w]) == sentinel ==>
        (levels[w] != sentinel <==> w in nbrs[..j]) && (levels[w] != sentinel ==> levels[w] == level)
    {
      var w := nbrs[j];
      assert w in nbrs;
      assert nbrs[..j + 1] == nbrs[..j] + [w];
      if !visited[w] {
        next' := next' + [w];
        visited[w] := true;
        levels[w] := level;
        DistinctAppend(pushed', w);
        pushed' := pushed' + [w];
      }
    }
    assert nbrs[..|nbrs|] == nbrs;
  }

  /**
   * One level of `bfs`: the frontier `cur` is scanned in order and each
   * unvisited out-neighbour of its vertices is marked, labelled `level` and
   * pushed on the next frontier, which is returned.
   */
  method ExpandFrontier(g: SimpleGraph, cur: seq<nat>, visited: array<bool>, levels: array<nat>,
                        level: nat, sentinel: nat, ghost pushed: seq<nat>)
    returns (next: seq<nat>, ghost pushed': seq<nat>)
    requires visited.Length == levels.Length == g.fadj.Dim()
    requires g.fadj.WellFormed()
    requires forall v :: v in cur ==> v < levels.Length
    requires level != sentinel
    requires forall v :: 0 <= v < levels.Length ==> (visited[v] <==> levels[v] != sentinel)
    requires forall v :: 0 <= v < levels.Length ==> (v in pushed <==> levels[v] != sentinel)
    requires forall v :: v in pushed ==> v < levels.Length
    requires Distinct(pushed)
    modifies visited, levels
    ensures |pushed'| == |pushed| + |next|
    ensures forall w :: w in next ==> w < levels.Length
    ensures forall w :: 0 <= w < levels.Length ==> (w in next <==> old(levels[w]) == sentinel && levels[w] != sentinel)
    ensures forall v :: 0 <= v < levels.Length ==> (visited[v] <==> levels[v] != sentinel)
    ensures forall v :: 0 <= v < levels.Length ==> (v in pushed' <==> levels[v] != sentinel)
    ensures forall v :: v in pushed' ==> v < levels.Length
    ensures Distinct(pushed')
    ensures forall w :: 0 <= w < levels.Length && old(levels[w]) != sentinel ==> levels[w] == old(levels[w])
    ensures forall w :: 0 <= w < levels.Length && old(levels[w]) == sentinel ==>
      (levels[w] != sentinel <==> HasArcFrom(g.fadj, cur, w))
    ensures forall w :: 0 <= w < levels.Length && old(levels[w]) == sentinel && levels[w] != sentinel ==> levels[w] == level
  {
    ghost var m := g.fadj;
    ghost var before := levels[..];
    var n := levels.Length;
    next, pushed' := [], pushed;
    for i := 0 to |cur|
      invariant |pushed'| == |pushed| + |next|
      invariant forall w :: 0 <= w < n ==> (w in next <==> before[w] == sentinel && levels[w] != sentinel)
      invariant forall w :: w in next ==> w < n
      invariant forall v :: 0 <= v < n ==> (visited[v] <==> levels[v] != sentinel)
      invariant forall v :: 0 <= v < n ==> (v in pushed' <==> levels[v] != sentinel)
      invariant forall v :: v in pushed' ==> v < n
      invariant Distinct(pushed')
      invariant forall w :: 0 <= w < n && before[w] != sentinel ==> levels[w] == before[w]
      invariant forall w :: 0 <= w < n && before[w] == sentinel ==>
        (levels[w] != sentinel <==> HasArcFrom(m, cur[..i], w))
      invariant forall w :: 0 <= w < n && before[w] == sentinel && levels[w] != sentinel ==> levels[w] == level
    {
      var v := cur[i];
      assert v in cur;
      var nbrs := g.OutNeighbors(v).value;
      next, pushed' := MarkNeighbours(nbrs, visited, levels, level, sentinel, next, pushed');
      assert cur[..i + 1] == cur[..i] + [v];
      forall w | 0 <= w < n
        ensures HasArcFrom(m, cur[..i + 1], w) <==> HasArcFrom(m, cur[..i], w) || w in nbrs
      {
        HasArcFromAppend(m, cur[..i], v, w);
      }
    }
    assert cur[..|cur|] == cur;
  }

  /**
   * The state of `bfs` at the top of its outer loop, before the round that
   * labels level `level`: `visited` marks exactly the labelled vertices,
   * `pushed` lists every vertex ever pushed on a frontier, each once (so
   * there have been at most `n` pushes), every label is below `level`, and
   * `levels` labels exactly the vertices within `level - 1` arcs of `src`
   * with their distances, `cur` holding those at distance `level - 1`.
   */
  ghost predicate Searching(m: Matrix, src: nat, level: nat, sentinel: nat, cur: seq<nat>,
                            visited: array<bool>, levels: array<nat>, pushed: seq<nat>)
    reads visited, levels
  {
    var n := levels.Length;
    visited.Length == n && n < sentinel &&
    1 <= level && (cur == [] ==> 2 <= level) &&
    level - 1 + (if cur == [] then 0 else 1) <= |pushed| <= n &&
    (forall v :: 0 <= v < n ==> (visited[v] <==> levels[v] != sentinel)) &&
    (forall v :: 0 <= v < n ==> (v in pushed <==> levels[v] != sentinel)) &&
    (forall v :: v in pushed ==> v < n) &&
    Distinct(pushed) &&
    (forall v :: 0 <= v < n && levels[v] != sentinel ==> levels[v] < level) &&
    RoundStart(m, src, level, sentinel, cur, levels[..]) &&
    levels[src] == 0
  }

  /**
   * One pass of the outer loop of `bfs`: expand the frontier `cur` into a
   * new frontier, then clear `cur`, swap the two buffers and sort the new
   * current frontier.
   */
  method NextLevel(g: SimpleGraph, src: nat, cur: seq<nat>, visited: array<bool>, levels: array<nat>,
                   level: nat, sentinel: nat, ghost pushed: seq<nat>)
    returns (cur': seq<nat>, next': seq<nat>, ghost pushed': seq<nat>)
    requires g.fadj.Dim() == levels.Length
    requires Searching(g.fadj, src, level, sentinel, cur, visited, levels, pushed)
    requires cur != []
    modifies visited, levels
    ensures Searching(g.fadj, src, level + 1, sentinel, cur', visited, levels, pushed')
    ensures Sorted(cur') && next' == []
    ensures |pushed'| == |pushed| + |cur'|
  {
    ghost var m := g.fadj;
    ghost var before := levels[..];
    var next;
    next, pushed' := ExpandFrontier(g, cur, visited, levels, level, sentinel, pushed);
    cur' := [];
    cur', next' := next, cur';
    cur' := SortAscending(cur');
    forall v | v in cur' || v in next
      ensures v in cur' <==> v in next
    {
      assert v in cur' <==> v in multiset(cur');
      assert v in next <==> v in multiset(next);
    }
    RoundNext(m, src, level, sentinel, cur, before, levels[..], cur');
    DistinctBelow(pushed', levels.Length);
  }

  /**
   * `bfs`: the level array of a breadth-first search from `src`. Vertices
   * not reached keep the sentinel `MaxValue(width)`; every other vertex
   * gets its distance from `src`. The search goes level by level: every
   * unvisited out-neighbour of the current frontier is marked, labelled
   * with the level and pushed on the next frontier, which then becomes the
   * current one, sorted.
   */
  method Bfs(g: SimpleGraph, src: nat) returns (r: Result<seq<nat>, BfsError>)
    requires g.fadj.WellFormed()
    requires g.fadj.Dim() < MaxValue(g.width)
    ensures r == Err(EmptyDegreeRange) <==> g.fadj.Dim() <= 1
    ensures r == Err(InvalidSource) <==> 1 < g.fadj.Dim() <= src
    ensures r.Ok? ==> IsLevelArray(g.fadj, src, r.value, MaxValue(g.width))
    ensures r.Ok? ==> r.value[src] == 0
    ensures r.Ok? ==> forall v :: 0 <= v < |r.value| && r.value[v] != MaxValue(g.width) ==> r.value[v] < |r.value|
  {
    var n := g.Nv().value;
    var maxdeg := g.MaxDegree(1, n);
    if maxdeg.None? {
      return Err(EmptyDegreeRange);
    }
    if src >= n {
      return Err(InvalidSource);
    }
    var levels := Search(g, src);
    r := Ok(levels);
  }

  /**
   * The search proper of `bfs`, once the source is known to be a vertex:
   * the `visited` and `levels` arrays, the two frontier buffers and the
   * level-by-level loop.
   */
  method Search(g: SimpleGraph, src: nat) returns (r: seq<nat>)
    requires g.fadj.WellFormed()
    requires src < g.fadj.Dim() < MaxValue(g.width)
    ensures IsLevelArray(g.fadj, src, r, MaxValue(g.width))
    ensures r[src] == 0
    ensures forall v :: 0 <= v < |r| && r[v] != MaxValue(g.width) ==> r[v] < |r|
  {
    ghost var m := g.fadj;
    var sentinel := MaxValue(g.width);
    var visited, levels, cur, pushed := StartSearch(g, src);
    var next: seq<nat> := [];
    var level: nat := 1;
    while cur != []
      invariant Searching(m, src, level, sentinel, cur, visited, levels, pushed)
      invariant Sorted(cur) && next == []
      decreases levels.Length - |pushed| + |cur|
    {
      cur, next, pushed := NextLevel(g, src, cur, visited, levels, level, sentinel, pushed);
      level := level + 1;
    }
    SearchDone(m, src, level, sentinel, visited, levels, pushed);
    r := levels[..];
  }

  /**
   * The set-up of `bfs`: both arrays sized to the vertex count, every slot
   * unvisited at the sentinel level except the source, which is visited,
   * at level 0 and the only entry of the current frontier.
   */
  method StartSearch(g: SimpleGraph, src: nat)
    returns (visited: array<bool>, levels: array<nat>, cur: seq<nat>, ghost pushed: seq<nat>)
    requires g.fadj.WellFormed()
    requires src < g.fadj.Dim() < MaxValue(g.width)
    ensures fresh(visited) && fresh(levels)
    ensures levels.Length == g.fadj.Dim()
    ensures cur == [src]
    ensures Searching(g.fadj, src, 1, MaxValue(g.width), cur, visited, levels, pushed)
  {
    var n := g.fadj.Dim();
    var sentinel := MaxValue(g.width);
    visited := new bool[n](_ => false);
    levels := new nat[n](_ => sentinel);
    cur := [];
    visited[src] := true;
    cur := cur + [src];
    levels[src] := 0;
    // every vertex pushed on a frontier so far, in push order
    pushed := [src];
    assert forall v :: 0 <= v < n ==> levels[v] == if v == src then 0 else sentinel;
    RoundStartInitial(g.fadj, src, sentinel, levels[..]);
    assert Distinct(pushed);
  }

  /**
   * When the frontier runs empty every reachable vertex carries its
   * distance and every other vertex the sentinel.
   */
  lemma SearchDone(m: Matrix, src: nat, level: nat, sentinel: nat,
                   visited: array<bool>, levels: array<nat>, pushed: seq<nat>)
    requires m.WellFormed() && src < m.Dim() == levels.Length
    requires Searching(m, src, level, sentinel, [], visited, levels, pushed)
    ensures IsLevelArray(m, src, levels[..], sentinel)
    ensures levels[src] == 0
    ensures forall v :: 0 <= v < levels.Length && levels[v] != sentinel ==> levels[v] < levels.Length
  {
    Settled(m, src, level, sentinel, levels[..]);
  }
}
