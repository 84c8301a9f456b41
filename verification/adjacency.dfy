/**
 * The adjacency store (the external `graph_matrix::GraphMatrix`), seen
 * only through the contract the graph relies on: a dimension, one
 * out-neighbour row per vertex, the length of a row and the total arc
 * count. `FromEdges` is a reference construction with the documented
 * behaviour of the builder: rows grouped by source vertex, destinations in
 * edge-list order, dimension one more than the largest id seen.
 */
module Adjacency {

  /** A directed arc `src -> dst`. */
  datatype Edge = Edge(src: nat, dst: nat)

  datatype Matrix = Matrix(rows: seq<seq<nat>>) {

    /** `dim()`: the number of vertex slots. */
    function Dim(): nat
    {
      |rows|
    }

    /** `row(v)`: the out-neighbours of `v`, in store order. */
    function Row(v: nat): seq<nat>
      requires v < Dim()
    {
      rows[v]
    }

    /** `row_len(v)`: the out-degree of `v`. */
    function RowLen(v: nat): nat
      requires v < Dim()
    {
      |rows[v]|
    }

    /** `n()`: the number of arcs stored. */
    function N(): nat
    {
      TotalLen(rows)
    }

    /** What the builder guarantees: every neighbour id is a vertex slot. */
    ghost predicate WellFormed()
    {
      forall v, j :: 0 <= v < |rows| && 0 <= j < |rows[v]| ==> rows[v][j] < |rows|
    }
  }

  /** Sum of the row lengths. */
  function TotalLen(rows: seq<seq<nat>>): nat
  {
    if rows == [] then 0 else TotalLen(rows[..|rows| - 1]) + |rows[|rows| - 1]|
  }

  /** The backward edge list: each pair swapped, order kept. */
  function Reversed(es: seq<Edge>): (r: seq<Edge>)
    ensures |r| == |es|
    ensures forall i :: 0 <= i < |es| ==> r[i].src == es[i].dst && r[i].dst == es[i].src
  {
    if es == [] then [] else [Edge(es[0].dst, es[0].src)] + Reversed(es[1..])
  }

  /** Reversing twice gives back the forward list. */
  lemma {:induction false} ReversedTwice(es: seq<Edge>)
    ensures Reversed(Reversed(es)) == es
  {
    var rr := Reversed(Reversed(es));
    assert |rr| == |es|;
    forall i | 0 <= i < |es|
      ensures rr[i] == es[i]
    {
    }
  }

  /** An arc is in the forward list exactly when its swap is in the backward list. */
  lemma ReversedHas(es: seq<Edge>, u: nat, w: nat)
    ensures Edge(u, w) in es <==> Edge(w, u) in Reversed(es)
  {
    var r := Reversed(es);
    if Edge(u, w) in es {
      var i :| 0 <= i < |es| && es[i] == Edge(u, w);
      assert r[i] == Edge(w, u);
    }
    if Edge(w, u) in r {
      var i :| 0 <= i < |r| && r[i] == Edge(w, u);
      assert es[i] == Edge(u, w);
    }
  }

  /** The largest vertex id mentioned by a non-empty edge list. */
  function MaxId(es: seq<Edge>): (r: nat)
    requires es != []
    ensures forall e :: e in es ==> e.src <= r && e.dst <= r
    ensures exists e :: e in es && (e.src == r || e.dst == r)
  {
    var e := es[0];
    var here := if e.src < e.dst then e.dst else e.src;
    if |es| == 1 then here
    else
      var rest := MaxId(es[1..]);
      assert forall x :: x in es ==> x == e || x in es[1..];
      if here < rest then rest else here
  }

  /** The destinations of the arcs leaving `v`, in edge-list order. */
  function Dests(es: seq<Edge>, v: nat): seq<nat>
  {
    if es == [] then [] else (if es[0].src == v then [es[0].dst] else []) + Dests(es[1..], v)
  }

  /** `w` is listed for `v` exactly when the arc `v -> w` is in the list. */
  lemma {:induction false} DestsHas(es: seq<Edge>, v: nat)
    ensures forall w :: w in Dests(es, v) <==> Edge(v, w) in es
  {
    if es != [] {
      DestsHas(es[1..], v);
      assert forall x :: x in es <==> x == es[0] || x in es[1..];
    }
  }

  /** The dimension a store built from `es` has. */
  function DimOf(es: seq<Edge>): nat
  {
    if es == [] then 0 else MaxId(es) + 1
  }

  /** `GraphMatrix::from_edges`, as a reference construction. */
  function FromEdges(es: seq<Edge>): Matrix
  {
    var d := DimOf(es);
    Matrix(seq(d, v requires 0 <= v < d => Dests(es, v)))
  }

  /** The store built from `es` holds exactly the arcs of `es`, and every neighbour is a vertex. */
  lemma FromEdgesArcs(es: seq<Edge>)
    ensures FromEdges(es).WellFormed()
    ensures forall u: nat, w: nat :: Edge(u, w) in es <==> u < FromEdges(es).Dim() && w in FromEdges(es).rows[u]
  {
    var m := FromEdges(es);
    forall v, j | 0 <= v < |m.rows| && 0 <= j < |m.rows[v]|
      ensures m.rows[v][j] < |m.rows|
    {
      DestsHas(es, v);
      assert m.rows[v][j] in Dests(es, v);
      assert Edge(v, m.rows[v][j]) in es;
    }
    forall u: nat, w: nat | Edge(u, w) in es
      ensures u < m.Dim() && w in m.rows[u]
    {
      assert u <= MaxId(es);
      DestsHas(es, u);
    }
    forall u: nat, w: nat | u < m.Dim() && w in m.rows[u]
      ensures Edge(u, w) in es
    {
      DestsHas(es, u);
    }
  }

  /** The dimension is one more than the largest id mentioned, source or destination. */
  lemma FromEdgesDim(es: seq<Edge>)
    requires es != []
    ensures forall e :: e in es ==> e.src < FromEdges(es).Dim() && e.dst < FromEdges(es).Dim()
    ensures exists e :: e in es && (e.src == FromEdges(es).Dim() - 1 || e.dst == FromEdges(es).Dim() - 1)
  {
    var top := MaxId(es);
    assert FromEdges(es).Dim() - 1 == top;
    var e :| e in es && (e.src == top || e.dst == top);
  }

  /** Sum over the first `d` vertices of their out-degree in `es`. */
  function CountBelow(es: seq<Edge>, d: nat): nat
  {
    if d == 0 then 0 else CountBelow(es, d - 1) + |Dests(es, d - 1)|
  }

  lemma {:induction false} CountBelowCons(e: Edge, es: seq<Edge>, d: nat)
    ensures CountBelow([e] + es, d) == CountBelow(es, d) + (if e.src < d then 1 else 0)
  {
    if d > 0 {
      CountBelowCons(e, es, d - 1);
      DestsCons(e, es, d - 1);
    }
  }

  lemma DestsCons(e: Edge, es: seq<Edge>, v: nat)
    ensures |Dests([e] + es, v)| == |Dests(es, v)| + (if e.src == v then 1 else 0)
  {
    assert ([e] + es)[1..] == es;
  }

  lemma {:induction false} CountBelowAll(es: seq<Edge>, d: nat)
    requires forall e :: e in es ==> e.src < d
    ensures CountBelow(es, d) == |es|
  {
    if es == [] {
      CountBelowNone(d);
    } else {
      assert es == [es[0]] + es[1..];
      CountBelowAll(es[1..], d);
      CountBelowCons(es[0], es[1..], d);
    }
  }

  lemma {:induction false} CountBelowNone(d: nat)
    ensures CountBelow([], d) == 0
  {
    if d > 0 {
      CountBelowNone(d - 1);
    }
  }

  lemma {:induction false} TotalLenOfDests(rows: seq<seq<nat>>, es: seq<Edge>)
    requires forall v :: 0 <= v < |rows| ==> rows[v] == Dests(es, v)
    ensures TotalLen(rows) == CountBelow(es, |rows|)
  {
    if rows != [] {
      TotalLenOfDests(rows[..|rows| - 1], es);
    }
  }

  /** The arc count of the store is the length of the edge list. */
  lemma FromEdgesCount(es: seq<Edge>)
    ensures FromEdges(es).N() == |es|
  {
    var m := FromEdges(es);
    TotalLenOfDests(m.rows, es);
    FromEdgesArcs(es);
    forall e | e in es
      ensures e.src < |m.rows|
    {
      assert Edge(e.src, e.dst) in es;
    }
    CountBelowAll(es, |m.rows|);
  }

  /** Turning every edge around keeps the dimension of the store. */
  lemma BackwardDim(es: seq<Edge>)
    ensures FromEdges(Reversed(es)).Dim() == FromEdges(es).Dim()
  {
    var rs := Reversed(es);
    if es != [] {
      var a, b := MaxId(es), MaxId(rs);
      var ea :| ea in es && (ea.src == a || ea.dst == a);
      ReversedHas(es, ea.src, ea.dst);
      var eb :| eb in rs && (eb.src == b || eb.dst == b);
      ReversedHas(es, eb.dst, eb.src);
      assert Edge(ea.dst, ea.src) in rs;
      assert Edge(eb.dst, eb.src) in es;
    }
  }

  /**
   * The backward store is the forward store turned around: same dimension,
   * and `w` is an out-neighbour of `u` forwards exactly when `u` is an
   * out-neighbour of `w` backwards.
   */
  lemma BackwardMirrorsForward(es: seq<Edge>)
    ensures FromEdges(Reversed(es)).Dim() == FromEdges(es).Dim()
    ensures forall u: nat, w: nat ::
      (u < FromEdges(es).Dim() && w in FromEdges(es).rows[u]) <==>
      (w < FromEdges(Reversed(es)).Dim() && u in FromEdges(Reversed(es)).rows[w])
  {
    var rs := Reversed(es);
    FromEdgesArcs(es);
    FromEdgesArcs(rs);
    BackwardDim(es);
    forall u: nat, w: nat
      ensures Edge(u, w) in es <==> Edge(w, u) in rs
    {
      ReversedHas(es, u, w);
    }
  }
}
