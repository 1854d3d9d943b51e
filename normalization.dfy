/**
 * The adjacency normaliser: turns a graph into the transition matrix W'
 * that heat propagation multiplies by, in one of two modes.
 *
 * In heat-conserving mode every edge {u, v} with weight w sends the flow
 * w/deg(v) into W'[u][v] and w/deg(u) into W'[v][u], so W'[i][j] is the
 * edge weight over the degree of the source node j and every column of a
 * node with edges sums to 1 (on an unweighted simple graph). Otherwise
 * both entries get the symmetric value w/sqrt(deg(u) * deg(v)).
 * Degrees are always unweighted edge counts. A later edge joining the same
 * pair overwrites the entry, as re-adding an edge to a networkx graph does.
 */
module Normalization {
  import opened Wrappers
  import opened Vectors
  import opened Graphs

  /** A square root on the non-negative reals: numpy's sqrt, which Dafny lacks. */
  ghost predicate IsSqrt(sqrt: real -> real) {
    forall x: real :: 0.0 <= x ==> 0.0 <= sqrt(x) && sqrt(x) * sqrt(x) == x
  }

  /** The `conserve_heat` switch; the symmetric mode carries the square root it uses. */
  datatype Mode = Conserving | NonConserving(sqrt: real -> real)

  ghost predicate ModeOk(mode: Mode) {
    mode.NonConserving? ==> IsSqrt(mode.sqrt)
  }

  lemma SqrtPositive(sqrt: real -> real, x: real)
    requires IsSqrt(sqrt) && 0.0 < x
    ensures 0.0 < sqrt(x)
  {
    assert sqrt(x) * sqrt(x) == x;
  }

  /**
   * The value edge t writes at position (i, j), j being one of its ends:
   * weight over deg(j) when conserving, weight over sqrt(deg(u) * deg(v)) otherwise.
   */
  function Flow(g: Graph, mode: Mode, weighted: bool, t: nat, j: nat): real
    requires t < |g.edges| && ModeOk(mode)
    requires j == g.edges[t].u || j == g.edges[t].v
  {
    var e := g.edges[t];
    EndpointDegree(g.edges, t);
    var w := Weight(e, weighted);
    match mode
    case Conserving => w / Degree(g.edges, j) as real
    case NonConserving(sqrt) =>
      var d := (Degree(g.edges, e.u) * Degree(g.edges, e.v)) as real;
      SqrtPositive(sqrt, d);
      w / sqrt(d)
  }

  /** Entry (i, j) once the first k edges have been written. */
  function EntryUpTo(g: Graph, mode: Mode, weighted: bool, k: nat, i: nat, j: nat): real
    requires k <= |g.edges| && ModeOk(mode)
  {
    match LastJoin(g.edges[..k], i, j)
    case None => 0.0
    case Some(t) => Flow(g, mode, weighted, t, j)
  }

  /** Entry (i, j) of W'. */
  function Entry(g: Graph, mode: Mode, weighted: bool, i: nat, j: nat): real
    requires ModeOk(mode)
  {
    EntryUpTo(g, mode, weighted, |g.edges|, i, j)
  }

  /** W' as an n-by-n matrix, rows and columns in node order. */
  function NormalizedMatrix(g: Graph, mode: Mode, weighted: bool): (w: seq<seq<real>>)
    requires ModeOk(mode)
    ensures IsSquare(w, g.n)
    ensures forall i, j :: 0 <= i < g.n && 0 <= j < g.n ==> w[i][j] == Entry(g, mode, weighted, i, j)
  {
    seq(g.n, i requires 0 <= i < g.n => seq(g.n, j requires 0 <= j < g.n => Entry(g, mode, weighted, i, j)))
  }

  function Put(w: seq<seq<real>>, i: nat, j: nat, x: real): (r: seq<seq<real>>)
    requires i < |w| && j < |w[i]|
    ensures |r| == |w| && forall a :: 0 <= a < |w| ==> |r[a]| == |w[a]|
    ensures forall a, b :: 0 <= a < |w| && 0 <= b < |w[a]| ==>
      r[a][b] == if a == i && b == j then x else w[a][b]
  {
    w[i := w[i][j := x]]
  }

  lemma LastJoinStep(es: seq<Edge>, k: nat, i: nat, j: nat)
    requires k < |es|
    ensures LastJoin(es[..k + 1], i, j) == if Joins(es[k], i, j) then Some(k) else LastJoin(es[..k], i, j)
  {
    assert es[..k + 1][..k] == es[..k];
  }

  /** Entries (i, j) agree with the first k edges' writes. */
  ghost predicate WrittenUpTo(w: seq<seq<real>>, g: Graph, mode: Mode, weighted: bool, k: nat)
    requires k <= |g.edges| && ModeOk(mode)
  {
    && IsSquare(w, g.n)
    && forall i, j :: 0 <= i < g.n && 0 <= j < g.n ==> w[i][j] == EntryUpTo(g, mode, weighted, k, i, j)
  }

  /** One turn of the normaliser's loop: the flows of edge k, written both ways. */
  method WriteEdge(g: Graph, mode: Mode, weighted: bool, w: seq<seq<real>>, k: nat) returns (w': seq<seq<real>>)
    requires Valid(g) && ModeOk(mode) && k < |g.edges|
    requires WrittenUpTo(w, g, mode, weighted, k)
    ensures WrittenUpTo(w', g, mode, weighted, k + 1)
  {
    var e := g.edges[k];
    EndpointDegree(g.edges, k);
    var deg1 := Degree(g.edges, e.u);
    var deg2 := Degree(g.edges, e.v);
    var weight := Weight(e, weighted);
    var x, y;
    if mode.Conserving? {
      x, y := weight / deg2 as real, weight / deg1 as real;
    } else {
      SqrtPositive(mode.sqrt, (deg1 * deg2) as real);
      x := weight / mode.sqrt((deg1 * deg2) as real);
      y := x;
    }
    assert x == Flow(g, mode, weighted, k, e.v) && y == Flow(g, mode, weighted, k, e.u);
    w' := Put(w, e.u, e.v, x);
    w' := Put(w', e.v, e.u, y);
    forall i, j | 0 <= i < g.n && 0 <= j < g.n
      ensures w'[i][j] == EntryUpTo(g, mode, weighted, k + 1, i, j)
    {
      LastJoinStep(g.edges, k, i, j);
    }
  }

  /** The normaliser's loop over the edges, writing each edge's flows into the matrix. */
  method NormalizedAdjMatrix(g: Graph, mode: Mode, weighted: bool) returns (w: seq<seq<real>>)
    requires Valid(g) && ModeOk(mode)
    ensures w == NormalizedMatrix(g, mode, weighted)
  {
    w := seq(g.n, _ => Zeros(g.n));
    var k := 0;
    while k < |g.edges|
      invariant k <= |g.edges|
      invariant WrittenUpTo(w, g, mode, weighted, k)
    {
      w := WriteEdge(g, mode, weighted, w, k);
      k := k + 1;
    }
    assert g.edges[..|g.edges|] == g.edges;
    var spec := NormalizedMatrix(g, mode, weighted);
    forall i | 0 <= i < g.n ensures w[i] == spec[i] {
    }
  }

  /**
   * Heat-conserving mode on a simple graph: each edge (u, v) with weight w
   * puts w/deg(v) at (u, v) and w/deg(u) at (v, u).
   */
  lemma ConservingEdgeEntries(g: Graph, weighted: bool, k: nat)
    requires Simple(g.edges) && k < |g.edges|
    ensures var e := g.edges[k];
      Degree(g.edges, e.u) >= 1 && Degree(g.edges, e.v) >= 1 &&
      Entry(g, Conserving, weighted, e.u, e.v) == Weight(e, weighted) / Degree(g.edges, e.v) as real &&
      Entry(g, Conserving, weighted, e.v, e.u) == Weight(e, weighted) / Degree(g.edges, e.u) as real
  {
    EndpointDegree(g.edges, k);
    SimpleLastJoin(g.edges, k);
    assert g.edges[..|g.edges|] == g.edges;
  }

  /** In either mode, a pair of nodes that no edge joins gets 0. */
  lemma NonAdjacentZero(g: Graph, mode: Mode, weighted: bool, i: nat, j: nat)
    requires ModeOk(mode)
    requires forall k :: 0 <= k < |g.edges| ==> !Joins(g.edges[k], i, j)
    ensures Entry(g, mode, weighted, i, j) == 0.0
  {
    assert g.edges[..|g.edges|] == g.edges;
  }

  lemma {:induction false} LastJoinSymmetric(es: seq<Edge>, i: nat, j: nat)
    ensures LastJoin(es, i, j) == LastJoin(es, j, i)
  {
    if es != [] {
      LastJoinSymmetric(es[..|es| - 1], i, j);
    }
  }

  /** Without heat conservation W' is symmetric. */
  lemma NonConservingSymmetric(g: Graph, sqrt: real -> real, weighted: bool, i: nat, j: nat)
    requires IsSqrt(sqrt)
    ensures Entry(g, NonConserving(sqrt), weighted, i, j) == Entry(g, NonConserving(sqrt), weighted, j, i)
  {
    LastJoinSymmetric(g.edges, i, j);
  }

  /** Without heat conservation, on a simple graph, each edge {u, v} gives w/sqrt(deg(u) * deg(v)) both ways. */
  lemma NonConservingEdgeEntries(g: Graph, sqrt: real -> real, weighted: bool, k: nat)
    requires IsSqrt(sqrt) && Simple(g.edges) && k < |g.edges|
    ensures var e := g.edges[k];
      var d := (Degree(g.edges, e.u) * Degree(g.edges, e.v)) as real;
      0.0 < sqrt(d) &&
      Entry(g, NonConserving(sqrt), weighted, e.u, e.v) == Weight(e, weighted) / sqrt(d) &&
      Entry(g, NonConserving(sqrt), weighted, e.v, e.u) == Weight(e, weighted) / sqrt(d)
  {
    var e := g.edges[k];
    EndpointDegree(g.edges, k);
    SqrtPositive(sqrt, (Degree(g.edges, e.u) * Degree(g.edges, e.v)) as real);
    SimpleLastJoin(g.edges, k);
    assert g.edges[..|g.edges|] == g.edges;
  }

  /** 1 at each node i that some edge of es joins to j, 0 elsewhere. */
  function JoinedTo(n: nat, es: seq<Edge>, j: nat): (r: seq<real>)
    ensures |r| == n
    ensures forall i :: 0 <= i < n ==> r[i] == if LastJoin(es, i, j).Some? then 1.0 else 0.0
  {
    seq(n, i requires 0 <= i < n => if LastJoin(es, i, j).Some? then 1.0 else 0.0)
  }

  /** The nodes that edge e joins to j: its other end, if j is one of its ends. */
  function OtherEnd(n: nat, e: Edge, j: nat): seq<real> {
    if e.u == j then Unit(n, e.v) else if e.v == j then Unit(n, e.u) else Zeros(n)
  }

  lemma OtherEndSum(n: nat, e: Edge, j: nat)
    requires e.u != e.v && e.u < n && e.v < n
    ensures Sum(OtherEnd(n, e, j)) == (if e.u == j then 1.0 else 0.0) + (if e.v == j then 1.0 else 0.0)
  {
    SumUnit(n, e.v);
    SumUnit(n, e.u);
    SumZeros(n);
  }

  /** Adding a last edge that repeats no earlier pair adds its other end to the nodes joined to j. */
  lemma JoinedToStep(n: nat, es: seq<Edge>, j: nat)
    requires es != [] && Simple(es)
    ensures JoinedTo(n, es, j) == Add(JoinedTo(n, es[..|es| - 1], j), OtherEnd(n, es[|es| - 1], j))
  {
    var m := |es| - 1;
    var e := es[m];
    var pre := es[..m];
    var c := OtherEnd(n, e, j);
    forall i | 0 <= i < n ensures JoinedTo(n, es, j)[i] == JoinedTo(n, pre, j)[i] + c[i] {
      if Joins(e, i, j) {
        forall k | 0 <= k < m ensures !Joins(pre[k], i, j) {
          assert !Joins(es[m], es[k].u, es[k].v);
        }
      }
    }
  }

  /** In a simple graph the nodes joined to j are as many as j's degree. */
  lemma {:induction false} JoinedToCountsDegree(n: nat, es: seq<Edge>, j: nat)
    requires Simple(es)
    requires forall k :: 0 <= k < |es| ==> es[k].u < n && es[k].v < n
    ensures Sum(JoinedTo(n, es, j)) == Degree(es, j) as real
  {
    if es != [] {
      var m := |es| - 1;
      var e := es[m];
      var pre := es[..m];
      assert Simple(pre);
      JoinedToCountsDegree(n, pre, j);
      JoinedToStep(n, es, j);
      SumAdd(JoinedTo(n, pre, j), OtherEnd(n, e, j));
      OtherEndSum(n, e, j);
      var a, b := (if e.u == j then 1 else 0), (if e.v == j then 1 else 0);
      assert Degree(es, j) == Degree(pre, j) + a + b;
      assert (Degree(pre, j) + a + b) as real == Degree(pre, j) as real + a as real + b as real;
    } else {
      assert JoinedTo(n, es, j) == Zeros(n);
      SumZeros(n);
    }
  }

  /** A heat-conserving, unweighted column is the indicator of j's neighbours over deg(j). */
  lemma ConservingColumn(g: Graph, j: nat)
    requires j < g.n
    ensures Column(NormalizedMatrix(g, Conserving, false), j) ==
      if Degree(g.edges, j) == 0 then Zeros(g.n)
      else Scale(1.0 / Degree(g.edges, j) as real, JoinedTo(g.n, g.edges, j))
  {
    var w := NormalizedMatrix(g, Conserving, false);
    var d := Degree(g.edges, j) as real;
    assert g.edges[..|g.edges|] == g.edges;
    forall i | 0 <= i < g.n
      ensures Column(w, j)[i] == if d == 0.0 then 0.0 else (1.0 / d) * JoinedTo(g.n, g.edges, j)[i]
    {
      var r := LastJoin(g.edges, i, j);
      if r.Some? {
        EndpointDegree(g.edges, r.value);
      }
    }
  }

  /**
   * Heat-conserving, unweighted, simple graph: the column of a node with
   * edges sums to 1, the column of an isolated node to 0.
   */
  lemma ConservingColumnSums(g: Graph, j: nat)
    requires Valid(g) && Simple(g.edges) && j < g.n
    ensures Sum(Column(NormalizedMatrix(g, Conserving, false), j)) ==
      if Degree(g.edges, j) == 0 then 0.0 else 1.0
  {
    var col := Column(NormalizedMatrix(g, Conserving, false), j);
    var d := Degree(g.edges, j);
    ConservingColumn(g, j);
    if d == 0 {
      assert col == Zeros(g.n);
      SumZeros(g.n);
    } else {
      var ind := JoinedTo(g.n, g.edges, j);
      JoinedToCountsDegree(g.n, g.edges, j);
      var c := 1.0 / d as real;
      assert col == Scale(c, ind);
      ScaledByInverseSum(ind, d as real);
    }
  }

  /** With non-negative weights (or none), every entry of W' is non-negative, in both modes. */
  lemma NormalizedNonNegative(g: Graph, mode: Mode, weighted: bool)
    requires ModeOk(mode)
    requires weighted ==> forall k :: 0 <= k < |g.edges| ==> 0.0 <= g.edges[k].weight
    ensures NonNegativeMatrix(NormalizedMatrix(g, mode, weighted))
  {
    var w := NormalizedMatrix(g, mode, weighted);
    assert g.edges[..|g.edges|] == g.edges;
    forall i, j | 0 <= i < g.n && 0 <= j < g.n ensures 0.0 <= w[i][j] {
      var r := LastJoin(g.edges, i, j);
      if r.Some? {
        var t := r.value;
        var e := g.edges[t];
        EndpointDegree(g.edges, t);
        if mode.NonConserving? {
          SqrtPositive(mode.sqrt, (Degree(g.edges, e.u) * Degree(g.edges, e.v)) as real);
        }
      }
    }
  }
}
