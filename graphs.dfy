/**
 * Two views of a networkx graph. The normaliser and the propagation engine
 * read `Graph`: `n` nodes, numbered 0..n-1 in the order the graph library
 * lists them, and the list of edges as the library yields them, each with
 * its `weight` attribute. The heat kernel, the graph union and the display
 * pipeline read `LabelGraph`: the node labels themselves and the edges as
 * ordered label pairs.
 */
module Graphs {
  import opened Wrappers
  import opened Lists

  datatype Edge = Edge(u: nat, v: nat, weight: real)

  datatype Graph = Graph(n: nat, edges: seq<Edge>)

  /** A networkx graph over integer labels: its node list and its edge list of ordered pairs. */
  datatype LabelGraph = LabelGraph(nodes: seq<int>, edges: seq<(int, int)>)

  /** Nodes are listed once and every edge joins two listed nodes. */
  predicate WellFormed(g: LabelGraph) {
    Distinct(g.nodes) && forall k :: 0 <= k < |g.edges| ==> g.edges[k].0 in g.nodes && g.edges[k].1 in g.nodes
  }

  /** Every edge joins two nodes of the graph. */
  predicate Valid(g: Graph) {
    forall k :: 0 <= k < |g.edges| ==> g.edges[k].u < g.n && g.edges[k].v < g.n
  }

  /** Edge `e` joins `i` and `j`, in either orientation. */
  predicate Joins(e: Edge, i: nat, j: nat) {
    (e.u == i && e.v == j) || (e.u == j && e.v == i)
  }

  /**
   * A simple graph: no self-loops and no two edges joining the same pair.
   * This is what an undirected networkx Graph yields from edges() when it
   * has no self-loops.
   */
  predicate Simple(es: seq<Edge>) {
    && (forall k :: 0 <= k < |es| ==> es[k].u != es[k].v)
    && (forall k1, k2 :: 0 <= k1 < k2 < |es| ==> !Joins(es[k2], es[k1].u, es[k1].v))
  }

  /** The unweighted degree of node x: the number of edge ends at x (a self-loop counts twice). */
  function Degree(es: seq<Edge>, x: nat): nat {
    if es == [] then 0
    else
      var e := es[|es| - 1];
      Degree(es[..|es| - 1], x) + (if e.u == x then 1 else 0) + (if e.v == x then 1 else 0)
  }

  /** The two ends of every edge have degree at least 1. */
  lemma {:induction false} EndpointDegree(es: seq<Edge>, k: nat)
    requires k < |es|
    ensures Degree(es, es[k].u) >= 1 && Degree(es, es[k].v) >= 1
  {
    if k < |es| - 1 {
      EndpointDegree(es[..|es| - 1], k);
    }
  }

  /** The edge weight used in one mode or the other: the attribute, or 1. */
  function Weight(e: Edge, weighted: bool): real {
    if weighted then e.weight else 1.0
  }

  /** The index of the last edge of `es` that joins i and j, if there is one. */
  function LastJoin(es: seq<Edge>, i: nat, j: nat): (r: Option<nat>)
    ensures r.Some? ==> r.value < |es| && Joins(es[r.value], i, j)
    ensures r.Some? ==> forall k :: r.value < k < |es| ==> !Joins(es[k], i, j)
    ensures r.None? <==> forall k :: 0 <= k < |es| ==> !Joins(es[k], i, j)
  {
    if es == [] then None
    else if Joins(es[|es| - 1], i, j) then Some(|es| - 1)
    else LastJoin(es[..|es| - 1], i, j)
  }

  /** In a simple graph, the only edge joining the ends of edge k is edge k itself. */
  lemma SimpleLastJoin(es: seq<Edge>, k: nat)
    requires Simple(es) && k < |es|
    ensures LastJoin(es, es[k].u, es[k].v) == Some(k)
    ensures LastJoin(es, es[k].v, es[k].u) == Some(k)
  {
    assert Joins(es[k], es[k].u, es[k].v) && Joins(es[k], es[k].v, es[k].u);
    forall k2 | k < k2 < |es|
      ensures !Joins(es[k2], es[k].u, es[k].v) && !Joins(es[k2], es[k].v, es[k].u)
    {
    }
  }
}
