/**
 * draw_heat_prop and its helpers, up to the point where the page is built:
 * the seed check, propagation with the default settings, the choice of the
 * hottest nodes, the heat of each edge, the seed markers, the node size
 * multiplier and the physics default.
 */
module HeatDisplay {
  import opened Wrappers
  import opened Lists
  import opened Vectors
  import opened Graphs
  import opened Normalization
  import opened Propagation

  /** set_physics_enabled: the caller's choice, else on exactly for graphs of fewer than 100 nodes. */
  function SetPhysicsEnabled(physicsEnabled: Option<bool>, numNodes: int): (r: bool)
    ensures physicsEnabled.Some? ==> r == physicsEnabled.value
    ensures physicsEnabled.None? ==> (r <==> numNodes < 100)
  {
    match physicsEnabled
    case None => numNodes < 100
    case Some(b) => b
  }

  /** Node size multiplier: 1 above 500 nodes, 3 above 200, else 5. */
  function NodeSizeMultiplier(numNodes: int): (r: nat)
    ensures r == 1 || r == 3 || r == 5
    ensures r == 1 <==> numNodes > 500
    ensures r == 5 <==> numNodes <= 200
  {
    if numNodes > 500 then 1 else if numNodes > 200 then 3 else 5
  }

  /** The seeds that are not nodes of the graph, in seed order. */
  function InvalidSeeds(seeds: seq<int>, nodes: seq<int>): (r: seq<int>)
    ensures forall x :: x in r <==> x in seeds && x !in nodes
    ensures forall x :: multiset(r)[x] == if x in nodes then 0 else multiset(seeds)[x]
    ensures Subsequence(r, seeds)
    ensures |r| <= |seeds|
  {
    if seeds == [] then []
    else
      var m := |seeds| - 1;
      var prev := InvalidSeeds(seeds[..m], nodes);
      assert seeds == seeds[..m] + [seeds[m]];
      assert forall x :: x in seeds <==> x in seeds[..m] || x == seeds[m];
      assert multiset(seeds) == multiset(seeds[..m]) + multiset{seeds[m]};
      if seeds[m] in nodes then
        assert prev != [] ==> Subsequence(prev, seeds[..m]);
        prev
      else
        assert (prev + [seeds[m]])[..|prev|] == prev;
        prev + [seeds[m]]
  }

  /** A graph with a node_heat attribute on every node. */
  datatype HeatGraph = HeatGraph(graph: LabelGraph, heat: map<int, real>)

  predicate Heated(h: HeatGraph) {
    forall i :: 0 <= i < |h.graph.nodes| ==> h.graph.nodes[i] in h.heat
  }

  /** x has a heat, and it is at least y's. */
  predicate Hotter(heat: map<int, real>, x: int, y: int) {
    x in heat && y in heat && heat[x] >= heat[y]
  }

  /** Heats never increase along the list. */
  predicate Descending(s: seq<(int, real)>) {
    forall i, j :: 0 <= i < j < |s| ==> s[i].1 >= s[j].1
  }

  /** No node appears twice. */
  predicate DistinctNodes(s: seq<(int, real)>) {
    forall i, j :: 0 <= i < j < |s| ==> s[i].0 != s[j].0
  }

  /** Puts p after every entry at least as hot, so equal heats keep their order. */
  function InsertByHeat(p: (int, real), s: seq<(int, real)>): (r: seq<(int, real)>)
    ensures |r| == |s| + 1
    ensures multiset(r) == multiset(s) + multiset{p}
  {
    if s == [] then [p]
    else if s[0].1 >= p.1 then
      assert s == [s[0]] + s[1..];
      [s[0]] + InsertByHeat(p, s[1..])
    else
      [p] + s
  }

  /** Inserting into a hottest-first list keeps it hottest first. */
  lemma {:induction false} InsertByHeatDescending(p: (int, real), s: seq<(int, real)>)
    requires Descending(s)
    ensures Descending(InsertByHeat(p, s))
  {
    if s != [] && s[0].1 >= p.1 {
      InsertByHeatDescending(p, s[1..]);
      var rest := InsertByHeat(p, s[1..]);
      forall q | q in rest ensures q.1 <= s[0].1 {
        assert q in multiset(rest);
        if q != p {
          assert q in multiset(s[1..]);
        }
      }
    }
  }

  /** Inserting a node not yet listed keeps the nodes distinct. */
  lemma {:induction false} InsertByHeatDistinct(p: (int, real), s: seq<(int, real)>)
    requires DistinctNodes(s)
    requires forall q :: q in s ==> q.0 != p.0
    ensures DistinctNodes(InsertByHeat(p, s))
  {
    if s != [] && s[0].1 >= p.1 {
      InsertByHeatDistinct(p, s[1..]);
      var rest := InsertByHeat(p, s[1..]);
      forall q | q in rest ensures q.0 != s[0].0 {
        assert q in multiset(rest);
        if q != p {
          assert q in multiset(s[1..]);
        }
      }
    }
  }

  /** sorted(node_heat, key=heat, reverse=True): a stable sort, hottest first. */
  function SortByHeat(s: seq<(int, real)>): (r: seq<(int, real)>)
    ensures multiset(r) == multiset(s)
  {
    if s == [] then []
    else
      var m := |s| - 1;
      assert s == s[..m] + [s[m]];
      InsertByHeat(s[m], SortByHeat(s[..m]))
  }

  /** The sorted list is hottest first. */
  lemma {:induction false} SortByHeatDescending(s: seq<(int, real)>)
    ensures Descending(SortByHeat(s))
  {
    if s != [] {
      var m := |s| - 1;
      SortByHeatDescending(s[..m]);
      InsertByHeatDescending(s[m], SortByHeat(s[..m]));
    }
  }

  /** Sorting keeps the nodes distinct. */
  lemma {:induction false} SortByHeatDistinct(s: seq<(int, real)>)
    requires DistinctNodes(s)
    ensures DistinctNodes(SortByHeat(s))
  {
    if s != [] {
      var m := |s| - 1;
      assert s == s[..m] + [s[m]];
      SortByHeatDistinct(s[..m]);
      var sorted := SortByHeat(s[..m]);
      forall q | q in sorted ensures q.0 != s[m].0 {
        assert q in multiset(s[..m]);
      }
      InsertByHeatDistinct(s[m], sorted);
    }
  }

  /** a stands before b somewhere in r. */
  ghost predicate Precedes(r: seq<(int, real)>, a: (int, real), b: (int, real)) {
    exists p, q :: 0 <= p < q < |r| && r[p] == a && r[q] == b
  }

  /** InsertByHeat puts p right after the leading entries at least as hot as p. */
  lemma {:induction false} InsertSplit(p: (int, real), s: seq<(int, real)>) returns (c: nat)
    ensures c <= |s| && |InsertByHeat(p, s)| == |s| + 1 && InsertByHeat(p, s)[c] == p
    ensures forall x :: 0 <= x < c ==> InsertByHeat(p, s)[x] == s[x] && s[x].1 >= p.1
    ensures forall x :: c <= x < |s| ==> InsertByHeat(p, s)[x + 1] == s[x]
    ensures c < |s| ==> s[c].1 < p.1
  {
    if s == [] || s[0].1 < p.1 {
      c := 0;
      assert InsertByHeat(p, s) == [p] + s;
    } else {
      var c' := InsertSplit(p, s[1..]);
      InsertSplitCons(p, s, c');
      c := c' + 1;
    }
  }

  /** InsertSplit one entry further along, past a head at least as hot as p. */
  lemma InsertSplitCons(p: (int, real), s: seq<(int, real)>, c: nat)
    requires s != [] && s[0].1 >= p.1
    requires c < |s| && InsertByHeat(p, s[1..])[c] == p
    requires forall x :: 0 <= x < c ==> InsertByHeat(p, s[1..])[x] == s[x + 1] && s[x + 1].1 >= p.1
    requires forall x :: c < x < |s| ==> InsertByHeat(p, s[1..])[x] == s[x]
    requires c + 1 < |s| ==> s[c + 1].1 < p.1
    ensures InsertByHeat(p, s)[c + 1] == p
    ensures forall x :: 0 <= x < c + 1 ==> InsertByHeat(p, s)[x] == s[x] && s[x].1 >= p.1
    ensures forall x :: c + 1 <= x < |s| ==> InsertByHeat(p, s)[x + 1] == s[x]
  {
    var rr := InsertByHeat(p, s[1..]);
    assert InsertByHeat(p, s) == [s[0]] + rr;
  }

  /** Insertion keeps the order of the entries already there. */
  lemma InsertKeepsPrecedes(p: (int, real), t: seq<(int, real)>, a: (int, real), b: (int, real))
    requires Precedes(t, a, b)
    ensures Precedes(InsertByHeat(p, t), a, b)
  {
    var r := InsertByHeat(p, t);
    var c := InsertSplit(p, t);
    var x, y :| 0 <= x < y < |t| && t[x] == a && t[y] == b;
    var x' := if x < c then x else x + 1;
    var y' := if y < c then y else y + 1;
    assert r[x'] == a && r[y'] == b;
  }

  /** In a hottest-first list, an inserted entry goes behind every entry as hot as it. */
  lemma InsertBehindEqual(p: (int, real), t: seq<(int, real)>, a: (int, real))
    requires Descending(t) && a in t && a.1 == p.1
    ensures Precedes(InsertByHeat(p, t), a, p)
  {
    var r := InsertByHeat(p, t);
    var c := InsertSplit(p, t);
    var x :| 0 <= x < |t| && t[x] == a;
    assert x < c;
    assert r[x] == a && r[c] == p;
  }

  /** The last entry is inserted into the sorted rest. */
  lemma SortByHeatUnfold(s: seq<(int, real)>)
    requires s != []
    ensures SortByHeat(s) == InsertByHeat(s[|s| - 1], SortByHeat(s[..|s| - 1]))
  {
  }

  /** Every entry of s is in its sorted version. */
  lemma SortByHeatHas(s: seq<(int, real)>, i: nat)
    requires i < |s|
    ensures s[i] in SortByHeat(s)
  {
    assert s[i] in multiset(s);
  }

  /**
   * The sort is stable, as Python's sorted(..., reverse=True) is: of two
   * entries with the same heat, the earlier one stays in front.
   */
  lemma {:induction false} SortByHeatStable(s: seq<(int, real)>, i: nat, j: nat)
    requires i < j < |s| && s[i].1 == s[j].1
    ensures Precedes(SortByHeat(s), s[i], s[j])
  {
    var m := |s| - 1;
    if j < m {
      SortByHeatStable(s[..m], i, j);
      StableKeep(s, i, j);
    } else {
      StableLastOf(s, i);
    }
  }

  /** Sorting in the last entry keeps the order of two earlier entries. */
  lemma StableKeep(s: seq<(int, real)>, i: nat, j: nat)
    requires i < j < |s| - 1
    requires Precedes(SortByHeat(s[..|s| - 1]), s[..|s| - 1][i], s[..|s| - 1][j])
    ensures Precedes(SortByHeat(s), s[i], s[j])
  {
    InsertKeepsPrecedes(s[|s| - 1], SortByHeat(s[..|s| - 1]), s[..|s| - 1][i], s[..|s| - 1][j]);
    SortByHeatUnfold(s);
    assert s[..|s| - 1][i] == s[i] && s[..|s| - 1][j] == s[j];
  }

  /** The last entry ends up behind every earlier entry as hot as it. */
  lemma StableLastOf(s: seq<(int, real)>, i: nat)
    requires i < |s| - 1 && s[i].1 == s[|s| - 1].1
    ensures Precedes(SortByHeat(s), s[i], s[|s| - 1])
  {
    SortByHeatUnfold(s);
    assert s[..|s| - 1][i] == s[i];
    SortByHeatHas(s[..|s| - 1], i);
    StableLast(s[..|s| - 1], s[|s| - 1], s[i]);
  }

  /** The entry sorted in last goes behind every earlier entry as hot as it. */
  lemma StableLast(pre: seq<(int, real)>, p: (int, real), a: (int, real))
    requires a in SortByHeat(pre) && a.1 == p.1
    ensures Precedes(InsertByHeat(p, SortByHeat(pre)), a, p)
  {
    SortByHeatDescending(pre);
    InsertBehindEqual(p, SortByHeat(pre), a);
  }

  /** (node, heat) for every node, in node order. */
  function NodeHeats(h: HeatGraph): (r: seq<(int, real)>)
    requires Heated(h)
    ensures |r| == |h.graph.nodes|
    ensures forall i :: 0 <= i < |r| ==> r[i] == (h.graph.nodes[i], h.heat[h.graph.nodes[i]])
  {
    seq(|h.graph.nodes|, i requires 0 <= i < |h.graph.nodes| => (h.graph.nodes[i], h.heat[h.graph.nodes[i]]))
  }

  /** The edges of es with both ends in keep, in order. */
  function KeptEdges(es: seq<(int, int)>, keep: seq<int>): (r: seq<(int, int)>)
    ensures forall e :: e in r <==> e in es && e.0 in keep && e.1 in keep
  {
    if es == [] then []
    else
      var m := |es| - 1;
      assert forall e :: e in es <==> e in es[..m] || e == es[m];
      KeptEdges(es[..m], keep) + (if es[m].0 in keep && es[m].1 in keep then [es[m]] else [])
  }

  /** G.subgraph(keep): the kept nodes with every edge between two of them. */
  function Subgraph(g: LabelGraph, keep: seq<int>): LabelGraph {
    LabelGraph(keep, KeptEdges(g.edges, keep))
  }

  /** The first k nodes of the hottest-first order. */
  function TopHottest(h: HeatGraph, k: nat): (r: seq<int>)
    requires Heated(h) && k <= |h.graph.nodes|
    ensures |r| == k
  {
    var sorted := SortByHeat(NodeHeats(h));
    assert |sorted| == |multiset(sorted)| == |NodeHeats(h)|;
    seq(k, i requires 0 <= i < k => sorted[i].0)
  }

  /** set_num_nodes: the subgraph of the num_nodes hottest nodes, or G itself. */
  function SetNumNodes(h: HeatGraph, numNodes: Option<int>): (r: HeatGraph)
    requires Heated(h)
  {
    if numNodes.Some? && numNodes.value < |h.graph.nodes| then
      var k := if numNodes.value < 0 then 0 else numNodes.value;
      HeatGraph(Subgraph(h.graph, TopHottest(h, k)), h.heat)
    else h
  }

  lemma NodeHeatsDistinct(h: HeatGraph)
    requires Heated(h) && Distinct(h.graph.nodes)
    ensures DistinctNodes(NodeHeats(h))
  {
  }

  /** Each sorted entry is a node of the graph paired with its own heat. */
  lemma SortedEntries(h: HeatGraph)
    requires Heated(h)
    ensures forall q :: q in SortByHeat(NodeHeats(h)) ==>
      q.0 in h.graph.nodes && q.0 in h.heat && q.1 == h.heat[q.0]
  {
    var nh := NodeHeats(h);
    forall q | q in SortByHeat(nh) ensures q.0 in h.graph.nodes && q.0 in h.heat && q.1 == h.heat[q.0] {
      assert q in multiset(nh);
      var i :| 0 <= i < |nh| && nh[i] == q;
    }
  }

  /** The top k are k distinct nodes of the graph. */
  lemma TopHottestNodes(h: HeatGraph, k: nat)
    requires Heated(h) && Distinct(h.graph.nodes) && k <= |h.graph.nodes|
    ensures Distinct(TopHottest(h, k))
    ensures forall x :: x in TopHottest(h, k) ==> x in h.graph.nodes
  {
    var sorted := SortByHeat(NodeHeats(h));
    assert |sorted| == |multiset(sorted)| == |NodeHeats(h)|;
    NodeHeatsDistinct(h);
    SortByHeatDistinct(NodeHeats(h));
    SortedEntries(h);
    forall x | x in TopHottest(h, k) ensures x in h.graph.nodes {
      var i :| 0 <= i < k && TopHottest(h, k)[i] == x;
      assert sorted[i] in sorted;
    }
  }

  /** Every node in the top k is at least as hot as every node left out. */
  lemma TopHottestHotter(h: HeatGraph, k: nat)
    requires Heated(h) && k <= |h.graph.nodes|
    ensures forall x, y :: x in TopHottest(h, k) && y in h.graph.nodes && y !in TopHottest(h, k)
              ==> Hotter(h.heat, x, y)
  {
    var nh := NodeHeats(h);
    var sorted := SortByHeat(nh);
    var top := TopHottest(h, k);
    SortByHeatDescending(nh);
    SortedEntries(h);
    forall x, y | x in top && y in h.graph.nodes && y !in top ensures Hotter(h.heat, x, y) {
      var i :| 0 <= i < k && top[i] == x;
      var iy := IndexOf(h.graph.nodes, y);
      assert nh[iy] in multiset(sorted);
      var j :| 0 <= j < |sorted| && sorted[j] == nh[iy];
      assert sorted[i] in sorted;
      assert forall j' :: 0 <= j' < k ==> sorted[j'].0 == top[j'];
      assert j >= k;
    }
  }

  /** Of two nodes with the same heat, the one earlier in G.nodes() is kept whenever the later one is. */
  lemma TopHottestTieBreak(h: HeatGraph, k: nat, a: nat, b: nat)
    requires Heated(h) && Distinct(h.graph.nodes) && k <= |h.graph.nodes|
    requires a < b < |h.graph.nodes| && h.heat[h.graph.nodes[a]] == h.heat[h.graph.nodes[b]]
    requires h.graph.nodes[b] in TopHottest(h, k)
    ensures h.graph.nodes[a] in TopHottest(h, k)
  {
    var nh := NodeHeats(h);
    var sorted := SortByHeat(nh);
    var top := TopHottest(h, k);
    assert |sorted| == |multiset(sorted)| == |nh|;
    NodeHeatsDistinct(h);
    SortByHeatDistinct(nh);
    SortByHeatStable(nh, a, b);
    var p, q :| 0 <= p < q < |sorted| && sorted[p] == nh[a] && sorted[q] == nh[b];
    var i :| 0 <= i < k && top[i] == h.graph.nodes[b];
    assert sorted[i].0 == sorted[q].0;
    assert top[p] == h.graph.nodes[a];
  }

  /** set_num_nodes breaks ties by node order: a kept node keeps every equally hot node listed before it. */
  lemma SetNumNodesTieBreak(h: HeatGraph, numNodes: Option<int>, a: nat, b: nat)
    requires Heated(h) && WellFormed(h.graph)
    requires a < b < |h.graph.nodes| && h.heat[h.graph.nodes[a]] == h.heat[h.graph.nodes[b]]
    requires h.graph.nodes[b] in SetNumNodes(h, numNodes).graph.nodes
    ensures h.graph.nodes[a] in SetNumNodes(h, numNodes).graph.nodes
  {
    if numNodes.Some? && numNodes.value < |h.graph.nodes| {
      var k := if numNodes.value < 0 then 0 else numNodes.value;
      TopHottestTieBreak(h, k, a, b);
    }
  }

  /** set_num_nodes keeps max(num_nodes, 0) of the hottest nodes when num_nodes is below the node count, and G otherwise. */
  lemma SetNumNodesKeepsHottest(h: HeatGraph, numNodes: Option<int>)
    requires Heated(h) && WellFormed(h.graph)
    ensures var r := SetNumNodes(h, numNodes);
      if numNodes.Some? && numNodes.value < |h.graph.nodes| then
        |r.graph.nodes| == (if numNodes.value < 0 then 0 else numNodes.value)
        && Distinct(r.graph.nodes)
        && (forall x :: x in r.graph.nodes ==> x in h.graph.nodes)
        && (forall x, y :: x in r.graph.nodes && y in h.graph.nodes && y !in r.graph.nodes ==> Hotter(h.heat, x, y))
        && (forall e :: e in r.graph.edges <==> e in h.graph.edges && e.0 in r.graph.nodes && e.1 in r.graph.nodes)
      else r == h
  {
    if numNodes.Some? && numNodes.value < |h.graph.nodes| {
      var k := if numNodes.value < 0 then 0 else numNodes.value;
      TopHottestNodes(h, k);
      TopHottestHotter(h, k);
    }
  }

  /** The edge loop of draw_heat_prop: an edge is as hot as its hotter end. */
  method EdgeHeats(edges: seq<(int, int)>, heat: map<int, real>) returns (w: map<(int, int), real>)
    requires forall e :: e in edges ==> e.0 in heat && e.1 in heat
    ensures forall e :: e in w <==> e in edges
    ensures forall e :: e in w ==>
      w[e] >= heat[e.0] && w[e] >= heat[e.1] && (w[e] == heat[e.0] || w[e] == heat[e.1])
  {
    w := map[];
    for k := 0 to |edges|
      invariant forall e :: e in w <==> e in edges[..k]
      invariant forall e :: e in w ==>
        w[e] >= heat[e.0] && w[e] >= heat[e.1] && (w[e] == heat[e.0] || w[e] == heat[e.1])
    {
      var e := edges[k];
      assert edges[..k + 1] == edges[..k] + [e];
      if heat[e.0] > heat[e.1] {
        w := w[e := heat[e.0]];
      } else {
        w := w[e := heat[e.1]];
      }
    }
    assert edges[..|edges|] == edges;
  }

  /** Every seed names a node. */
  predicate SeedsListed(seeds: seq<int>, nodes: seq<int>) {
    forall k :: 0 <= k < |seeds| ==> seeds[k] in nodes
  }

  /** The seed check finds nothing exactly when every seed names a node. */
  lemma NoInvalidSeeds(seeds: seq<int>, nodes: seq<int>)
    ensures InvalidSeeds(seeds, nodes) == [] <==> SeedsListed(seeds, nodes)
  {
    if InvalidSeeds(seeds, nodes) == [] {
      forall k | 0 <= k < |seeds| ensures seeds[k] in nodes {
        assert seeds[k] in seeds;
      }
    } else {
      assert InvalidSeeds(seeds, nodes)[0] in InvalidSeeds(seeds, nodes);
    }
  }

  /**
   * The graph as normalized_adj_matrix and network_propagation see it: node
   * i is the i-th node of G.nodes(), and every edge has weight 1 (the
   * unweighted default of the normaliser).
   */
  function IndexGraph(g: LabelGraph): (r: Graph)
    requires WellFormed(g)
    ensures Valid(r) && r.n == |g.nodes| && |r.edges| == |g.edges|
    ensures forall k :: 0 <= k < |g.edges| ==>
      g.nodes[r.edges[k].u] == g.edges[k].0 && g.nodes[r.edges[k].v] == g.edges[k].1
  {
    Graph(|g.nodes|, seq(|g.edges|, k requires 0 <= k < |g.edges| =>
      Edge(IndexOf(g.nodes, g.edges[k].0), IndexOf(g.nodes, g.edges[k].1), 1.0)))
  }

  /** The seed labels as positions in G.nodes(), which is how the seed vector is indexed. */
  function SeedIndices(nodes: seq<int>, seeds: seq<int>): (r: seq<int>)
    requires SeedsListed(seeds, nodes)
    ensures |r| == |seeds| && SeedsInGraph(|nodes|, r)
    ensures forall k :: 0 <= k < |r| ==> nodes[r[k]] == seeds[k]
  {
    seq(|seeds|, k requires 0 <= k < |seeds| => IndexOf(nodes, seeds[k]) as int)
  }

  /** Position i occurs among the seed positions as often as label nodes[i] occurs among the seeds. */
  lemma {:induction false} SeedIndicesCount(nodes: seq<int>, seeds: seq<int>, i: nat)
    requires Distinct(nodes) && i < |nodes|
    requires SeedsListed(seeds, nodes)
    ensures Count(SeedIndices(nodes, seeds), i) == Count(seeds, nodes[i])
  {
    if seeds != [] {
      var m := |seeds| - 1;
      var si := SeedIndices(nodes, seeds);
      assert si[..m] == SeedIndices(nodes, seeds[..m]);
      SeedIndicesCount(nodes, seeds[..m], i);
      assert si[m] == i <==> seeds[m] == nodes[i];
    }
  }

  /** A seed label listed c times among s seeds starts with heat c/s. */
  lemma SeedLabelMass(nodes: seq<int>, seeds: seq<int>, i: nat)
    requires Distinct(nodes) && i < |nodes|
    requires SeedsListed(seeds, nodes)
    ensures SeedDistribution(|nodes|, SeedIndices(nodes, seeds))[i]
      == if |seeds| == 0 then 0.0 else Count(seeds, nodes[i]) as real / |seeds| as real
  {
    SeedIndicesCount(nodes, seeds, i);
  }

  /** Damping and iteration count draw_heat_prop leaves at network_propagation's defaults. */
  const Alpha: real := 0.5
  const NumIts: nat := 20

  /** The heat network_propagation(G, normalized_adj_matrix(G), seed_nodes) gives each label. */
  function PropagatedHeat(g: LabelGraph, seeds: seq<int>): (r: map<int, real>)
    requires WellFormed(g) && SeedsListed(seeds, g.nodes)
    ensures forall x :: x in r <==> x in g.nodes
  {
    var ig := IndexGraph(g);
    Zip(g.nodes, Iterate(NormalizedMatrix(ig, Conserving, false), SeedDistribution(ig.n, SeedIndices(g.nodes, seeds)), Alpha, NumIts))
  }

  /** The i-th node's heat is entry i of the propagated vector. */
  lemma PropagatedHeatAt(g: LabelGraph, seeds: seq<int>, i: nat)
    requires WellFormed(g) && SeedsListed(seeds, g.nodes) && i < |g.nodes|
    ensures PropagatedHeat(g, seeds)[g.nodes[i]]
      == Iterate(NormalizedMatrix(IndexGraph(g), Conserving, false),
                 SeedDistribution(|g.nodes|, SeedIndices(g.nodes, seeds)), Alpha, NumIts)[i]
  {
    var ig := IndexGraph(g);
    ZipAt(g.nodes, Iterate(NormalizedMatrix(ig, Conserving, false), SeedDistribution(ig.n, SeedIndices(g.nodes, seeds)), Alpha, NumIts), i);
  }

  /** The graph set_num_nodes returns is again a graph over distinct labels, all of them nodes of G. */
  lemma SetNumNodesWellFormed(h: HeatGraph, numNodes: Option<int>)
    requires Heated(h) && WellFormed(h.graph)
    ensures WellFormed(SetNumNodes(h, numNodes).graph)
    ensures forall x :: x in SetNumNodes(h, numNodes).graph.nodes ==> x in h.graph.nodes
  {
    SetNumNodesKeepsHottest(h, numNodes);
    var r := SetNumNodes(h, numNodes);
    forall k | 0 <= k < |r.graph.edges| ensures r.graph.edges[k].0 in r.graph.nodes && r.graph.edges[k].1 in r.graph.nodes {
      assert r.graph.edges[k] in r.graph.edges;
    }
  }

  /** The markers of the nodes_shape loop: a triangle for a seed, a dot otherwise. */
  method NodeShapes(nodes: seq<int>, seeds: seq<int>) returns (shapes: seq<string>)
    ensures |shapes| == |nodes|
    ensures forall i :: 0 <= i < |nodes| ==> shapes[i] == if nodes[i] in seeds then "triangle" else "dot"
  {
    shapes := [];
    for i := 0 to |nodes|
      invariant |shapes| == i
      invariant forall j :: 0 <= j < i ==> shapes[j] == if nodes[j] in seeds then "triangle" else "dot"
    {
      if nodes[i] in seeds {
        shapes := shapes + ["triangle"];
      } else {
        shapes := shapes + ["dot"];
      }
    }
  }

  /** The edges as source and target positions, through node_map = dict(zip(nodes, range(len(nodes)))). */
  function EdgeEnds(g: LabelGraph): (r: seq<(nat, nat)>)
    requires WellFormed(g)
    ensures |r| == |g.edges|
    ensures forall k :: 0 <= k < |g.edges| ==>
      (r[k].0 < |g.nodes| && g.nodes[r[k].0] == g.edges[k].0
       && r[k].1 < |g.nodes| && g.nodes[r[k].1] == g.edges[k].1)
  {
    seq(|g.edges|, k requires 0 <= k < |g.edges| => (IndexOf(g.nodes, g.edges[k].0), IndexOf(g.nodes, g.edges[k].1)))
  }

  /** Why draw_heat_prop draws nothing. */
  datatype DrawError = InvalidSeedNodes(missing: seq<int>) | NoNodes | NoEdges

  /** What draw_heat_prop hands to the page builder, colours and layout aside. */
  datatype HeatView = HeatView(
    graph: LabelGraph,
    heat: map<int, real>,
    edgeHeat: map<(int, int), real>,
    edgeEnds: seq<(nat, nat)>,
    borderWidth: map<int, int>,
    shape: map<int, string>,
    sizeMultiplier: nat,
    physics: bool)

  /** The view of the kept graph: edge heats, edge ends by node position, seed markers, size and physics. */
  ghost predicate ViewOf(v: HeatView, kept: LabelGraph, heat: map<int, real>, seeds: seq<int>, physicsEnabled: Option<bool>) {
    && v.graph == kept && v.heat == heat
    && (forall e :: e in v.edgeHeat <==> e in kept.edges)
    && (forall e :: e in v.edgeHeat ==>
          (e.0 in heat && e.1 in heat
           && v.edgeHeat[e] >= heat[e.0] && v.edgeHeat[e] >= heat[e.1]
           && (v.edgeHeat[e] == heat[e.0] || v.edgeHeat[e] == heat[e.1])))
    && |v.edgeEnds| == |kept.edges|
    && (forall k :: 0 <= k < |kept.edges| ==>
          (v.edgeEnds[k].0 < |kept.nodes| && kept.nodes[v.edgeEnds[k].0] == kept.edges[k].0
           && v.edgeEnds[k].1 < |kept.nodes| && kept.nodes[v.edgeEnds[k].1] == kept.edges[k].1))
    && (forall x :: x in v.borderWidth <==> x in kept.nodes)
    && (forall x :: x in v.borderWidth ==> v.borderWidth[x] == if x in seeds then 2 else 0)
    && (forall x :: x in v.shape <==> x in kept.nodes)
    && (forall i :: 0 <= i < |kept.nodes| ==>
          (kept.nodes[i] in v.shape && v.shape[kept.nodes[i]] == if kept.nodes[i] in seeds then "triangle" else "dot"))
    && v.sizeMultiplier == NodeSizeMultiplier(|kept.nodes|)
    && v.physics == SetPhysicsEnabled(physicsEnabled, |kept.nodes|)
  }

  /**
   * draw_heat_prop up to the page: reject seeds outside the graph, propagate
   * from the seeds, keep the num_nodes hottest nodes, give up on an empty
   * node or edge list, then derive the view of what is left.
   */
  method DrawHeatProp(g: LabelGraph, seeds: seq<int>, numNodes: Option<int>, physicsEnabled: Option<bool>)
    returns (r: Result<HeatView, DrawError>)
    requires WellFormed(g)
    ensures !SeedsListed(seeds, g.nodes) <==> r == Failure(InvalidSeedNodes(InvalidSeeds(seeds, g.nodes)))
    ensures SeedsListed(seeds, g.nodes) ==>
      var heat := PropagatedHeat(g, seeds);
      var kept := SetNumNodes(HeatGraph(g, heat), numNodes).graph;
      && (r == Failure(NoNodes) <==> kept.nodes == [])
      && (r == Failure(NoEdges) <==> kept.nodes != [] && kept.edges == [])
      && (r.Success? <==> kept.nodes != [] && kept.edges != [])
      && (r.Success? ==> ViewOf(r.value, kept, heat, seeds, physicsEnabled))
  {
    var invalid := InvalidSeeds(seeds, g.nodes);
    NoInvalidSeeds(seeds, g.nodes);
    if invalid != [] {
      return Failure(InvalidSeedNodes(invalid));
    }
    var ig := IndexGraph(g);
    var w := NormalizedAdjMatrix(ig, Conserving, false);
    var f := NetworkPropagation(ig.n, w, SeedIndices(g.nodes, seeds), Alpha, NumIts);
    var heat := Zip(g.nodes, f);
    assert heat == PropagatedHeat(g, seeds);
    var h := HeatGraph(g, heat);
    var kept := SetNumNodes(h, numNodes).graph;
    SetNumNodesWellFormed(h, numNodes);
    if kept.nodes == [] {
      return Failure(NoNodes);
    }
    if kept.edges == [] {
      return Failure(NoEdges);
    }
    var view := BuildView(kept, heat, seeds, physicsEnabled);
    r := Success(view);
  }

  /** The part of draw_heat_prop that runs once the kept graph has nodes and edges. */
  method BuildView(kept: LabelGraph, heat: map<int, real>, seeds: seq<int>, physicsEnabled: Option<bool>)
    returns (v: HeatView)
    requires WellFormed(kept) && forall x :: x in kept.nodes ==> x in heat
    ensures ViewOf(v, kept, heat, seeds, physicsEnabled)
  {
    forall e | e in kept.edges ensures e.0 in heat && e.1 in heat {
      var k :| 0 <= k < |kept.edges| && kept.edges[k] == e;
    }
    var edgeHeat := EdgeHeats(kept.edges, heat);
    var edgeEnds := EdgeEnds(kept);
    var borderWidth := map x | x in kept.nodes :: if x in seeds then 2 else 0;
    var shapes := NodeShapes(kept.nodes, seeds);
    forall i | 0 <= i < |kept.nodes| ensures Zip(kept.nodes, shapes)[kept.nodes[i]] == shapes[i] {
      ZipAt(kept.nodes, shapes, i);
    }
    v := HeatView(kept, heat, edgeHeat, edgeEnds, borderWidth, Zip(kept.nodes, shapes),
      NodeSizeMultiplier(|kept.nodes|), SetPhysicsEnabled(physicsEnabled, |kept.nodes|));
  }
}
