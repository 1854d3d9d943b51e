/**
 * create_graph_union: the union of two graphs, each node tagged with where
 * it came from (0 only the first graph, 1 both, 2 only the second, and the
 * matching name), and each edge weighted 1 plus a bonus for every further
 * listing of the same pair in either orientation.
 */
module GraphUnion {
  import opened Wrappers
  import opened Lists
  import opened Graphs

  /** 10 to the power k. */
  function Pow10(k: nat): (r: nat)
    ensures r >= 1
  {
    if k == 0 then 1 else 10 * Pow10(k - 1)
  }

  /** int(math.floor(math.log10(n))) for a positive integer n. */
  function FloorLog10(n: nat): (r: nat)
    requires n >= 1
    ensures Pow10(r) <= n < Pow10(r + 1)
  {
    if n < 10 then 0 else 1 + FloorLog10(n / 10)
  }

  /** Python's failures inside create_graph_union: log10 of 0 nodes, and unpacking zip() of no edges. */
  datatype UnionError = LogOfZero | NoEdges

  /** The union graph: sorted nodes, per-node overlap code and name, and weighted edges. */
  datatype UnionGraph = UnionGraph(
    nodes: seq<int>,
    overlap: map<int, nat>,
    membership: map<int, string>,
    weights: map<(int, int), int>)

  function Flip(e: (int, int)): (int, int) {
    (e.1, e.0)
  }

  /** Edge e and key name the same pair, in either orientation. */
  predicate SamePair(e: (int, int), key: (int, int)) {
    e == key || e == Flip(key)
  }

  /** How many listings in es name the pair `key`, in either orientation. */
  function Listings(es: seq<(int, int)>, key: (int, int)): nat {
    if es == [] then 0
    else Listings(es[..|es| - 1], key) + (if SamePair(es[|es| - 1], key) then 1 else 0)
  }

  /**
   * The edge_weights dictionary for the edge listing es: keys are listed
   * edges, every listed edge has itself or its flip as a key but never
   * both, and each key weighs 1 plus ival for every further listing.
   */
  ghost predicate EdgeWeightsOf(es: seq<(int, int)>, ival: int, w: map<(int, int), int>) {
    (forall key :: key in w ==> key in es)
    && (forall k :: 0 <= k < |es| ==> es[k] in w || Flip(es[k]) in w)
    && (forall key :: key in w && Flip(key) in w ==> key == Flip(key))
    && (forall key :: key in w ==> w[key] == 1 + (Listings(es, key) - 1) * ival)
  }

  lemma {:induction false} ListingsNone(es: seq<(int, int)>, key: (int, int))
    requires forall k :: 0 <= k < |es| ==> !SamePair(es[k], key)
    ensures Listings(es, key) == 0
  {
    if es != [] {
      ListingsNone(es[..|es| - 1], key);
    }
  }

  lemma {:induction false} ListingsOfListed(es: seq<(int, int)>, key: (int, int))
    requires key in es
    ensures Listings(es, key) >= 1
  {
    var m := |es| - 1;
    if es[m] != key {
      assert key in es[..m];
      ListingsOfListed(es[..m], key);
    }
  }

  lemma ListingsFlip(es: seq<(int, int)>, key: (int, int))
    ensures Listings(es, Flip(key)) == Listings(es, key)
  {
    if es != [] {
      ListingsFlip(es[..|es| - 1], key);
    }
  }

  lemma ListingsAppend(pre: seq<(int, int)>, e: (int, int), key: (int, int))
    ensures Listings(pre + [e], key) == Listings(pre, key) + (if SamePair(e, key) then 1 else 0)
  {
    assert (pre + [e])[..|pre|] == pre;
  }

  lemma OneMore(l: nat, ival: int)
    requires l >= 1
    ensures 1 + (l - 1) * ival + ival == 1 + l * ival
  {
  }

  /** Adding ival to the entry already kept for e (under e or its flip) keeps the weights right. */
  lemma BumpKeeps(pre: seq<(int, int)>, e: (int, int), ival: int, w: map<(int, int), int>, key0: (int, int))
    requires EdgeWeightsOf(pre, ival, w) && key0 in w && SamePair(e, key0)
    ensures EdgeWeightsOf(pre + [e], ival, w[key0 := w[key0] + ival])
  {
    var post, w' := pre + [e], w[key0 := w[key0] + ival];
    forall key | key in w' ensures w'[key] == 1 + (Listings(post, key) - 1) * ival {
      ListingsAppend(pre, e, key);
      if key == key0 {
        ListingsOfListed(pre, key);
        OneMore(Listings(pre, key), ival);
      } else if SamePair(e, key) {
        assert false;
      }
    }
    forall key | key in w' ensures key in post {
      assert key in pre;
    }
  }

  /** Entering an edge that has no entry in either orientation with weight 1 keeps the weights right. */
  lemma EnterKeeps(pre: seq<(int, int)>, e: (int, int), ival: int, w: map<(int, int), int>)
    requires EdgeWeightsOf(pre, ival, w) && e !in w && Flip(e) !in w
    ensures EdgeWeightsOf(pre + [e], ival, w[e := 1])
  {
    var post, w' := pre + [e], w[e := 1];
    NotYetListed(pre, e, ival, w);
    forall key | key in w' ensures w'[key] == 1 + (Listings(post, key) - 1) * ival {
      ListingsAppend(pre, e, key);
    }
    forall key | key in w' ensures key in post {
      if key != e {
        assert key in pre;
      }
    }
  }

  lemma NotYetListed(pre: seq<(int, int)>, e: (int, int), ival: int, w: map<(int, int), int>)
    requires EdgeWeightsOf(pre, ival, w) && e !in w && Flip(e) !in w
    ensures Listings(pre, e) == 0
  {
    forall k | 0 <= k < |pre| ensures !SamePair(pre[k], e) {
      assert pre[k] in w || Flip(pre[k]) in w;
    }
    ListingsNone(pre, e);
  }

  /** One turn of the edge loop: bump the edge, or its flip, or enter it with weight 1. */
  method AddListing(es: seq<(int, int)>, k: nat, ival: int, w0: map<(int, int), int>)
    returns (w: map<(int, int), int>)
    requires k < |es| && EdgeWeightsOf(es[..k], ival, w0)
    ensures EdgeWeightsOf(es[..k + 1], ival, w)
  {
    var e := es[k];
    var eflip := (e.1, e.0);
    assert es[..k + 1] == es[..k] + [e];
    if e in w0 {
      BumpKeeps(es[..k], e, ival, w0, e);
      w := w0[e := w0[e] + ival];
    } else if eflip in w0 {
      BumpKeeps(es[..k], e, ival, w0, eflip);
      w := w0[eflip := w0[eflip] + ival];
    } else {
      EnterKeeps(es[..k], e, ival, w0);
      w := w0[e := 1];
    }
  }

  /** The dictionary is empty exactly when there are no edges. */
  lemma EdgeWeightsEmpty(es: seq<(int, int)>, ival: int, w: map<(int, int), int>)
    requires EdgeWeightsOf(es, ival, w)
    ensures |w| == 0 <==> es == []
  {
    if es == [] {
      assert w.Keys == {};
    } else {
      assert es[0] in w || Flip(es[0]) in w;
    }
  }

  /** The edge loop of create_graph_union over the listing of both graphs' edges. */
  method EdgeWeights(es: seq<(int, int)>, ival: int) returns (w: map<(int, int), int>)
    ensures EdgeWeightsOf(es, ival, w)
  {
    w := map[];
    var k := 0;
    while k < |es|
      invariant k <= |es| && EdgeWeightsOf(es[..k], ival, w)
    {
      w := AddListing(es, k, ival, w);
      k := k + 1;
    }
    assert es[..k] == es;
  }

  /** The node loop: the overlap code and the name of every node of the union. */
  method NodeOverlap(union: seq<int>, nodes1: seq<int>, nodes2: seq<int>, name1: string, name2: string)
    returns (overlap: seq<nat>, membership: seq<string>)
    requires forall x :: x in union ==> x in nodes1 || x in nodes2
    ensures |overlap| == |membership| == |union|
    ensures forall i :: 0 <= i < |union| ==>
      (overlap[i] == 0 <==> union[i] in nodes1 && union[i] !in nodes2)
      && (overlap[i] == 2 <==> union[i] !in nodes1 && union[i] in nodes2)
      && (overlap[i] == 1 <==> union[i] in nodes1 && union[i] in nodes2)
    ensures forall i :: 0 <= i < |union| ==>
      membership[i] == (if overlap[i] == 0 then name1 else if overlap[i] == 2 then name2 else name1 + " + " + name2)
  {
    overlap, membership := [], [];
    for i := 0 to |union|
      invariant |overlap| == |membership| == i
      invariant forall j :: 0 <= j < i ==>
        (overlap[j] == 0 <==> union[j] in nodes1 && union[j] !in nodes2)
        && (overlap[j] == 2 <==> union[j] !in nodes1 && union[j] in nodes2)
        && (overlap[j] == 1 <==> union[j] in nodes1 && union[j] in nodes2)
      invariant forall j :: 0 <= j < i ==>
        membership[j] == (if overlap[j] == 0 then name1 else if overlap[j] == 2 then name2 else name1 + " + " + name2)
    {
      var node := union[i];
      if node in nodes1 && node !in nodes2 {
        overlap, membership := overlap + [0], membership + [name1];
      } else if node in nodes2 && node !in nodes1 {
        overlap, membership := overlap + [2], membership + [name2];
      } else {
        overlap, membership := overlap + [1], membership + [name1 + " + " + name2];
      }
    }
  }

  /** create_graph_union(G1, G2, node_name_1, node_name_2). */
  method CreateGraphUnion(g1: LabelGraph, g2: LabelGraph, name1: string, name2: string)
    returns (r: Result<UnionGraph, UnionError>)
    requires WellFormed(g1) && WellFormed(g2)
    ensures r.Failure? <==> |g1.nodes| + |g2.nodes| == 0 || |g1.edges| + |g2.edges| == 0
    ensures r.Failure? ==> r.error == if |g1.nodes| + |g2.nodes| == 0 then LogOfZero else NoEdges
    ensures r.Success? ==>
      var u := r.value;
      u.nodes == SortedUnique(g1.nodes + g2.nodes)
      && (forall x :: x in u.overlap <==> x in g1.nodes || x in g2.nodes)
      && (forall x :: x in u.membership <==> x in g1.nodes || x in g2.nodes)
      && (forall x :: x in u.overlap ==>
            (u.overlap[x] == 0 <==> x in g1.nodes && x !in g2.nodes)
            && (u.overlap[x] == 1 <==> x in g1.nodes && x in g2.nodes)
            && (u.overlap[x] == 2 <==> x !in g1.nodes && x in g2.nodes))
      && (forall x :: x in u.membership ==>
            u.membership[x] == if u.overlap[x] == 0 then name1 else if u.overlap[x] == 2 then name2 else name1 + " + " + name2)
      && EdgeWeightsOf(g1.edges + g2.edges, FloorLog10(|u.nodes|) * 10, u.weights)
  {
    var union := SortedUnique(g1.nodes + g2.nodes);
    SortedUniqueEmpty(g1.nodes + g2.nodes);
    var edgesTotal := g1.edges + g2.edges;
    var overlap, membership := NodeOverlap(union, g1.nodes, g2.nodes, name1, name2);
    if |union| == 0 {
      return Failure(LogOfZero);
    }
    var ival := FloorLog10(|union|) * 10;
    var weights := EdgeWeights(edgesTotal, ival);
    EdgeWeightsEmpty(edgesTotal, ival, weights);
    if |weights| == 0 {
      return Failure(NoEdges);
    }
    var overlapMap, membershipMap := Zip(union, overlap), Zip(union, membership);
    forall x | x in overlapMap
      ensures (overlapMap[x] == 0 <==> x in g1.nodes && x !in g2.nodes)
           && (overlapMap[x] == 1 <==> x in g1.nodes && x in g2.nodes)
           && (overlapMap[x] == 2 <==> x !in g1.nodes && x in g2.nodes)
      ensures membershipMap[x] == if overlapMap[x] == 0 then name1 else if overlapMap[x] == 2 then name2 else name1 + " + " + name2
    {
      var i :| 0 <= i < |union| && union[i] == x;
      ZipAt(union, overlap, i);
      ZipAt(union, membership, i);
    }
    r := Success(UnionGraph(union, overlapMap, membershipMap, weights));
  }

  /** The graph names the pair `key` in one orientation or the other. */
  ghost predicate HasPair(es: seq<(int, int)>, key: (int, int)) {
    exists k :: 0 <= k < |es| && SamePair(es[k], key)
  }

  /** No pair is listed twice, in either orientation: an undirected networkx Graph's edges(). */
  predicate Unrepeated(es: seq<(int, int)>) {
    forall k1, k2 :: 0 <= k1 < k2 < |es| ==> !SamePair(es[k2], es[k1])
  }

  lemma {:induction false} ListingsConcat(a: seq<(int, int)>, b: seq<(int, int)>, key: (int, int))
    ensures Listings(a + b, key) == Listings(a, key) + Listings(b, key)
  {
    if b != [] {
      var m := |b| - 1;
      assert (a + b)[..|a| + m] == a + b[..m];
      ListingsConcat(a, b[..m], key);
    } else {
      assert a + b == a;
    }
  }

  /** An unrepeated listing names a pair once if it has it, and not at all otherwise. */
  lemma {:induction false} ListingsUnrepeated(es: seq<(int, int)>, key: (int, int))
    requires Unrepeated(es)
    ensures Listings(es, key) == if HasPair(es, key) then 1 else 0
  {
    if es != [] {
      var m := |es| - 1;
      ListingsUnrepeated(es[..m], key);
      if SamePair(es[m], key) {
        forall k | 0 <= k < m ensures !SamePair(es[..m][k], key) {
          assert !SamePair(es[m], es[k]);
        }
      } else if HasPair(es, key) {
        var k :| 0 <= k < |es| && SamePair(es[k], key);
        assert SamePair(es[..m][k], key);
      }
    }
  }

  /**
   * The weight of a union edge: 1 when only one of the two graphs has the
   * pair, 1 + ival when both have it, whichever orientation each lists.
   */
  lemma UnionEdgeWeight(es1: seq<(int, int)>, es2: seq<(int, int)>, ival: int, w: map<(int, int), int>, key: (int, int))
    requires Unrepeated(es1) && Unrepeated(es2)
    requires EdgeWeightsOf(es1 + es2, ival, w) && key in w
    ensures HasPair(es1, key) || HasPair(es2, key)
    ensures w[key] == if HasPair(es1, key) && HasPair(es2, key) then 1 + ival else 1
  {
    WeightOfKey(es1 + es2, ival, w, key);
    ListingsOfListed(es1 + es2, key);
    ListingsConcat(es1, es2, key);
    ListingsUnrepeated(es1, key);
    ListingsUnrepeated(es2, key);
    var n := Listings(es1 + es2, key);
    if HasPair(es1, key) && HasPair(es2, key) {
      assert n == 2;
      TwoListings(w[key], n, ival);
    } else {
      assert n == 1;
      OneListing(w[key], n, ival);
    }
  }

  lemma TwoListings(weight: int, n: int, ival: int)
    requires n == 2 && weight == 1 + (n - 1) * ival
    ensures weight == 1 + ival
  {
  }

  lemma OneListing(weight: int, n: int, ival: int)
    requires n == 1 && weight == 1 + (n - 1) * ival
    ensures weight == 1
  {
  }

  /** The weight of one key of an edge_weights dictionary. */
  lemma WeightOfKey(es: seq<(int, int)>, ival: int, w: map<(int, int), int>, key: (int, int))
    requires EdgeWeightsOf(es, ival, w) && key in w
    ensures key in es && w[key] == 1 + (Listings(es, key) - 1) * ival
  {
  }
}
