/**
 * The SciPy heat-kernel object used for TieDIE diffusion: the sorted node
 * order with its two index maps, the graph Laplacian as coordinate
 * triples (degree on the diagonal, -1 for every pair joined in either
 * direction), and the multiplication of a label-keyed heat dictionary by
 * the kernel. The kernel itself, expm(-0.1 L), is supplied from outside.
 */
module HeatKernel {
  import opened Lists
  import opened Graphs
  import opened Vectors

  /** networkx degree: the edge ends at x (in plus out for a DiGraph; a self-loop counts twice). */
  function LabelDegree(edges: seq<(int, int)>, x: int): nat {
    if edges == [] then 0
    else
      var e := edges[|edges| - 1];
      LabelDegree(edges[..|edges| - 1], x) + (if e.0 == x then 1 else 0) + (if e.1 == x then 1 else 0)
  }

  /** The edge list holds the pair in one direction or the other. */
  predicate Adjacent(edges: seq<(int, int)>, a: int, b: int) {
    (a, b) in edges || (b, a) in edges
  }

  /** Dense Laplacian entry at (i, j), positions read through index2node. */
  function LaplacianEntry(g: LabelGraph, index2node: map<nat, int>, i: nat, j: nat): int
    requires i in index2node && j in index2node
  {
    if i == j then LabelDegree(g.edges, index2node[i])
    else if Adjacent(g.edges, index2node[i], index2node[j]) then -1
    else 0
  }

  /** index2node and node2index are mutually inverse bijections between 0..n-1 and the nodes. */
  ghost predicate IndexMapsOf(order: seq<int>, index2node: map<nat, int>, node2index: map<int, nat>) {
    (forall i: nat :: i in index2node <==> i < |order|)
    && (forall x :: x in node2index <==> x in order)
    && (forall i :: 0 <= i < |order| ==> index2node[i] == order[i])
    && (forall i: nat :: i in index2node ==> index2node[i] in node2index && node2index[index2node[i]] == i)
    && (forall x :: x in node2index ==> node2index[x] in index2node && index2node[node2index[x]] == x)
  }

  /** Fills both index maps from the sorted node order, one position at a time. */
  method IndexMaps(order: seq<int>) returns (index2node: map<nat, int>, node2index: map<int, nat>)
    requires Distinct(order)
    ensures IndexMapsOf(order, index2node, node2index)
  {
    index2node, node2index := map[], map[];
    var i := 0;
    assert order[..0] == [];
    while i < |order|
      invariant i <= |order|
      invariant IndexMapsOf(order[..i], index2node, node2index)
    {
      index2node := index2node[i := order[i]];
      node2index := node2index[order[i] := i];
      i := i + 1;
      assert forall x :: x in order[..i] <==> x in order[..i - 1] || x == order[i - 1];
    }
    assert order[..i] == order;
  }

  /** (a, b) comes before (i, j) in row-major order. */
  predicate Before(a: nat, b: nat, i: nat, j: nat) {
    a < i || (a == i && b < j)
  }

  /** The triple list holds an entry at position (a, b). */
  ghost predicate Listed(rows: seq<nat>, cols: seq<nat>, a: nat, b: nat)
    requires |rows| == |cols|
  {
    exists k :: 0 <= k < |rows| && rows[k] == a && cols[k] == b
  }

  /** No position receives two triples. */
  predicate UniquePositions(rows: seq<nat>, cols: seq<nat>)
    requires |rows| == |cols|
  {
    forall k1, k2 :: 0 <= k1 < k2 < |rows| ==> rows[k1] != rows[k2] || cols[k1] != cols[k2]
  }

  /** Positions 0..n-1 of index2node are exactly the keys. */
  ghost predicate IndexedUpTo(index2node: map<nat, int>, n: nat) {
    forall i: nat :: i in index2node <==> i < n
  }

  /** The first n triples are the diagonal: the degree of node k at (k, k). */
  ghost predicate DiagonalFirst(g: LabelGraph, index2node: map<nat, int>, n: nat,
                                rows: seq<nat>, cols: seq<nat>, data: seq<int>)
    requires IndexedUpTo(index2node, n)
  {
    |rows| == |cols| == |data| >= n
    && forall k :: 0 <= k < n ==> rows[k] == k && cols[k] == k && data[k] == LabelDegree(g.edges, index2node[k])
  }

  /** Every triple after the diagonal is a -1 at a joined off-diagonal pair before (i, j). */
  ghost predicate JoinedBefore(g: LabelGraph, index2node: map<nat, int>, n: nat,
                               rows: seq<nat>, cols: seq<nat>, data: seq<int>, i: nat, j: nat)
    requires IndexedUpTo(index2node, n) && |rows| == |cols| == |data|
  {
    forall k :: n <= k < |rows| ==>
      rows[k] < n && cols[k] < n && rows[k] != cols[k] && Before(rows[k], cols[k], i, j)
      && Adjacent(g.edges, index2node[rows[k]], index2node[cols[k]]) && data[k] == -1
  }

  /** The triples after the diagonal come in strictly increasing row-major order. */
  ghost predicate RowMajor(n: nat, rows: seq<nat>, cols: seq<nat>)
    requires |rows| == |cols|
  {
    forall k1, k2 :: n <= k1 < k2 < |rows| ==> Before(rows[k1], cols[k1], rows[k2], cols[k2])
  }

  /** Every joined off-diagonal pair before (i, j) has a triple. */
  ghost predicate CoveredBefore(g: LabelGraph, index2node: map<nat, int>, n: nat,
                                rows: seq<nat>, cols: seq<nat>, i: nat, j: nat)
    requires IndexedUpTo(index2node, n) && |rows| == |cols|
  {
    forall a: nat, b: nat ::
      (a < n && b < n && a != b && Before(a, b, i, j) && Adjacent(g.edges, index2node[a], index2node[b]))
      ==> Listed(rows, cols, a, b)
  }

  /**
   * The triples after the diagonal and the off-diagonal pairs before (i, j):
   * the first n are the diagonal, the rest are -1 entries of joined pairs in
   * strictly increasing row-major order, and every joined pair before (i, j)
   * is there.
   */
  ghost predicate TriplesUpTo(g: LabelGraph, index2node: map<nat, int>, n: nat,
                              rows: seq<nat>, cols: seq<nat>, data: seq<int>, i: nat, j: nat)
    requires IndexedUpTo(index2node, n)
  {
    DiagonalFirst(g, index2node, n, rows, cols, data)
    && JoinedBefore(g, index2node, n, rows, cols, data, i, j)
    && RowMajor(n, rows, cols)
    && CoveredBefore(g, index2node, n, rows, cols, i, j)
  }

  /** The coordinate triples of the Laplacian, each position at most once. */
  ghost predicate LaplacianTriplesOf(g: LabelGraph, index2node: map<nat, int>, n: nat,
                                     rows: seq<nat>, cols: seq<nat>, data: seq<int>)
    requires IndexedUpTo(index2node, n)
  {
    |rows| == |cols| == |data|
    && (forall k :: 0 <= k < |rows| ==> rows[k] < n && cols[k] < n && data[k] == LaplacianEntry(g, index2node, rows[k], cols[k]))
    && UniquePositions(rows, cols)
    && (forall a: nat, b: nat :: a < n && b < n && LaplacianEntry(g, index2node, a, b) != 0 ==> Listed(rows, cols, a, b))
  }

  /** The inner loop over j for one row i: appends (i, j, -1) for every j != i joined to i. */
  method OffDiagonalRow(g: LabelGraph, index2node: map<nat, int>, n: nat,
                        rows0: seq<nat>, cols0: seq<nat>, data0: seq<int>, i: nat)
    returns (rows: seq<nat>, cols: seq<nat>, data: seq<int>)
    requires IndexedUpTo(index2node, n) && i < n
    requires TriplesUpTo(g, index2node, n, rows0, cols0, data0, i, 0)
    ensures TriplesUpTo(g, index2node, n, rows, cols, data, i + 1, 0)
  {
    rows, cols, data := rows0, cols0, data0;
    var j := 0;
    while j < n
      invariant j <= n
      invariant TriplesUpTo(g, index2node, n, rows, cols, data, i, j)
    {
      rows, cols, data := VisitPair(g, index2node, n, rows, cols, data, i, j);
      j := j + 1;
    }
    RowDone(g, index2node, n, rows, cols, data, i);
  }

  /** One turn of the inner loop: position (i, j) gets -1 when i != j and the nodes are joined. */
  method VisitPair(g: LabelGraph, index2node: map<nat, int>, n: nat,
                   rows0: seq<nat>, cols0: seq<nat>, data0: seq<int>, i: nat, j: nat)
    returns (rows: seq<nat>, cols: seq<nat>, data: seq<int>)
    requires IndexedUpTo(index2node, n) && i < n && j < n
    requires TriplesUpTo(g, index2node, n, rows0, cols0, data0, i, j)
    ensures TriplesUpTo(g, index2node, n, rows, cols, data, i, j + 1)
  {
    rows, cols, data := rows0, cols0, data0;
    if i == j {
      SkipPair(g, index2node, n, rows, cols, data, i, j);
      return;
    }
    if !Adjacent(g.edges, index2node[i], index2node[j]) {
      SkipPair(g, index2node, n, rows, cols, data, i, j);
      return;
    }
    AppendPair(g, index2node, n, rows, cols, data, i, j);
    rows, cols, data := rows + [i], cols + [j], data + [-1];
  }

  lemma AppendPair(g: LabelGraph, index2node: map<nat, int>, n: nat,
                   rows: seq<nat>, cols: seq<nat>, data: seq<int>, i: nat, j: nat)
    requires IndexedUpTo(index2node, n) && i < n && j < n && i != j
    requires Adjacent(g.edges, index2node[i], index2node[j])
    requires TriplesUpTo(g, index2node, n, rows, cols, data, i, j)
    ensures TriplesUpTo(g, index2node, n, rows + [i], cols + [j], data + [-1], i, j + 1)
  {
    AppendKeepsDiagonal(g, index2node, n, rows, cols, data, i, j);
    AppendKeepsJoined(g, index2node, n, rows, cols, data, i, j);
    AppendKeepsRowMajor(g, index2node, n, rows, cols, data, i, j);
    AppendKeepsCovered(g, index2node, n, rows, cols, i, j);
  }

  lemma AppendKeepsDiagonal(g: LabelGraph, index2node: map<nat, int>, n: nat,
                            rows: seq<nat>, cols: seq<nat>, data: seq<int>, i: nat, j: nat)
    requires IndexedUpTo(index2node, n) && DiagonalFirst(g, index2node, n, rows, cols, data)
    ensures DiagonalFirst(g, index2node, n, rows + [i], cols + [j], data + [-1])
  {
  }

  lemma AppendKeepsJoined(g: LabelGraph, index2node: map<nat, int>, n: nat,
                          rows: seq<nat>, cols: seq<nat>, data: seq<int>, i: nat, j: nat)
    requires IndexedUpTo(index2node, n) && i < n && j < n && i != j && |rows| == |cols| == |data|
    requires Adjacent(g.edges, index2node[i], index2node[j])
    requires JoinedBefore(g, index2node, n, rows, cols, data, i, j)
    ensures JoinedBefore(g, index2node, n, rows + [i], cols + [j], data + [-1], i, j + 1)
  {
  }

  lemma AppendKeepsRowMajor(g: LabelGraph, index2node: map<nat, int>, n: nat,
                            rows: seq<nat>, cols: seq<nat>, data: seq<int>, i: nat, j: nat)
    requires IndexedUpTo(index2node, n) && |rows| == |cols| == |data|
    requires JoinedBefore(g, index2node, n, rows, cols, data, i, j) && RowMajor(n, rows, cols)
    ensures RowMajor(n, rows + [i], cols + [j])
  {
  }

  lemma AppendKeepsCovered(g: LabelGraph, index2node: map<nat, int>, n: nat,
                           rows: seq<nat>, cols: seq<nat>, i: nat, j: nat)
    requires IndexedUpTo(index2node, n) && |rows| == |cols|
    requires CoveredBefore(g, index2node, n, rows, cols, i, j)
    ensures CoveredBefore(g, index2node, n, rows + [i], cols + [j], i, j + 1)
  {
    var rows', cols' := rows + [i], cols + [j];
    assert rows'[|rows|] == i && cols'[|rows|] == j;
    forall a: nat, b: nat | a < n && b < n && a != b && Before(a, b, i, j + 1)
                            && Adjacent(g.edges, index2node[a], index2node[b])
      ensures Listed(rows', cols', a, b)
    {
      if Before(a, b, i, j) {
        var k :| 0 <= k < |rows| && rows[k] == a && cols[k] == b;
        assert rows'[k] == a && cols'[k] == b;
      }
    }
  }

  lemma SkipPair(g: LabelGraph, index2node: map<nat, int>, n: nat,
                 rows: seq<nat>, cols: seq<nat>, data: seq<int>, i: nat, j: nat)
    requires IndexedUpTo(index2node, n) && i < n && j < n
    requires !(i != j && Adjacent(g.edges, index2node[i], index2node[j]))
    requires TriplesUpTo(g, index2node, n, rows, cols, data, i, j)
    ensures TriplesUpTo(g, index2node, n, rows, cols, data, i, j + 1)
  {
  }

  lemma RowDone(g: LabelGraph, index2node: map<nat, int>, n: nat,
                rows: seq<nat>, cols: seq<nat>, data: seq<int>, i: nat)
    requires IndexedUpTo(index2node, n) && i < n
    requires TriplesUpTo(g, index2node, n, rows, cols, data, i, n)
    ensures TriplesUpTo(g, index2node, n, rows, cols, data, i + 1, 0)
  {
  }

  /** Triples in row-major order with unique positions give each position at most once. */
  lemma TriplesComplete(g: LabelGraph, index2node: map<nat, int>, n: nat,
                        rows: seq<nat>, cols: seq<nat>, data: seq<int>)
    requires IndexedUpTo(index2node, n)
    requires TriplesUpTo(g, index2node, n, rows, cols, data, n, 0)
    ensures LaplacianTriplesOf(g, index2node, n, rows, cols, data)
  {
    forall a: nat, b: nat | a < n && b < n && LaplacianEntry(g, index2node, a, b) != 0
      ensures Listed(rows, cols, a, b)
    {
      if a == b {
        assert rows[a] == a && cols[a] == a;
      }
    }
  }

  /**
   * The diagonal and off-diagonal phases of SciPYKernel.__init__: the
   * degree of every node at (i, i), then -1 at (i, j) for every pair joined
   * by an edge in either direction, rows in order and columns in order.
   */
  method LaplacianTriples(g: LabelGraph, index2node: map<nat, int>, n: nat)
    returns (rows: seq<nat>, cols: seq<nat>, data: seq<int>)
    requires IndexedUpTo(index2node, n)
    ensures LaplacianTriplesOf(g, index2node, n, rows, cols, data)
    ensures TriplesUpTo(g, index2node, n, rows, cols, data, n, 0)
  {
    rows, cols, data := [], [], [];
    var i := 0;
    while i < n
      invariant i <= n && |rows| == i && |cols| == i && |data| == i
      invariant forall k :: 0 <= k < i ==> rows[k] == k && cols[k] == k && data[k] == LabelDegree(g.edges, index2node[k])
    {
      // every node has an entry in G.degree(), so the lookup always succeeds
      var degree := LabelDegree(g.edges, index2node[i]);
      data := data + [degree];
      rows := rows + [i];
      cols := cols + [i];
      i := i + 1;
    }
    i := 0;
    while i < n
      invariant i <= n
      invariant TriplesUpTo(g, index2node, n, rows, cols, data, i, 0)
    {
      rows, cols, data := OffDiagonalRow(g, index2node, n, rows, cols, data, i);
      i := i + 1;
    }
    TriplesComplete(g, index2node, n, rows, cols, data);
  }

  /** coo_matrix semantics: the triples at one position are summed (0 when there are none). */
  function CooEntry(rows: seq<nat>, cols: seq<nat>, data: seq<int>, i: nat, j: nat): int
    requires |rows| == |cols| == |data|
  {
    if rows == [] then 0
    else
      var m := |rows| - 1;
      CooEntry(rows[..m], cols[..m], data[..m], i, j) + (if rows[m] == i && cols[m] == j then data[m] else 0)
  }

  /** With unique positions, the summed entry is the one listed triple's value, or 0. */
  lemma {:induction false} CooEntryUnique(rows: seq<nat>, cols: seq<nat>, data: seq<int>, i: nat, j: nat)
    requires |rows| == |cols| == |data| && UniquePositions(rows, cols)
    ensures !Listed(rows, cols, i, j) ==> CooEntry(rows, cols, data, i, j) == 0
    ensures forall k :: 0 <= k < |rows| && rows[k] == i && cols[k] == j ==> CooEntry(rows, cols, data, i, j) == data[k]
  {
    if rows != [] {
      var m := |rows| - 1;
      CooEntryUnique(rows[..m], cols[..m], data[..m], i, j);
      if rows[m] == i && cols[m] == j {
        assert !Listed(rows[..m], cols[..m], i, j);
      } else if Listed(rows, cols, i, j) {
        var k :| 0 <= k < |rows| && rows[k] == i && cols[k] == j;
        assert rows[..m][k] == i && cols[..m][k] == j;
      }
    }
  }

  /** The sparse matrix the triples build is the dense Laplacian at every position. */
  lemma LaplacianMatrix(g: LabelGraph, index2node: map<nat, int>, n: nat,
                        rows: seq<nat>, cols: seq<nat>, data: seq<int>, i: nat, j: nat)
    requires IndexedUpTo(index2node, n) && i < n && j < n
    requires LaplacianTriplesOf(g, index2node, n, rows, cols, data)
    ensures CooEntry(rows, cols, data, i, j) == LaplacianEntry(g, index2node, i, j)
  {
    CooEntryUnique(rows, cols, data, i, j);
  }

  /** The sparse Laplacian the triples build is symmetric. */
  lemma LaplacianSymmetric(g: LabelGraph, index2node: map<nat, int>, n: nat,
                           rows: seq<nat>, cols: seq<nat>, data: seq<int>, i: nat, j: nat)
    requires IndexedUpTo(index2node, n) && i < n && j < n
    requires LaplacianTriplesOf(g, index2node, n, rows, cols, data)
    ensures CooEntry(rows, cols, data, i, j) == CooEntry(rows, cols, data, j, i)
  {
    LaplacianMatrix(g, index2node, n, rows, cols, data, i, j);
    LaplacianMatrix(g, index2node, n, rows, cols, data, j, i);
  }

  /** The heat dictionary as an array aligned with the labels; a missing label reads as 0. */
  function Aligned(labels: seq<int>, vector: map<int, real>): (r: seq<real>)
    ensures |r| == |labels|
  {
    if labels == [] then []
    else
      var m := |labels| - 1;
      Aligned(labels[..m], vector) + [if labels[m] in vector then vector[labels[m]] else 0.0]
  }

  /** Alignment reads each label's heat, or 0 for a label the dictionary lacks. */
  lemma {:induction false} AlignedAt(labels: seq<int>, vector: map<int, real>, i: nat)
    requires i < |labels|
    ensures labels[i] in vector ==> Aligned(labels, vector)[i] == vector[labels[i]]
    ensures labels[i] !in vector ==> Aligned(labels, vector)[i] == 0.0
  {
    var m := |labels| - 1;
    if i < m {
      AlignedAt(labels[..m], vector, i);
    }
  }

  /** Keys of the dictionary that are not labels have no effect on the aligned array. */
  lemma ForeignKeysIgnored(labels: seq<int>, vector: map<int, real>, x: int, h: real)
    requires x !in labels
    ensures Aligned(labels, vector[x := h]) == Aligned(labels, vector)
  {
    forall i | 0 <= i < |labels| ensures Aligned(labels, vector[x := h])[i] == Aligned(labels, vector)[i] {
      AlignedAt(labels, vector[x := h], i);
      AlignedAt(labels, vector, i);
    }
  }

  /** Array to dictionary and back is the identity. */
  lemma AlignKeyedRoundTrip(labels: seq<int>, value: seq<real>)
    requires |value| == |labels| && Distinct(labels)
    ensures Aligned(labels, Zip(labels, value)) == value
  {
    forall i | 0 <= i < |labels| ensures Aligned(labels, Zip(labels, value))[i] == value[i] {
      AlignedAt(labels, Zip(labels, value), i);
      ZipAt(labels, value, i);
    }
  }

  /** The first loop of kernelMultiplyOne: one array entry per label, in label order. */
  method AlignVector(labels: seq<int>, vector: map<int, real>) returns (arr: seq<real>)
    ensures arr == Aligned(labels, vector)
  {
    arr := [];
    var k := 0;
    while k < |labels|
      invariant k <= |labels| && arr == Aligned(labels[..k], vector)
    {
      assert labels[..k + 1][..k] == labels[..k];
      if labels[k] in vector {
        arr := arr + [vector[labels[k]]];
      } else {
        arr := arr + [0.0];
      }
      k := k + 1;
    }
    assert labels[..k] == labels;
  }

  /** The second loop of kernelMultiplyOne: entry idx is stored under label idx. */
  method KeyByLabel(labels: seq<int>, value: seq<real>) returns (r: map<int, real>)
    requires |value| == |labels|
    ensures r == Zip(labels, value)
  {
    r := map[];
    var idx := 0;
    while idx < |labels|
      invariant idx <= |labels| && r == Zip(labels[..idx], value[..idx])
    {
      assert labels[..idx + 1][..idx] == labels[..idx];
      assert value[..idx + 1][..idx] == value[..idx];
      r := r[labels[idx] := value[idx]];
      idx := idx + 1;
    }
    assert labels[..idx] == labels && value[..idx] == value;
  }

  /** SciPYKernel: the sorted labels, the index map, the Laplacian triples and the kernel matrix. */
  class SciPyKernel {
    var labels: seq<int>
    var index2node: map<nat, int>
    var laplacianRows: seq<nat>
    var laplacianCols: seq<nat>
    var laplacianData: seq<int>
    var kernel: seq<seq<real>>
    ghost var graph: LabelGraph

    ghost predicate Valid()
      reads this
    {
      StrictlyIncreasing(labels) && |labels| == |graph.nodes|
      && (forall x :: x in labels <==> x in graph.nodes)
      && IsSquare(kernel, |labels|)
      && IndexedUpTo(index2node, |labels|)
      && (forall i :: 0 <= i < |labels| ==> index2node[i] == labels[i])
      && LaplacianTriplesOf(graph, index2node, |labels|, laplacianRows, laplacianCols, laplacianData)
      && TriplesUpTo(graph, index2node, |labels|, laplacianRows, laplacianCols, laplacianData, |labels|, 0)
    }

    /** Builds the index maps and the Laplacian of g; `kernel` stands for expm(-0.1 L). */
    constructor (g: LabelGraph, kernel: seq<seq<real>>)
      requires WellFormed(g) && IsSquare(kernel, |g.nodes|)
      ensures Valid() && graph == g && this.kernel == kernel
      ensures labels == SortedUnique(g.nodes)
    {
      var order := SortedUnique(g.nodes);
      assert StrictlyIncreasing(order) ==> Distinct(order);
      var i2n, n2i := IndexMaps(order);
      var rows, cols, data := LaplacianTriples(g, i2n, |order|);
      graph := g;
      labels := order;
      index2node := i2n;
      laplacianRows, laplacianCols, laplacianData := rows, cols, data;
      this.kernel := kernel;
    }

    /** getLabels: exactly the graph's node labels, none lost. */
    function GetLabels(): (r: set<int>)
      requires Valid()
      reads this
      ensures forall x :: x in r <==> x in graph.nodes
      ensures |r| == |graph.nodes|
    {
      DistinctCardinality(labels);
      set x | x in labels
    }

    /**
     * kernelMultiplyOne: aligns the heat dictionary with the labels (0 for a
     * missing label), multiplies by the kernel, and keys the product by label.
     */
    method KernelMultiplyOne(vector: map<int, real>) returns (r: map<int, real>)
      requires Valid()
      ensures r == Zip(labels, MatVec(kernel, Aligned(labels, vector)))
      ensures forall x :: x in r <==> x in graph.nodes
      ensures forall i :: 0 <= i < |labels| ==> r[labels[i]] == Dot(kernel[i], Aligned(labels, vector))
    {
      var arr := AlignVector(labels, vector);
      var value := MatVec(kernel, arr);
      r := KeyByLabel(labels, value);
      forall i | 0 <= i < |labels| ensures r[labels[i]] == Dot(kernel[i], arr) {
        ZipAt(labels, value, i);
      }
    }

    /** diffuse: the same as kernelMultiplyOne; `reverse` is not used. */
    method Diffuse(vector: map<int, real>, reverse: bool) returns (r: map<int, real>)
      requires Valid()
      ensures r == Zip(labels, MatVec(kernel, Aligned(labels, vector)))
    {
      r := KernelMultiplyOne(vector);
    }
  }
}
