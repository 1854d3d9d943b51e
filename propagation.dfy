/**
 * The propagation engine: random walk with restart (Vanunu et al.).
 * The seed vector Y gives every occurrence of a node in the seed list the
 * mass 1/len(seeds); the heat F starts as a copy of Y and is replaced
 * exactly num_its times by alpha * (W' F) + (1 - alpha) * Y, with no
 * convergence test.
 */
module Propagation {
  import opened Vectors
  import opened Graphs
  import opened Normalization

  /** Occurrences of x in s. */
  function Count(s: seq<int>, x: int): nat {
    if s == [] then 0 else Count(s[..|s| - 1], x) + (if s[|s| - 1] == x then 1 else 0)
  }

  /** Every seed names a node of the graph. */
  predicate SeedsInGraph(n: nat, seeds: seq<int>) {
    forall k :: 0 <= k < |seeds| ==> 0 <= seeds[k] < n
  }

  /** Y[v]: the occurrences of v in the seed list over the list's length (0 for an empty list). */
  function SeedMass(seeds: seq<int>, v: int): real {
    if |seeds| == 0 then 0.0 else Count(seeds, v) as real / |seeds| as real
  }

  /** The seed vector Y over nodes 0..n-1. */
  function SeedDistribution(n: nat, seeds: seq<int>): (y: seq<real>)
    ensures |y| == n && forall v :: 0 <= v < n ==> y[v] == SeedMass(seeds, v)
  {
    seq(n, v => SeedMass(seeds, v))
  }

  /** The mass one occurrence in the seed list carries. */
  function Share(seeds: seq<int>): (r: real)
    ensures |seeds| > 0 ==> r * |seeds| as real == 1.0
  {
    if |seeds| == 0 then 0.0 else 1.0 / |seeds| as real
  }

  /** Builds Y: one pass over the seed list adding 1/len(seeds) per occurrence. */
  method SeedVector(n: nat, seeds: seq<int>) returns (y: seq<real>)
    requires SeedsInGraph(n, seeds)
    ensures y == SeedDistribution(n, seeds)
  {
    y := Zeros(n);
    var k := 0;
    while k < |seeds|
      invariant k <= |seeds| && SeedPrefix(y, n, seeds, k)
    {
      SeedStep(y, n, seeds, k);
      y := y[seeds[k] := y[seeds[k]] + Share(seeds)];
      k := k + 1;
    }
    assert seeds[..|seeds|] == seeds;
    forall v | 0 <= v < n ensures y[v] == SeedMass(seeds, v) {
      ShareTimesCount(Count(seeds, v), seeds);
    }
  }

  /** y holds the mass of the first k seeds. */
  ghost predicate SeedPrefix(y: seq<real>, n: nat, seeds: seq<int>, k: nat)
    requires k <= |seeds|
  {
    |y| == n && forall v :: 0 <= v < n ==> y[v] == Count(seeds[..k], v) as real * Share(seeds)
  }

  lemma SeedStep(y: seq<real>, n: nat, seeds: seq<int>, k: nat)
    requires k < |seeds| && 0 <= seeds[k] < n && SeedPrefix(y, n, seeds, k)
    ensures SeedPrefix(y[seeds[k] := y[seeds[k]] + Share(seeds)], n, seeds, k + 1)
  {
    forall v | 0 <= v < n
      ensures Count(seeds[..k + 1], v) as real * Share(seeds)
           == Count(seeds[..k], v) as real * Share(seeds) + (if v == seeds[k] then Share(seeds) else 0.0)
    {
      CountStep(seeds, k, v);
      AddOneShare(Count(seeds[..k], v), Share(seeds));
    }
  }

  lemma ShareTimesCount(c: nat, seeds: seq<int>)
    ensures c as real * Share(seeds) == if |seeds| == 0 then 0.0 else c as real / |seeds| as real
  {
  }

  lemma CountStep(s: seq<int>, k: nat, v: int)
    requires k < |s|
    ensures Count(s[..k + 1], v) == Count(s[..k], v) + (if s[k] == v then 1 else 0)
  {
    assert s[..k + 1][..k] == s[..k];
  }

  lemma AddOneShare(c: nat, share: real)
    ensures (c + 1) as real * share == c as real * share + share
  {
  }

  /** Restart mixing: alpha of the spread heat m plus (1 - alpha) of the seed vector y. */
  function Mix(m: seq<real>, y: seq<real>, alpha: real): (r: seq<real>)
    requires |m| == |y|
    ensures |r| == |y|
  {
    Add(Scale(alpha, m), Scale(1.0 - alpha, y))
  }

  /** One propagation step: alpha * (W' F) + (1 - alpha) * Y. */
  function Step(w: seq<seq<real>>, f: seq<real>, y: seq<real>, alpha: real): (r: seq<real>)
    requires IsMatrix(w, |f|) && |y| == |w|
    ensures |r| == |w|
  {
    Mix(MatVec(w, f), y, alpha)
  }

  /** The heat after t steps from F = Y. */
  function Iterate(w: seq<seq<real>>, y: seq<real>, alpha: real, t: nat): (r: seq<real>)
    requires IsSquare(w, |y|)
    ensures |r| == |y|
  {
    if t == 0 then y else Step(w, Iterate(w, y, alpha, t - 1), y, alpha)
  }

  /**
   * network_propagation: exactly numIts steps. With numIts = 0 the source
   * returns a variable its loop never assigned, so at least one step is required.
   */
  method NetworkPropagation(n: nat, w: seq<seq<real>>, seeds: seq<int>, alpha: real, numIts: nat)
    returns (f: seq<real>)
    requires IsSquare(w, n) && SeedsInGraph(n, seeds) && numIts >= 1
    ensures f == Iterate(w, SeedDistribution(n, seeds), alpha, numIts)
  {
    var y := SeedVector(n, seeds);
    var fOld := y;
    var fNew := fOld;
    var t := 0;
    while t < numIts
      invariant t <= numIts
      invariant fOld == Iterate(w, y, alpha, t) && fNew == fOld
    {
      fNew := Step(w, fOld, y, alpha);
      fOld := fNew;
      t := t + 1;
    }
    f := fNew;
  }

  /** The occurrence count of every node, as a vector. */
  function Counts(n: nat, s: seq<int>): (r: seq<real>)
    ensures |r| == n && forall v :: 0 <= v < n ==> r[v] == Count(s, v) as real
  {
    seq(n, v => Count(s, v) as real)
  }

  lemma {:induction false} CountsSum(n: nat, s: seq<int>)
    requires SeedsInGraph(n, s)
    ensures Sum(Counts(n, s)) == |s| as real
  {
    if s == [] {
      assert Counts(n, s) == Zeros(n);
      SumZeros(n);
    } else {
      var m := |s| - 1;
      CountsSum(n, s[..m]);
      forall v | 0 <= v < n ensures Counts(n, s)[v] == Add(Counts(n, s[..m]), Unit(n, s[m]))[v] {
        assert s[..m] + [s[m]] == s;
      }
      assert Counts(n, s) == Add(Counts(n, s[..m]), Unit(n, s[m]));
      SumAdd(Counts(n, s[..m]), Unit(n, s[m]));
      SumUnit(n, s[m]);
    }
  }

  lemma DivideAsScale(x: real, d: real)
    requires d > 0.0
    ensures x / d == (1.0 / d) * x
  {
  }

  lemma SeedDistributionScalesCounts(n: nat, seeds: seq<int>)
    requires |seeds| > 0
    ensures SeedDistribution(n, seeds) == Scale(1.0 / |seeds| as real, Counts(n, seeds))
  {
    forall v | 0 <= v < n ensures SeedDistribution(n, seeds)[v] == Scale(1.0 / |seeds| as real, Counts(n, seeds))[v] {
      DivideAsScale(Count(seeds, v) as real, |seeds| as real);
    }
  }

  /** A non-empty seed list gives a Y that sums to 1. */
  lemma SeedDistributionSumsToOne(n: nat, seeds: seq<int>)
    requires SeedsInGraph(n, seeds) && |seeds| > 0
    ensures Sum(SeedDistribution(n, seeds)) == 1.0
  {
    CountsSum(n, seeds);
    SeedDistributionScalesCounts(n, seeds);
    ScaledByInverseSum(Counts(n, seeds), |seeds| as real);
  }

  /** Y has no negative entry; a node not in the seed list gets 0. */
  lemma SeedDistributionNonNegative(n: nat, seeds: seq<int>)
    ensures NonNegative(SeedDistribution(n, seeds))
    ensures forall v :: 0 <= v < n && Count(seeds, v) == 0 ==> SeedDistribution(n, seeds)[v] == 0.0
  {
  }

  /** Mixing two vectors that each sum to 1 gives a vector that sums to 1. */
  lemma MixOfUnitTotals(m: seq<real>, y: seq<real>, alpha: real)
    requires |m| == |y| && Sum(m) == 1.0 && Sum(y) == 1.0
    ensures Sum(Mix(m, y, alpha)) == 1.0
  {
    MixIsSumOfScaled(m, y, alpha);
    AffineOfUnitTotals(m, y, alpha, 1.0 - alpha);
  }

  lemma MixIsSumOfScaled(m: seq<real>, y: seq<real>, alpha: real)
    requires |m| == |y|
    ensures Sum(Mix(m, y, alpha)) == Sum(Add(Scale(alpha, m), Scale(1.0 - alpha, y)))
  {
  }

  lemma AffineOfUnitTotals(m: seq<real>, y: seq<real>, a: real, b: real)
    requires |m| == |y| && Sum(m) == 1.0 && Sum(y) == 1.0 && a + b == 1.0
    ensures Sum(Add(Scale(a, m), Scale(b, y))) == 1.0
  {
    SumAdd(Scale(a, m), Scale(b, y));
    ScaledUnitTotal(a, m);
    ScaledUnitTotal(b, y);
  }

  lemma ScaledUnitTotal(c: real, v: seq<real>)
    requires Sum(v) == 1.0
    ensures Sum(Scale(c, v)) == c
  {
    SumScale(c, v);
  }

  /**
   * The heat total after one step: with a column-stochastic W', the total
   * is alpha times the previous total plus (1 - alpha) times Y's total.
   */
  lemma StepSum(w: seq<seq<real>>, f: seq<real>, y: seq<real>, alpha: real)
    requires IsSquare(w, |f|) && |y| == |f|
    requires forall j :: 0 <= j < |f| ==> Sum(Column(w, j)) == 1.0
    ensures Sum(Step(w, f, y, alpha)) == alpha * Sum(f) + (1.0 - alpha) * Sum(y)
  {
    ColumnStochasticPreservesSum(w, f);
    SumCombination(MatVec(w, f), f, y, alpha);
    StepTotal(w, f, y, alpha);
  }

  lemma StepTotal(w: seq<seq<real>>, f: seq<real>, y: seq<real>, alpha: real)
    requires IsMatrix(w, |f|) && |y| == |w|
    ensures Sum(Step(w, f, y, alpha)) == Sum(Add(Scale(alpha, MatVec(w, f)), Scale(1.0 - alpha, y)))
  {
  }

  /** Mixing non-negative vectors with 0 <= alpha <= 1 gives a non-negative vector. */
  lemma MixNonNegative(m: seq<real>, y: seq<real>, alpha: real)
    requires |m| == |y| && NonNegative(m) && NonNegative(y) && 0.0 <= alpha <= 1.0
    ensures NonNegative(Mix(m, y, alpha))
  {
    forall i | 0 <= i < |y| ensures 0.0 <= Mix(m, y, alpha)[i] {
      ProductNonNegative(alpha, m[i]);
      ProductNonNegative(1.0 - alpha, y[i]);
    }
  }

  lemma ProductNonNegative(a: real, b: real)
    requires 0.0 <= a && 0.0 <= b
    ensures 0.0 <= a * b
  {
  }

  /** With a column-stochastic W' and Y summing to 1, the heat sums to 1 after every step. */
  lemma {:induction false} MassConserved(w: seq<seq<real>>, y: seq<real>, alpha: real, t: nat)
    requires IsSquare(w, |y|) && Sum(y) == 1.0
    requires forall j :: 0 <= j < |y| ==> Sum(Column(w, j)) == 1.0
    ensures Sum(Iterate(w, y, alpha, t)) == 1.0
  {
    if t > 0 {
      MassConserved(w, y, alpha, t - 1);
      var f := Iterate(w, y, alpha, t - 1);
      ColumnStochasticPreservesSum(w, f);
      MixOfUnitTotals(MatVec(w, f), y, alpha);
    }
  }

  /**
   * Heat conservation end to end: on a simple graph without isolated nodes,
   * conserving and unweighted normalisation, any non-empty seed list, the
   * heat vector sums to 1 after every step.
   */
  lemma HeatConserved(g: Graph, seeds: seq<int>, alpha: real, t: nat)
    requires Valid(g) && Simple(g.edges)
    requires forall v :: 0 <= v < g.n ==> Degree(g.edges, v) >= 1
    requires SeedsInGraph(g.n, seeds) && |seeds| > 0
    ensures Sum(Iterate(NormalizedMatrix(g, Conserving, false), SeedDistribution(g.n, seeds), alpha, t)) == 1.0
  {
    var w := NormalizedMatrix(g, Conserving, false);
    forall j | 0 <= j < g.n ensures Sum(Column(w, j)) == 1.0 {
      ConservingColumnSums(g, j);
    }
    SeedDistributionSumsToOne(g.n, seeds);
    MassConserved(w, SeedDistribution(g.n, seeds), alpha, t);
  }

  /** Non-negative W' and Y and 0 <= alpha <= 1 keep the heat non-negative. */
  lemma {:induction false} HeatNonNegative(w: seq<seq<real>>, y: seq<real>, alpha: real, t: nat)
    requires IsSquare(w, |y|) && NonNegativeMatrix(w) && NonNegative(y) && 0.0 <= alpha <= 1.0
    ensures NonNegative(Iterate(w, y, alpha, t))
  {
    if t > 0 {
      var f := Iterate(w, y, alpha, t - 1);
      HeatNonNegative(w, y, alpha, t - 1);
      MatVecNonNegative(w, f);
      MixNonNegative(MatVec(w, f), y, alpha);
    }
  }
}
