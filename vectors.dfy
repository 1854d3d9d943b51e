/**
 * Dense real vectors and square matrices (a matrix is a sequence of rows),
 * with the sums, dot products and matrix-vector products that heat
 * propagation is built from, and the algebra that relates them.
 */
module Vectors {

  /** Every row of `w` has length `n`. */
  predicate IsMatrix(w: seq<seq<real>>, n: nat) {
    forall i :: 0 <= i < |w| ==> |w[i]| == n
  }

  /** `w` is an n-by-n matrix. */
  predicate IsSquare(w: seq<seq<real>>, n: nat) {
    |w| == n && IsMatrix(w, n)
  }

  predicate NonNegative(v: seq<real>) {
    forall i :: 0 <= i < |v| ==> 0.0 <= v[i]
  }

  predicate NonNegativeMatrix(w: seq<seq<real>>) {
    forall i, j :: 0 <= i < |w| && 0 <= j < |w[i]| ==> 0.0 <= w[i][j]
  }

  /** Sum of the entries, taken from the front to the back. */
  function Sum(v: seq<real>): real {
    if v == [] then 0.0 else Sum(v[..|v| - 1]) + v[|v| - 1]
  }

  function Dot(a: seq<real>, b: seq<real>): real
    requires |a| == |b|
  {
    if a == [] then 0.0 else Dot(a[..|a| - 1], b[..|b| - 1]) + a[|a| - 1] * b[|b| - 1]
  }

  function Add(a: seq<real>, b: seq<real>): (r: seq<real>)
    requires |a| == |b|
    ensures |r| == |a|
    ensures forall i :: 0 <= i < |a| ==> r[i] == a[i] + b[i]
  {
    seq(|a|, i requires 0 <= i < |a| => a[i] + b[i])
  }

  function Scale(c: real, a: seq<real>): (r: seq<real>)
    ensures |r| == |a|
    ensures forall i :: 0 <= i < |a| ==> r[i] == c * a[i]
  {
    seq(|a|, i requires 0 <= i < |a| => c * a[i])
  }

  function Zeros(n: nat): (r: seq<real>)
    ensures |r| == n && forall i :: 0 <= i < n ==> r[i] == 0.0
  {
    seq(n, _ => 0.0)
  }

  function Ones(n: nat): (r: seq<real>)
    ensures |r| == n && forall i :: 0 <= i < n ==> r[i] == 1.0
  {
    seq(n, _ => 1.0)
  }

  /** The vector with 1 at position k and 0 elsewhere. */
  function Unit(n: nat, k: nat): (r: seq<real>)
    ensures |r| == n && forall i :: 0 <= i < n ==> r[i] == if i == k then 1.0 else 0.0
  {
    seq(n, i => if i == k then 1.0 else 0.0)
  }

  /** Column j of `w`. */
  function Column(w: seq<seq<real>>, j: nat): (r: seq<real>)
    requires forall i :: 0 <= i < |w| ==> j < |w[i]|
    ensures |r| == |w| && forall i :: 0 <= i < |w| ==> r[i] == w[i][j]
  {
    seq(|w|, i requires 0 <= i < |w| => w[i][j])
  }

  /** The product of matrix `w` (rows of length |f|) and vector `f`. */
  function MatVec(w: seq<seq<real>>, f: seq<real>): (r: seq<real>)
    requires IsMatrix(w, |f|)
    ensures |r| == |w| && forall i :: 0 <= i < |w| ==> r[i] == Dot(w[i], f)
  {
    seq(|w|, i requires 0 <= i < |w| => Dot(w[i], f))
  }

  /** Row vector of column sums: the sum of all rows of `w`. */
  function ColSums(w: seq<seq<real>>, n: nat): (r: seq<real>)
    requires IsMatrix(w, n)
    ensures |r| == n
  {
    if w == [] then Zeros(n) else Add(ColSums(w[..|w| - 1], n), w[|w| - 1])
  }

  lemma {:induction false} SumAdd(a: seq<real>, b: seq<real>)
    requires |a| == |b|
    ensures Sum(Add(a, b)) == Sum(a) + Sum(b)
  {
    if a != [] {
      var m := |a| - 1;
      assert Add(a, b)[..m] == Add(a[..m], b[..m]);
      SumAdd(a[..m], b[..m]);
    }
  }

  /**
   * The total of a * m + (1 - a) * y is the same combination of the
   * totals, where m has the same total as f.
   */
  lemma SumCombination(m: seq<real>, f: seq<real>, y: seq<real>, a: real)
    requires |m| == |y| && Sum(m) == Sum(f)
    ensures Sum(Add(Scale(a, m), Scale(1.0 - a, y))) == a * Sum(f) + (1.0 - a) * Sum(y)
  {
    SumAdd(Scale(a, m), Scale(1.0 - a, y));
    ScaledEqualSums(a, m, f);
    SumScale(a, f);
    SumScale(1.0 - a, y);
  }

  lemma ScaledEqualSums(c: real, m: seq<real>, f: seq<real>)
    requires Sum(m) == Sum(f)
    ensures Sum(Scale(c, m)) == Sum(Scale(c, f))
  {
    SumScale(c, m);
    SumScale(c, f);
  }

  lemma {:induction false} SumScale(c: real, a: seq<real>)
    ensures Sum(Scale(c, a)) == c * Sum(a)
  {
    if a != [] {
      var m := |a| - 1;
      var pre := Scale(c, a[..m]);
      assert |Scale(c, a)[..m]| == |pre|;
      forall i | 0 <= i < m ensures Scale(c, a)[..m][i] == pre[i] {
        assert a[..m][i] == a[i];
      }
      assert Scale(c, a)[..m] == pre;
      SumScale(c, a[..m]);
    }
  }

  /** A vector scaled by the inverse of its own total sums to 1. */
  lemma ScaledByInverseSum(v: seq<real>, d: real)
    requires d != 0.0 && Sum(v) == d
    ensures Sum(Scale(1.0 / d, v)) == 1.0
  {
    SumScale(1.0 / d, v);
    InverseTimes(Sum(Scale(1.0 / d, v)), Sum(v), d);
  }

  lemma InverseTimes(x: real, s: real, d: real)
    requires d != 0.0 && s == d && x == (1.0 / d) * s
    ensures x == 1.0
  {
  }

  lemma {:induction false} SumZeros(n: nat)
    ensures Sum(Zeros(n)) == 0.0
  {
    if n > 0 {
      assert Zeros(n)[..n - 1] == Zeros(n - 1);
      SumZeros(n - 1);
    }
  }

  lemma {:induction false} SumUnit(n: nat, k: nat)
    ensures Sum(Unit(n, k)) == if k < n then 1.0 else 0.0
  {
    if n > 0 {
      assert Unit(n, k)[..n - 1] == Unit(n - 1, k);
      SumUnit(n - 1, k);
    }
  }

  lemma {:induction false} SumNonNegative(v: seq<real>)
    requires NonNegative(v)
    ensures 0.0 <= Sum(v)
  {
    if v != [] {
      SumNonNegative(v[..|v| - 1]);
    }
  }

  lemma {:induction false} DotAddLeft(a: seq<real>, b: seq<real>, f: seq<real>)
    requires |a| == |b| == |f|
    ensures Dot(Add(a, b), f) == Dot(a, f) + Dot(b, f)
  {
    if a != [] {
      var m := |a| - 1;
      assert Add(a, b)[..m] == Add(a[..m], b[..m]);
      DotAddLeft(a[..m], b[..m], f[..m]);
    }
  }

  lemma {:induction false} DotZeros(f: seq<real>)
    ensures Dot(Zeros(|f|), f) == 0.0
  {
    if f != [] {
      var m := |f| - 1;
      assert Zeros(|f|)[..m] == Zeros(m);
      DotZeros(f[..m]);
    }
  }

  lemma {:induction false} DotOnes(f: seq<real>)
    ensures Dot(Ones(|f|), f) == Sum(f)
  {
    if f != [] {
      var m := |f| - 1;
      assert Ones(|f|)[..m] == Ones(m);
      DotOnes(f[..m]);
    }
  }

  lemma {:induction false} DotNonNegative(a: seq<real>, f: seq<real>)
    requires |a| == |f| && NonNegative(a) && NonNegative(f)
    ensures 0.0 <= Dot(a, f)
  {
    if a != [] {
      var m := |a| - 1;
      DotNonNegative(a[..m], f[..m]);
      assert 0.0 <= a[m] * f[m];
    }
  }

  /** A non-negative matrix maps a non-negative vector to a non-negative vector. */
  lemma MatVecNonNegative(w: seq<seq<real>>, f: seq<real>)
    requires IsMatrix(w, |f|) && NonNegativeMatrix(w) && NonNegative(f)
    ensures NonNegative(MatVec(w, f))
  {
    forall i | 0 <= i < |w| ensures 0.0 <= MatVec(w, f)[i] {
      DotNonNegative(w[i], f);
    }
  }

  /** Summing a matrix-vector product weighs each entry of the vector by its column's sum. */
  lemma {:induction false} SumMatVec(w: seq<seq<real>>, f: seq<real>)
    requires IsMatrix(w, |f|)
    ensures Sum(MatVec(w, f)) == Dot(ColSums(w, |f|), f)
  {
    if w == [] {
      DotZeros(f);
    } else {
      var m := |w| - 1;
      assert MatVec(w, f)[..m] == MatVec(w[..m], f);
      SumMatVec(w[..m], f);
      DotAddLeft(ColSums(w[..m], |f|), w[m], f);
    }
  }

  /** Entry j of the column-sum vector is the sum of column j. */
  lemma {:induction false} ColSumsAt(w: seq<seq<real>>, n: nat, j: nat)
    requires IsMatrix(w, n) && j < n
    ensures ColSums(w, n)[j] == Sum(Column(w, j))
  {
    if w != [] {
      var m := |w| - 1;
      assert Column(w, j)[..m] == Column(w[..m], j);
      ColSumsAt(w[..m], n, j);
    }
  }

  /** A matrix whose every column sums to 1 preserves the total of any vector it multiplies. */
  lemma ColumnStochasticPreservesSum(w: seq<seq<real>>, f: seq<real>)
    requires IsMatrix(w, |f|)
    requires forall j :: 0 <= j < |f| ==> Sum(Column(w, j)) == 1.0
    ensures Sum(MatVec(w, f)) == Sum(f)
  {
    forall j | 0 <= j < |f| ensures ColSums(w, |f|)[j] == 1.0 {
      ColSumsAt(w, |f|, j);
    }
    assert ColSums(w, |f|) == Ones(|f|);
    SumMatVec(w, f);
    DotOnes(f);
  }
}
