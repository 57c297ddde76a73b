/** Dense real vectors and matrices, the linear algebra the engine performs with NumPy and cvxopt. */
module Vectors {

  /** A dense vector (a NumPy 1-d array or a cvxopt column matrix). */
  type Vector = seq<real>

  /** A dense matrix that records its column count, so that a matrix without rows still has a width. */
  datatype Matrix = Matrix(cols: nat, rows: seq<Vector>)

  predicate WellFormed(A: Matrix)
  {
    forall r :: 0 <= r < |A.rows| ==> |A.rows[r]| == A.cols
  }

  function Abs(a: real): real
  {
    if a < 0.0 then -a else a
  }

  function Sum(v: Vector): real
  {
    if v == [] then 0.0 else Sum(v[..|v| - 1]) + v[|v| - 1]
  }

  function Dot(u: Vector, v: Vector): real
    requires |u| == |v|
  {
    if u == [] then 0.0 else Dot(u[..|u| - 1], v[..|v| - 1]) + u[|u| - 1] * v[|v| - 1]
  }

  /** The squared Euclidean distance, so that a norm comparison needs no square root. */
  function SqDist(u: Vector, v: Vector): real
    requires |u| == |v|
  {
    if u == [] then 0.0
    else
      var d := u[|u| - 1] - v[|v| - 1];
      SqDist(u[..|u| - 1], v[..|v| - 1]) + d * d
  }

  function Zeros(n: nat): Vector
  {
    seq(n, i => 0.0)
  }

  function Ones(n: nat): Vector
  {
    seq(n, i => 1.0)
  }

  predicate Nonneg(v: Vector)
  {
    forall i :: 0 <= i < |v| ==> 0.0 <= v[i]
  }

  /** Every row of A x is within delta of the matching entry of b. */
  predicate WithinResidual(A: Matrix, b: Vector, x: Vector, delta: real)
  {
    WellFormed(A) && |x| == A.cols && |b| == |A.rows| &&
    forall r :: 0 <= r < |A.rows| ==> -delta <= Dot(A.rows[r], x) - b[r] <= delta
  }

  /** x lies in the polytope { x >= 0, -delta <= A x - b <= delta }. */
  predicate Feasible(A: Matrix, b: Vector, x: Vector, delta: real)
  {
    Nonneg(x) && WithinResidual(A, b, x, delta)
  }

  /** The pointwise combination a x + c y. */
  function Blend(x: Vector, y: Vector, a: real, c: real): Vector
    requires |x| == |y|
  {
    seq(|x|, j requires 0 <= j < |x| => a * x[j] + c * y[j])
  }

  predicate InRange(idx: seq<nat>, n: nat)
  {
    forall j :: 0 <= j < |idx| ==> idx[j] < n
  }

  predicate Distinct(idx: seq<nat>)
  {
    forall i, j :: 0 <= i < j < |idx| ==> idx[i] != idx[j]
  }

  predicate StrictlyIncreasing(s: seq<nat>)
  {
    forall i, j :: 0 <= i < j < |s| ==> s[i] < s[j]
  }

  /** The entries of v at the given indices, in their order (NumPy's v[idx]). */
  function Restrict(v: Vector, idx: seq<nat>): Vector
    requires InRange(idx, |v|)
  {
    seq(|idx|, j requires 0 <= j < |idx| => v[idx[j]])
  }

  /** The columns of A at the given indices (NumPy's A[:, idx]). */
  function RestrictColumns(A: Matrix, idx: seq<nat>): (R: Matrix)
    requires WellFormed(A) && InRange(idx, A.cols)
    ensures WellFormed(R) && R.cols == |idx| && |R.rows| == |A.rows|
    ensures forall r, j :: 0 <= r < |A.rows| && 0 <= j < |idx| ==> R.rows[r][j] == A.rows[r][idx[j]]
  {
    Matrix(|idx|, seq(|A.rows|, r requires 0 <= r < |A.rows| => Restrict(A.rows[r], idx)))
  }

  /**
   * A zero vector of length n into which x is written at the indices idx, one write after the
   * other (NumPy's v = zeros(n); v[idx] = x).
   */
  function Scatter(n: nat, idx: seq<nat>, x: Vector): (v: Vector)
    requires |x| == |idx| && InRange(idx, n)
    ensures |v| == n
  {
    if idx == [] then Zeros(n)
    else Scatter(n, idx[..|idx| - 1], x[..|x| - 1])[idx[|idx| - 1] := x[|x| - 1]]
  }

  // ---------------------------------------------------------------------------------------------
  // Sums and dot products

  lemma {:induction false} BlendPrefix(x: Vector, y: Vector, a: real, c: real, m: nat)
    requires |x| == |y| && m <= |x|
    ensures Blend(x, y, a, c)[..m] == Blend(x[..m], y[..m], a, c)
  {
    forall j | 0 <= j < m
      ensures Blend(x, y, a, c)[..m][j] == Blend(x[..m], y[..m], a, c)[j]
    {
      assert x[..m][j] == x[j] && y[..m][j] == y[j];
    }
  }

  lemma {:induction false} SumBlend(x: Vector, y: Vector, a: real, c: real)
    requires |x| == |y|
    ensures Sum(Blend(x, y, a, c)) == a * Sum(x) + c * Sum(y)
  {
    if x != [] {
      var m := |x| - 1;
      BlendPrefix(x, y, a, c, m);
      SumBlend(x[..m], y[..m], a, c);
    }
  }

  lemma {:induction false} DotBlend(row: Vector, x: Vector, y: Vector, a: real, c: real)
    requires |row| == |x| == |y|
    ensures Dot(row, Blend(x, y, a, c)) == a * Dot(row, x) + c * Dot(row, y)
  {
    if x != [] {
      var m := |x| - 1;
      BlendPrefix(x, y, a, c, m);
      DotBlend(row[..m], x[..m], y[..m], a, c);
      assert row[m] * (a * x[m] + c * y[m]) == a * (row[m] * x[m]) + c * (row[m] * y[m]);
    }
  }

  /** Dividing every entry by s divides the sum by s. */
  lemma {:induction false} SumDivide(v: Vector, s: real)
    requires s != 0.0
    ensures Sum(seq(|v|, i requires 0 <= i < |v| => v[i] / s)) == Sum(v) / s
  {
    var w := seq(|v|, i requires 0 <= i < |v| => v[i] / s);
    if v != [] {
      var m := |v| - 1;
      assert w[..m] == seq(m, i requires 0 <= i < m => v[..m][i] / s);
      SumDivide(v[..m], s);
      assert Sum(v[..m]) / s + v[m] / s == (Sum(v[..m]) + v[m]) / s;
    }
  }

  lemma {:induction false} SumNonneg(v: Vector)
    requires Nonneg(v)
    ensures Sum(v) >= 0.0
  {
    if v != [] {
      SumNonneg(v[..|v| - 1]);
    }
  }

  lemma {:induction false} SumNonpositive(v: Vector)
    requires forall i :: 0 <= i < |v| ==> v[i] <= 0.0
    ensures Sum(v) <= 0.0
  {
    if v != [] {
      SumNonpositive(v[..|v| - 1]);
    }
  }

  /** A nonnegative vector with a positive entry has a positive sum. */
  lemma {:induction false} SumPositive(v: Vector, k: nat)
    requires Nonneg(v) && k < |v| && v[k] > 0.0
    ensures Sum(v) > 0.0
  {
    var m := |v| - 1;
    if k == m {
      SumNonneg(v[..m]);
    } else {
      SumPositive(v[..m], k);
    }
  }

  /** Every entry of a nonnegative vector is at most its sum. */
  lemma {:induction false} EntryBelowSum(v: Vector, k: nat)
    requires Nonneg(v) && k < |v|
    ensures v[k] <= Sum(v)
  {
    var m := |v| - 1;
    if k == m {
      SumNonneg(v[..m]);
    } else {
      EntryBelowSum(v[..m], k);
    }
  }

  lemma {:induction false} SumOnes(n: nat)
    ensures Sum(Ones(n)) == n as real
  {
    if n > 0 {
      assert Ones(n)[..n - 1] == Ones(n - 1);
      SumOnes(n - 1);
    }
  }

  lemma {:induction false} DotOnes(v: Vector)
    ensures Dot(Ones(|v|), v) == Sum(v)
  {
    if v != [] {
      var m := |v| - 1;
      assert Ones(|v|)[..m] == Ones(m);
      DotOnes(v[..m]);
    }
  }

  lemma {:induction false} DotZeros(row: Vector)
    ensures Dot(row, Zeros(|row|)) == 0.0
  {
    if row != [] {
      var m := |row| - 1;
      assert Zeros(|row|)[..m] == Zeros(m);
      DotZeros(row[..m]);
    }
  }

  lemma {:induction false} ZerosDot(v: Vector)
    ensures Dot(Zeros(|v|), v) == 0.0
  {
    if v != [] {
      var m := |v| - 1;
      assert Zeros(|v|)[..m] == Zeros(m);
      ZerosDot(v[..m]);
    }
  }

  /** Overwriting entry k of v changes the dot product by the weighted difference. */
  lemma {:induction false} DotUpdate(row: Vector, v: Vector, k: nat, y: real)
    requires |row| == |v| && k < |v|
    ensures Dot(row, v[k := y]) == Dot(row, v) + row[k] * (y - v[k])
  {
    var m := |v| - 1;
    if k == m {
      assert v[k := y][..m] == v[..m];
    } else {
      assert v[k := y][..m] == v[..m][k := y];
      DotUpdate(row[..m], v[..m], k, y);
    }
  }

  /** The dot product only sees the entries of u and v at which the weights are nonzero. */
  lemma {:induction false} DotAgree(g: Vector, u: Vector, v: Vector)
    requires |g| == |u| == |v|
    requires forall i :: 0 <= i < |g| && g[i] != 0.0 ==> u[i] == v[i]
    ensures Dot(g, u) == Dot(g, v)
  {
    if g != [] {
      var m := |g| - 1;
      DotAgree(g[..m], u[..m], v[..m]);
    }
  }

  // ---------------------------------------------------------------------------------------------
  // Convexity

  /**
   * The product of two nonnegative reals is nonnegative; a lemma of its own so that each
   * product in Between is proved in isolation.
   */
  lemma {:induction false} MulNonneg(a: real, b: real)
    requires a >= 0.0 && b >= 0.0
    ensures a * b >= 0.0
  {
  }

  /** A convex combination of two numbers in [lo, hi] is in [lo, hi]. */
  lemma {:induction false} Between(a: real, c: real, p: real, q: real, lo: real, hi: real)
    requires a >= 0.0 && c >= 0.0 && a + c == 1.0
    requires lo <= p <= hi && lo <= q <= hi
    ensures lo <= a * p + c * q <= hi
  {
    MulNonneg(a, p - lo);
    MulNonneg(c, q - lo);
    MulNonneg(a, hi - p);
    MulNonneg(c, hi - q);
    assert a * lo + c * lo == (a + c) * lo;
    assert a * hi + c * hi == (a + c) * hi;
  }

  /** One row's value at a convex combination lies between the bounds both end points meet. */
  lemma {:induction false} RowBlend(row: Vector, x: Vector, y: Vector, a: real, c: real, lo: real, hi: real)
    requires |row| == |x| == |y|
    requires a >= 0.0 && c >= 0.0 && a + c == 1.0
    requires lo <= Dot(row, x) <= hi && lo <= Dot(row, y) <= hi
    ensures lo <= Dot(row, Blend(x, y, a, c)) <= hi
  {
    DotBlend(row, x, y, a, c);
    Between(a, c, Dot(row, x), Dot(row, y), lo, hi);
  }

  lemma {:induction false} BlendNonneg(x: Vector, y: Vector, a: real, c: real)
    requires |x| == |y| && a >= 0.0 && c >= 0.0 && Nonneg(x) && Nonneg(y)
    ensures Nonneg(Blend(x, y, a, c))
  {
    forall i | 0 <= i < |x|
      ensures 0.0 <= a * x[i] + c * y[i]
    {
      assert 0.0 <= a * x[i] && 0.0 <= c * y[i];
    }
  }

  /** The polytope { x >= 0, -delta <= A x - b <= delta } is convex. */
  lemma {:induction false} BlendFeasible(A: Matrix, b: Vector, x: Vector, y: Vector, a: real, c: real, delta: real)
    requires a >= 0.0 && c >= 0.0 && a + c == 1.0
    requires Feasible(A, b, x, delta) && Feasible(A, b, y, delta)
    ensures Feasible(A, b, Blend(x, y, a, c), delta)
  {
    BlendNonneg(x, y, a, c);
    forall r | 0 <= r < |A.rows|
      ensures -delta <= Dot(A.rows[r], Blend(x, y, a, c)) - b[r] <= delta
    {
      RowBlend(A.rows[r], x, y, a, c, b[r] - delta, b[r] + delta);
    }
  }

  // ---------------------------------------------------------------------------------------------
  // Restriction and expansion

  /** An index that is never written keeps its 0. */
  lemma {:induction false} ScatterOutside(n: nat, idx: seq<nat>, x: Vector, i: nat)
    requires |x| == |idx| && InRange(idx, n) && i < n && i !in idx
    ensures Scatter(n, idx, x)[i] == 0.0
  {
    if idx != [] {
      var m := |idx| - 1;
      assert i !in idx[..m];
      ScatterOutside(n, idx[..m], x[..m], i);
    }
  }

  /** With distinct indices, the expanded vector holds x[j] at idx[j] and 0 everywhere else. */
  lemma {:induction false} ScatterAt(n: nat, idx: seq<nat>, x: Vector)
    requires |x| == |idx| && InRange(idx, n) && Distinct(idx)
    ensures forall j :: 0 <= j < |idx| ==> Scatter(n, idx, x)[idx[j]] == x[j]
    ensures forall i :: 0 <= i < n && i !in idx ==> Scatter(n, idx, x)[i] == 0.0
  {
    forall i | 0 <= i < n && i !in idx
      ensures Scatter(n, idx, x)[i] == 0.0
    {
      ScatterOutside(n, idx, x, i);
    }
    if idx != [] {
      var m := |idx| - 1;
      var prefix, v := idx[..m], Scatter(n, idx, x);
      assert Distinct(prefix);
      ScatterAt(n, prefix, x[..m]);
      assert v == Scatter(n, prefix, x[..m])[idx[m] := x[m]];
      forall j | 0 <= j < |idx|
        ensures v[idx[j]] == x[j]
      {
        if j < m {
          assert prefix[j] == idx[j] != idx[m];
          assert x[..m][j] == x[j];
        }
      }
    }
  }

  /** Restricting the expansion back to its indices gives the reduced vector back. */
  lemma {:induction false} ScatterRoundTrip(n: nat, idx: seq<nat>, x: Vector)
    requires |x| == |idx| && InRange(idx, n) && Distinct(idx)
    ensures Restrict(Scatter(n, idx, x), idx) == x
  {
    ScatterAt(n, idx, x);
  }

  /** A full row applied to the expansion equals the restricted row applied to the reduced vector. */
  lemma {:induction false} DotScatter(row: Vector, idx: seq<nat>, x: Vector)
    requires |x| == |idx| && InRange(idx, |row|) && Distinct(idx)
    ensures Dot(row, Scatter(|row|, idx, x)) == Dot(Restrict(row, idx), x)
  {
    var n := |row|;
    if idx == [] {
      DotZeros(row);
    } else {
      var m := |idx| - 1;
      var k := idx[m];
      var s' := Scatter(n, idx[..m], x[..m]);
      assert Scatter(n, idx, x) == s'[k := x[m]];
      assert k !in idx[..m];
      ScatterOutside(n, idx[..m], x[..m], k);
      DotUpdate(row, s', k, x[m]);
      DotScatter(row, idx[..m], x[..m]);
      assert Restrict(row, idx)[..m] == Restrict(row, idx[..m]);
    }
  }

  lemma {:induction false} SumScatter(n: nat, idx: seq<nat>, x: Vector)
    requires |x| == |idx| && InRange(idx, n) && Distinct(idx)
    ensures Sum(Scatter(n, idx, x)) == Sum(x)
  {
    DotOnes(Scatter(n, idx, x));
    DotScatter(Ones(n), idx, x);
    assert Restrict(Ones(n), idx) == Ones(|x|);
    DotOnes(x);
  }

  /** A solution of the column-restricted system, expanded with zeros, solves the full system. */
  lemma {:induction false} ReducedSolutionExpands(A: Matrix, b: Vector, idx: seq<nat>, x: Vector, delta: real)
    requires WellFormed(A) && InRange(idx, A.cols) && Distinct(idx)
    requires Feasible(RestrictColumns(A, idx), b, x, delta)
    ensures Feasible(A, b, Scatter(A.cols, idx, x), delta)
  {
    var v := Scatter(A.cols, idx, x);
    ScatterAt(A.cols, idx, x);
    forall i | 0 <= i < |v|
      ensures 0.0 <= v[i]
    {
      if i in idx {
        var j :| 0 <= j < |idx| && idx[j] == i;
        assert v[i] == x[j];
      }
    }
    forall r | 0 <= r < |A.rows|
      ensures Dot(A.rows[r], v) == Dot(RestrictColumns(A, idx).rows[r], x)
    {
      DotScatter(A.rows[r], idx, x);
    }
  }
}
