/**
 * marginal_maxent: the maximum-entropy distribution matching the k-way marginals of a
 * distribution. The entries forced to 0 are removed, Frank-Wolfe minimises the negative entropy
 * over the remaining ones, and the result is written back into a full-length vector.
 */
module MarginalMaxent {
  import opened Vectors
  import opened Results
  import opened LinearPrograms
  import opened Cleanup
  import opened ZeroIsolation
  import opened FeasiblePoint
  import opened FrankWolfe

  /** 1 / ln 2, the constant term of the derivative of p log2 p. */
  const InvLn2: real := 1.4426950408889634

  /** The settings one order's computation runs with; log2 is left uninterpreted. */
  datatype Engine = Engine(
    log2: real -> real,
    interior: InteriorSolver,
    direction: DirectionSolver,
    maxiters: int,
    tol: real)

  /**
   * What the source derives from the distribution for one order k: the index groups of every
   * k-subset (parameter_array) and the marginal constraints A x = b (marginal_constraints).
   */
  datatype Marginals = Marginals(groups: Groups, A: Matrix, b: Vector)

  /** The term p log2 p of one entry; NumPy's nansum drops the NaN that p <= 0 produces. */
  function EntropyTerm(log2: real -> real, p: real): real
  {
    if p > 0.0 then p * log2(p) else 0.0
  }

  function EntropyTerms(log2: real -> real, x: Vector): Vector
  {
    seq(|x|, i requires 0 <= i < |x| => EntropyTerm(log2, x[i]))
  }

  /**
   * negentropy: the sum of p log2 p over the entries. With a logarithm that is not positive on
   * (0, 1], a vector of entries at most 1 has a negentropy of at most 0.
   */
  function NegEntropy(log2: real -> real, x: Vector): (h: real)
    ensures (forall p: real :: 0.0 < p <= 1.0 ==> log2(p) <= 0.0) ==>
      (forall i :: 0 <= i < |x| ==> x[i] <= 1.0) ==> h <= 0.0
  {
    TermsNonpositive(log2, x);
    Sum(EntropyTerms(log2, x))
  }

  lemma TermsNonpositive(log2: real -> real, x: Vector)
    ensures (forall p: real :: 0.0 < p <= 1.0 ==> log2(p) <= 0.0) ==>
      (forall i :: 0 <= i < |x| ==> x[i] <= 1.0) ==> Sum(EntropyTerms(log2, x)) <= 0.0
  {
    if (forall p: real :: 0.0 < p <= 1.0 ==> log2(p) <= 0.0) && (forall i :: 0 <= i < |x| ==> x[i] <= 1.0) {
      var terms := EntropyTerms(log2, x);
      forall i | 0 <= i < |terms|
        ensures terms[i] <= 0.0
      {
        if x[i] > 0.0 {
          assert log2(x[i]) <= 0.0;
          assert x[i] * -log2(x[i]) >= 0.0;
        }
      }
      SumNonpositive(terms);
    }
  }

  /**
   * The gradient log2(x) + 1/ln 2, with every entry at which x <= 0 set to 0, so that the
   * direction solver no longer sees those entries.
   */
  function Gradient(log2: real -> real, x: Vector): (g: Vector)
    ensures |g| == |x|
    ensures forall i :: 0 <= i < |x| && x[i] <= 0.0 ==> g[i] == 0.0
    ensures forall i :: 0 <= i < |x| && 0.0 < x[i] ==> g[i] == log2(x[i]) + InvLn2
  {
    seq(|x|, i requires 0 <= i < |x| => if x[i] <= 0.0 then 0.0 else log2(x[i]) + InvLn2)
  }

  /** The reduced problem frank_wolfe is given. */
  function MaxentProblem(E: Engine, A: Matrix, b: Vector): Problem
  {
    Problem(x => NegEntropy(E.log2, x), x => Gradient(E.log2, x), A, b, E.direction)
  }

  /** The entries that stay free: isolate_zeros's nonzero list. */
  function Nonzero(pmf: Vector, m: Marginals): seq<nat>
    requires GroupsFit(m.groups, |pmf|)
  {
    PartitionOf(ZeroMask(pmf, m.groups)).nonzero
  }

  /** A[:, nonzero]: the constraint matrix with the forced-zero columns removed. */
  function ReducedMatrix(pmf: Vector, m: Marginals): Matrix
    requires GroupsFit(m.groups, |pmf|) && WellFormed(m.A) && m.A.cols == |pmf|
  {
    PartitionOfProperties(ZeroMask(pmf, m.groups));
    RestrictColumns(m.A, Nonzero(pmf, m))
  }

  /** The outcome of marginal_maxent: the full-length point and the objective value. */
  function MarginalMaxentOf(E: Engine, pmf: Vector, m: Marginals): Result<Solution, MaxentError>
    requires GroupsFit(m.groups, |pmf|) && WellFormed(m.A) && m.A.cols == |pmf|
    requires DirectionShaped(E.direction)
  {
    var nonzero := Nonzero(pmf, m);
    var Asmall := ReducedMatrix(pmf, m);
    match InitialPointOf(E.interior, Asmall, m.b, |nonzero|)
    case Failure(e) => Failure(e)
    case Success(x0) =>
      match FrankWolfeOf(MaxentProblem(E, Asmall, m.b), x0, E.maxiters, E.tol)
      case Failure(e) => Failure(e)
      case Success(s) =>
        PartitionOfProperties(ZeroMask(pmf, m.groups));
        if |s.x| == |nonzero| then Success(Solution(Scatter(m.A.cols, nonzero, s.x), s.objective))
        else assert false; Failure(ShapeMismatch)
  }

  /** xfinal = np.zeros(n); xfinal[nonzero] = x. */
  method Expand(n: nat, nonzero: seq<nat>, x: Vector) returns (xfinal: Vector)
    requires |x| == |nonzero| && InRange(nonzero, n)
    ensures xfinal == Scatter(n, nonzero, x)
    ensures |xfinal| == n
    ensures forall i :: 0 <= i < n && i !in nonzero ==> xfinal[i] == 0.0
    ensures Distinct(nonzero) ==> Restrict(xfinal, nonzero) == x
  {
    var a := new real[n](i => 0.0);
    var j := 0;
    while j < |nonzero|
      invariant 0 <= j <= |nonzero|
      invariant a[..] == Scatter(n, nonzero[..j], x[..j])
    {
      assert nonzero[..j + 1][..j] == nonzero[..j];
      assert x[..j + 1][..j] == x[..j];
      a[nonzero[j]] := x[j];
      j := j + 1;
    }
    assert nonzero[..j] == nonzero && x[..j] == x;
    xfinal := a[..];
    forall i | 0 <= i < n && i !in nonzero
      ensures xfinal[i] == 0.0
    {
      ScatterOutside(n, nonzero, x, i);
    }
    if Distinct(nonzero) {
      ScatterRoundTrip(n, nonzero, x);
    }
  }

  method Solve(E: Engine, pmf: Vector, m: Marginals) returns (r: Result<Solution, MaxentError>)
    requires GroupsFit(m.groups, |pmf|) && WellFormed(m.A) && m.A.cols == |pmf|
    requires DirectionShaped(E.direction)
    ensures r == MarginalMaxentOf(E, pmf, m)
  {
    var _, variables := IsolateZeros(pmf, m.groups);
    PartitionOfProperties(ZeroMask(pmf, m.groups));
    var nonzero := variables.nonzero;
    var Asmall := RestrictColumns(m.A, nonzero);
    var start := InitialPoint(E.interior, Asmall, m.b, |nonzero|);
    if start.Failure? {
      return Failure(start.error);
    }
    var run := Run(MaxentProblem(E, Asmall, m.b), start.value, E.maxiters, E.tol);
    if run.Failure? {
      return Failure(run.error);
    }
    var xfinal := Expand(m.A.cols, nonzero, run.value.x);
    r := Success(Solution(xfinal, run.value.objective));
  }

  // ---------------------------------------------------------------------------------------------
  // Properties

  /**
   * The direction solver's objective grad . xbar does not depend on the entries of xbar at which
   * x <= 0, whatever values xbar takes there.
   */
  lemma FrozenEntriesIgnored(log2: real -> real, x: Vector, u: Vector, v: Vector)
    requires |u| == |v| == |x|
    requires forall i :: 0 <= i < |x| && 0.0 < x[i] ==> u[i] == v[i]
    ensures Dot(Gradient(log2, x), u) == Dot(Gradient(log2, x), v)
  {
    DotAgree(Gradient(log2, x), u, v);
  }

  /**
   * Optimising the reduced vector is optimising the full one: expanding with zeros leaves the
   * negative entropy unchanged.
   */
  lemma NegEntropyOfExpansion(log2: real -> real, n: nat, nonzero: seq<nat>, x: Vector)
    requires |x| == |nonzero| && InRange(nonzero, n) && Distinct(nonzero)
    ensures NegEntropy(log2, Scatter(n, nonzero, x)) == NegEntropy(log2, x)
  {
    var full := Scatter(n, nonzero, x);
    var terms := EntropyTerms(log2, x);
    ScatterAt(n, nonzero, x);
    ScatterAt(n, nonzero, terms);
    forall i | 0 <= i < n
      ensures EntropyTerms(log2, full)[i] == Scatter(n, nonzero, terms)[i]
    {
      if i in nonzero {
        var j :| 0 <= j < |nonzero| && nonzero[j] == i;
        assert full[i] == x[j];
      }
    }
    assert EntropyTerms(log2, full) == Scatter(n, nonzero, terms);
    SumScatter(n, nonzero, terms);
  }

  /**
   * Masking does not hold an entry at x <= 0 in place: its gradient is 0, the direction solver is
   * free in it, and a vertex above it moves it up in the next step.
   */
  lemma ZeroGradientMoves(log2: real -> real, i: nat, x: Vector, xbar: Vector, j: nat)
    requires |x| == |xbar| && j < |x| && x[j] <= 0.0 < xbar[j]
    ensures Gradient(log2, x)[j] == 0.0 && Step(i, x, xbar)[j] > x[j]
  {
    var d := i as real + 2.0;
    assert Step(i, x, xbar)[j] == (i as real * x[j] + 2.0 * xbar[j]) / d;
    assert i as real * x[j] + 2.0 * xbar[j] == d * x[j] + 2.0 * (xbar[j] - x[j]);
    assert (d * x[j] + 2.0 * (xbar[j] - x[j])) / d == x[j] + 2.0 * (xbar[j] - x[j]) / d;
  }

  /**
   * The Frank-Wolfe point before its cleanup, after at least one step and expanded with zeros,
   * matches every marginal to within the direction program's band.
   */
  lemma ExpandedIterateMatchesMarginals(E: Engine, pmf: Vector, m: Marginals, x0: Vector, k: nat)
    requires GroupsFit(m.groups, |pmf|) && WellFormed(m.A) && m.A.cols == |pmf|
    requires DirectionShaped(E.direction)
    requires DirectionFeasible(E.direction, ReducedMatrix(pmf, m), m.b)
    requires |x0| == |Nonzero(pmf, m)| && k >= 1
    ensures var P := MaxentProblem(E, ReducedMatrix(pmf, m), m.b);
      Feasible(m.A, m.b, Scatter(m.A.cols, Nonzero(pmf, m), Iterate(P, x0, k)), SubproblemTol)
  {
    var nonzero := Nonzero(pmf, m);
    var P := MaxentProblem(E, ReducedMatrix(pmf, m), m.b);
    PartitionOfProperties(ZeroMask(pmf, m.groups));
    IterateFeasible(P, x0, k);
    ReducedSolutionExpands(m.A, m.b, nonzero, Iterate(P, x0, k), SubproblemTol);
  }

  /**
   * The cleanup does not keep that match: a point inside the band whose small entry is snapped
   * by tol = 1e-3 leaves the band of the second marginal by 5e-4.
   */
  lemma CleanupLeavesBand()
    ensures var A := Matrix(3, [[1.0, 1.0, 1.0], [0.0, 1.0, 0.0]]);
      var b := [1.0, 0.0005];
      var x := [0.9985, 0.0005, 0.001];
      Feasible(A, b, x, SubproblemTol) && CleanedUp(x, 0.001).Some? &&
      !Feasible(A, b, CleanedUp(x, 0.001).value, SubproblemTol)
  {
    var A := Matrix(3, [[1.0, 1.0, 1.0], [0.0, 1.0, 0.0]]);
    var b := [1.0, 0.0005];
    var x := [0.9985, 0.0005, 0.001];
    Dot3(A.rows[0], x);
    Dot3(A.rows[1], x);
    var v := Snapped(x, 0.001);
    assert v == [0.9985, 0.0, 0.001];
    Sum3(v);
    var r := CleanedUp(x, 0.001).value;
    assert r[1] == 0.0;
    Dot3(A.rows[1], r);
  }

  lemma Dot3(u: Vector, v: Vector)
    requires |u| == |v| == 3
    ensures Dot(u, v) == u[0] * v[0] + u[1] * v[1] + u[2] * v[2]
  {
    assert u[..2][..1] == u[..1] && v[..2][..1] == v[..1];
    assert Dot(u[..1], v[..1]) == u[0] * v[0];
    assert Dot(u[..2], v[..2]) == u[0] * v[0] + u[1] * v[1];
  }

  lemma Sum3(v: Vector)
    requires |v| == 3
    ensures Sum(v) == v[0] + v[1] + v[2]
  {
    assert v[..2][..1] == v[..1];
    assert Sum(v[..1]) == v[0];
    assert Sum(v[..2]) == v[0] + v[1];
  }

  /**
   * A successful result is a probability vector over all outcomes that is 0 at every entry some
   * zero-mass marginal cell forces to 0.
   */
  lemma MarginalMaxentDistribution(E: Engine, pmf: Vector, m: Marginals)
    requires GroupsFit(m.groups, |pmf|) && WellFormed(m.A) && m.A.cols == |pmf|
    requires DirectionShaped(E.direction)
    requires DirectionFeasible(E.direction, ReducedMatrix(pmf, m), m.b)
    ensures MarginalMaxentOf(E, pmf, m).Success? ==>
      var x := MarginalMaxentOf(E, pmf, m).value.x;
      |x| == |pmf| && Nonneg(x) && Sum(x) == 1.0 &&
      forall i :: 0 <= i < |pmf| && ForcedZero(pmf, m.groups, i) ==> x[i] == 0.0
  {
    if MarginalMaxentOf(E, pmf, m).Success? {
      var nonzero := Nonzero(pmf, m);
      var Asmall := ReducedMatrix(pmf, m);
      PartitionOfProperties(ZeroMask(pmf, m.groups));
      var x0 := InitialPointOf(E.interior, Asmall, m.b, |nonzero|).value;
      var P := MaxentProblem(E, Asmall, m.b);
      FrankWolfeDistribution(P, x0, E.maxiters, E.tol);
      var s := FrankWolfeOf(P, x0, E.maxiters, E.tol).value;
      var x := Scatter(m.A.cols, nonzero, s.x);
      ScatterAt(m.A.cols, nonzero, s.x);
      SumScatter(m.A.cols, nonzero, s.x);
      forall i | 0 <= i < |x|
        ensures 0.0 <= x[i]
      {
        if i in nonzero {
          var j :| 0 <= j < |nonzero| && nonzero[j] == i;
          assert x[i] == s.x[j];
        }
      }
      forall i | 0 <= i < |pmf| && ForcedZero(pmf, m.groups, i)
        ensures x[i] == 0.0
      {
        ZeroIffForced(pmf, m.groups, i);
      }
    }
  }
}
