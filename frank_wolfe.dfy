/**
 * frank_wolfe: the conditional-gradient loop. Each iteration asks the direction solver for the
 * vertex xbar minimising grad . xbar over the feasible polytope and moves to
 * (i x + 2 xbar) / (i + 2); the loop ends at the first step shorter than tol or after maxiters
 * iterations, and the final point is cleaned up.
 */
module FrankWolfe {
  import opened Vectors
  import opened Results
  import opened LinearPrograms
  import opened Cleanup

  /** The arguments frank_wolfe keeps fixed over the run. */
  datatype Problem = Problem(
    objective: Vector -> real,
    gradient: Vector -> Vector,
    A: Matrix,
    b: Vector,
    lp: DirectionSolver)

  /** What frank_wolfe returns: the cleaned-up point and an objective value. */
  datatype Solution = Solution(x: Vector, objective: real)

  /** The averaging update of iteration i: every entry moves part of the way toward the vertex. */
  function Step(i: nat, x: Vector, xbar: Vector): (r: Vector)
    requires |x| == |xbar|
    ensures |r| == |x|
    ensures forall j {:trigger r[j]} :: 0 <= j < |x| && x[j] <= xbar[j] ==> x[j] <= r[j] <= xbar[j]
    ensures forall j {:trigger r[j]} :: 0 <= j < |x| && xbar[j] <= x[j] ==> xbar[j] <= r[j] <= x[j]
  {
    seq(|x|, j requires 0 <= j < |x| => Mean(i, x[j], xbar[j]))
  }

  /** The weighted mean (i a + 2 c) / (i + 2) of one entry; it lies between a and c. */
  function Mean(i: nat, a: real, c: real): (m: real)
    ensures a <= c ==> a <= m <= c
    ensures c <= a ==> c <= m <= a
  {
    var d := i as real + 2.0;
    var w := i as real * a + 2.0 * c;
    assert d * a + 2.0 * (c - a) == w && d * c + i as real * (a - c) == w;
    assert w / d == a + 2.0 * (c - a) / d && w / d == c + i as real * (a - c) / d;
    w / d
  }

  /** The direction solver's answer at x. */
  function Vertex(P: Problem, x: Vector): Vector
  {
    P.lp(P.A, P.b, P.gradient(x)).xbar
  }

  /** The point after k iterations, if the loop were never stopped early. */
  function Iterate(P: Problem, x0: Vector, k: nat): (x: Vector)
    requires DirectionShaped(P.lp) && |x0| == P.A.cols
    ensures |x| == |x0|
  {
    if k == 0 then x0
    else
      var x := Iterate(P, x0, k - 1);
      Step(k - 1, x, Vertex(P, x))
  }

  /** Iteration k moves the point by less than tol (||x' - x|| < tol, compared squared). */
  predicate Converged(P: Problem, x0: Vector, tol: real, k: nat)
    requires DirectionShaped(P.lp) && |x0| == P.A.cols
  {
    tol > 0.0 && SqDist(Iterate(P, x0, k + 1), Iterate(P, x0, k)) < tol * tol
  }

  /** The first iteration in [j, n) whose step is shorter than tol, or n when there is none. */
  function FirstStop(P: Problem, x0: Vector, tol: real, j: nat, n: nat): (k: nat)
    requires DirectionShaped(P.lp) && |x0| == P.A.cols && j <= n
    ensures j <= k <= n
    ensures k < n ==> Converged(P, x0, tol, k)
    ensures forall l :: j <= l < k ==> !Converged(P, x0, tol, l)
    decreases n - j
  {
    if j == n then n
    else if Converged(P, x0, tol, j) then j
    else FirstStop(P, x0, tol, j + 1, n)
  }

  /** No step before iteration k was shorter than tol. */
  ghost predicate NoStopBefore(P: Problem, x0: Vector, tol: real, k: nat)
    requires DirectionShaped(P.lp) && |x0| == P.A.cols
  {
    k == 0 || (NoStopBefore(P, x0, tol, k - 1) && !Converged(P, x0, tol, k - 1))
  }

  /**
   * The outcome of frank_wolfe. The assertion on the shapes fails first; with no iteration the
   * objective is never assigned; after a break the objective is evaluated at the new point, but
   * when the loop runs out it is the value computed at the start of the last iteration.
   */
  function FrankWolfeOf(P: Problem, x0: Vector, maxiters: int, tol: real): Result<Solution, MaxentError>
    requires DirectionShaped(P.lp)
  {
    if P.A.cols != |x0| then Failure(ShapeMismatch)
    else if maxiters <= 0 then Failure(ObjectiveUnbound)
    else
      var k := FirstStop(P, x0, tol, 0, maxiters);
      var x := if k < maxiters then Iterate(P, x0, k + 1) else Iterate(P, x0, maxiters);
      var obj := if k < maxiters then P.objective(x) else P.objective(Iterate(P, x0, maxiters - 1));
      match CleanedUp(x, tol)
      case None => Failure(NotANumber)
      case Some(v) => Success(Solution(v, obj))
  }

  method Run(P: Problem, x0: Vector, maxiters: int, tol: real) returns (r: Result<Solution, MaxentError>)
    requires DirectionShaped(P.lp)
    ensures r == FrankWolfeOf(P, x0, maxiters, tol)
  {
    if P.A.cols != |x0| {
      return Failure(ShapeMismatch);
    }
    var x, obj := Iterations(P, x0, maxiters, tol);
    var cleaned := CleanUp(x, tol);
    if obj.None? {
      return Failure(ObjectiveUnbound);
    }
    match cleaned
    case None =>
      r := Failure(NotANumber);
    case Some(v) =>
      r := Success(Solution(v, obj.value));
  }

  /** The loop of frank_wolfe: the last point, and the objective value last assigned, if any. */
  method Iterations(P: Problem, x0: Vector, maxiters: int, tol: real) returns (x: Vector, obj: Option<real>)
    requires DirectionShaped(P.lp) && |x0| == P.A.cols
    ensures maxiters <= 0 ==> x == x0 && obj == None
    ensures maxiters > 0 && FirstStop(P, x0, tol, 0, maxiters) < maxiters ==>
      var k := FirstStop(P, x0, tol, 0, maxiters);
      x == Iterate(P, x0, k + 1) && obj == Some(P.objective(x))
    ensures maxiters > 0 && FirstStop(P, x0, tol, 0, maxiters) == maxiters ==>
      x == Iterate(P, x0, maxiters) && obj == Some(P.objective(Iterate(P, x0, maxiters - 1)))
  {
    x := x0;
    obj := None;
    var i := 0;
    while i < maxiters
      invariant 0 <= i && (maxiters <= 0 ==> i == 0) && (0 < maxiters ==> i <= maxiters)
      invariant x == Iterate(P, x0, i)
      invariant NoStopBefore(P, x0, tol, i)
      invariant i == 0 ==> obj.None?
      invariant i > 0 ==> obj.Some? && obj.value == P.objective(Iterate(P, x0, i - 1))
    {
      obj := Some(P.objective(x));
      var short;
      x, short := Advance(P, x0, tol, i, x);
      if short {
        obj := Some(P.objective(x));
        FirstStopAt(P, x0, tol, maxiters, i);
        return;
      }
      i := i + 1;
    }
    if maxiters > 0 {
      FirstStopAt(P, x0, tol, maxiters, i);
    }
  }

  /** One iteration: the step towards the solver's vertex, and whether it was shorter than tol. */
  method Advance(P: Problem, x0: Vector, tol: real, i: nat, x: Vector) returns (xnew: Vector, short: bool)
    requires DirectionShaped(P.lp) && |x0| == P.A.cols
    requires x == Iterate(P, x0, i)
    ensures xnew == Iterate(P, x0, i + 1)
    ensures short == Converged(P, x0, tol, i)
  {
    var grad := P.gradient(x);
    var answer := P.lp(P.A, P.b, grad);
    // A non-optimal status is only reported; the answer is used all the same.
    xnew := Step(i, x, answer.xbar);
    var xdiff := SqDist(xnew, x);
    short := tol > 0.0 && xdiff < tol * tol;
  }

  // ---------------------------------------------------------------------------------------------
  // Properties

  /** The first update jumps straight to the solver's vertex. */
  lemma {:induction false} StepFromStart(x: Vector, xbar: Vector)
    requires |x| == |xbar|
    ensures Step(0, x, xbar) == xbar
  {
    forall j | 0 <= j < |x|
      ensures Step(0, x, xbar)[j] == xbar[j]
    {
      assert (0.0 * x[j] + 2.0 * xbar[j]) / 2.0 == xbar[j];
    }
  }

  /** The update of iteration i is the convex combination with weights i/(i+2) and 2/(i+2). */
  lemma {:induction false} StepIsBlend(i: nat, x: Vector, xbar: Vector)
    requires |x| == |xbar|
    ensures var d := i as real + 2.0;
      Step(i, x, xbar) == Blend(x, xbar, i as real / d, 2.0 / d)
  {
    var d := i as real + 2.0;
    var s, t := Step(i, x, xbar), Blend(x, xbar, i as real / d, 2.0 / d);
    forall j | 0 <= j < |x|
      ensures s[j] == t[j]
    {
      SplitQuotient(i as real, 2.0, x[j], xbar[j], d);
    }
  }

  lemma SplitQuotient(a: real, c: real, p: real, q: real, d: real)
    requires d != 0.0
    ensures (a * p + c * q) / d == (a / d) * p + (c / d) * q
  {
    assert (a / d) * p * d == a * p;
    assert (c / d) * q * d == c * q;
  }

  /**
   * Every point after the first iteration lies in the polytope the direction solver searches:
   * nonnegative, with A x within TOL of b in every row.
   */
  lemma {:induction false} IterateFeasible(P: Problem, x0: Vector, k: nat)
    requires DirectionShaped(P.lp) && |x0| == P.A.cols
    requires DirectionFeasible(P.lp, P.A, P.b)
    requires k >= 1
    ensures Feasible(P.A, P.b, Iterate(P, x0, k), SubproblemTol)
  {
    var x := Iterate(P, x0, k - 1);
    var xbar := Vertex(P, x);
    assert Feasible(P.A, P.b, xbar, SubproblemTol);
    if k > 1 {
      IterateFeasible(P, x0, k - 1);
    }
    StepFeasible(P.A, P.b, k - 1, x, xbar);
  }

  /** One update keeps a feasible point feasible; the first update lands on the vertex itself. */
  lemma StepFeasible(A: Matrix, b: Vector, i: nat, x: Vector, xbar: Vector)
    requires |x| == |xbar| && Feasible(A, b, xbar, SubproblemTol)
    requires i > 0 ==> Feasible(A, b, x, SubproblemTol)
    ensures Feasible(A, b, Step(i, x, xbar), SubproblemTol)
  {
    if i == 0 {
      StepFromStart(x, xbar);
    } else {
      StepIsBlend(i, x, xbar);
      var d := i as real + 2.0;
      WeightsSumToOne(i);
      BlendFeasible(A, b, x, xbar, i as real / d, 2.0 / d, SubproblemTol);
    }
  }

  /** If the start and every vertex sum to 1, so does every point of the run. */
  lemma {:induction false} IterateSumsToOne(P: Problem, x0: Vector, k: nat)
    requires DirectionShaped(P.lp) && |x0| == P.A.cols
    requires Sum(x0) == 1.0
    requires forall g: Vector :: Sum(P.lp(P.A, P.b, g).xbar) == 1.0
    ensures Sum(Iterate(P, x0, k)) == 1.0
  {
    if k > 0 {
      IterateSumsToOne(P, x0, k - 1);
      assert Sum(Vertex(P, Iterate(P, x0, k - 1))) == 1.0;
      NextSumsToOne(P, x0, k);
    }
  }

  /** The step from iterate k - 1 keeps a unit sum when the vertex has one. */
  lemma NextSumsToOne(P: Problem, x0: Vector, k: nat)
    requires DirectionShaped(P.lp) && |x0| == P.A.cols && k > 0
    requires Sum(Iterate(P, x0, k - 1)) == 1.0 && Sum(Vertex(P, Iterate(P, x0, k - 1))) == 1.0
    ensures Sum(Iterate(P, x0, k)) == 1.0
  {
    var x := Iterate(P, x0, k - 1);
    StepSumsToOne(k - 1, x, Vertex(P, x));
  }

  /** One update of two vectors that sum to 1 sums to 1. */
  lemma StepSumsToOne(i: nat, x: Vector, xbar: Vector)
    requires |x| == |xbar| && Sum(x) == 1.0 && Sum(xbar) == 1.0
    ensures Sum(Step(i, x, xbar)) == 1.0
  {
    var d := i as real + 2.0;
    var a, c := i as real / d, 2.0 / d;
    SumBlend(x, xbar, a, c);
    WeightsSumToOne(i);
    assert a * Sum(x) + c * Sum(xbar) == a * 1.0 + c * 1.0;
    assert Sum(Blend(x, xbar, a, c)) == 1.0;
    StepIsBlend(i, x, xbar);
  }

  /** The two weights of the update of iteration i add up to 1. */
  lemma WeightsSumToOne(i: nat)
    ensures i as real / (i as real + 2.0) + 2.0 / (i as real + 2.0) == 1.0
  {
    var d := i as real + 2.0;
    assert i as real / d + 2.0 / d == (i as real + 2.0) / d;
  }

  /**
   * The loop stops early exactly when some step within maxiters is shorter than tol, and then
   * at the first such step.
   */
  lemma StopsAtFirstShortStep(P: Problem, x0: Vector, maxiters: int, tol: real)
    requires DirectionShaped(P.lp) && |x0| == P.A.cols && maxiters > 0
    ensures var k := FirstStop(P, x0, tol, 0, maxiters);
      (k < maxiters <==> exists l :: 0 <= l < maxiters && Converged(P, x0, tol, l)) &&
      (k < maxiters ==> Converged(P, x0, tol, k)) &&
      forall l :: 0 <= l < k ==> !Converged(P, x0, tol, l)
  {
  }

  /** The first short step is the one before which no step was short. */
  lemma {:induction false} FirstStopAt(P: Problem, x0: Vector, tol: real, n: nat, k: nat)
    requires DirectionShaped(P.lp) && |x0| == P.A.cols && k <= n
    requires k < n ==> Converged(P, x0, tol, k)
    requires NoStopBefore(P, x0, tol, k)
    ensures FirstStop(P, x0, tol, 0, n) == k
  {
    NoStopBeforeMeans(P, x0, tol, k);
  }

  lemma {:induction false} NoStopBeforeMeans(P: Problem, x0: Vector, tol: real, k: nat)
    requires DirectionShaped(P.lp) && |x0| == P.A.cols
    requires NoStopBefore(P, x0, tol, k)
    ensures forall l :: 0 <= l < k ==> !Converged(P, x0, tol, l)
  {
    if k > 0 {
      NoStopBeforeMeans(P, x0, tol, k - 1);
    }
  }

  /** With tol <= 0 no step is ever short enough: the loop always runs all maxiters iterations. */
  lemma NonpositiveTolRunsOut(P: Problem, x0: Vector, maxiters: nat, tol: real)
    requires DirectionShaped(P.lp) && |x0| == P.A.cols && tol <= 0.0
    ensures FirstStop(P, x0, tol, 0, maxiters) == maxiters
  {
  }

  lemma {:induction false} IterateIgnoresStatus(P: Problem, Q: Problem, x0: Vector, k: nat)
    requires DirectionShaped(P.lp) && DirectionShaped(Q.lp) && |x0| == P.A.cols
    requires Q == P.(lp := Q.lp)
    requires forall A: Matrix, b: Vector, g: Vector :: Q.lp(A, b, g).xbar == P.lp(A, b, g).xbar
    ensures Iterate(Q, x0, k) == Iterate(P, x0, k)
  {
    if k > 0 {
      IterateIgnoresStatus(P, Q, x0, k - 1);
    }
  }

  /**
   * A non-optimal status from the direction solver changes nothing: two solvers that return the
   * same points, whatever their statuses, give the same outcome.
   */
  lemma StatusIgnored(P: Problem, Q: Problem, x0: Vector, maxiters: int, tol: real)
    requires DirectionShaped(P.lp) && DirectionShaped(Q.lp)
    requires Q == P.(lp := Q.lp)
    requires forall A: Matrix, b: Vector, g: Vector :: Q.lp(A, b, g).xbar == P.lp(A, b, g).xbar
    ensures FrankWolfeOf(Q, x0, maxiters, tol) == FrankWolfeOf(P, x0, maxiters, tol)
  {
    if P.A.cols == |x0| && maxiters > 0 {
      forall k: nat
        ensures Iterate(Q, x0, k) == Iterate(P, x0, k)
      {
        IterateIgnoresStatus(P, Q, x0, k);
      }
      FirstStopAgrees(P, Q, x0, tol, 0, maxiters);
    }
  }

  lemma {:induction false} FirstStopAgrees(P: Problem, Q: Problem, x0: Vector, tol: real, j: nat, n: nat)
    requires DirectionShaped(P.lp) && DirectionShaped(Q.lp) && |x0| == P.A.cols == Q.A.cols && j <= n
    requires forall k: nat :: Iterate(Q, x0, k) == Iterate(P, x0, k)
    ensures FirstStop(Q, x0, tol, j, n) == FirstStop(P, x0, tol, j, n)
    decreases n - j
  {
    if j < n {
      FirstStopAgrees(P, Q, x0, tol, j + 1, n);
    }
  }

  /**
   * What a successful run returns, given a solver that only answers feasible points: a
   * nonnegative vector of the start's length that sums to 1.
   */
  lemma FrankWolfeDistribution(P: Problem, x0: Vector, maxiters: int, tol: real)
    requires DirectionShaped(P.lp) && DirectionFeasible(P.lp, P.A, P.b)
    ensures FrankWolfeOf(P, x0, maxiters, tol).Success? ==>
      var s := FrankWolfeOf(P, x0, maxiters, tol).value;
      |s.x| == |x0| && Nonneg(s.x) && Sum(s.x) == 1.0
  {
    if FrankWolfeOf(P, x0, maxiters, tol).Success? {
      var k := FirstStop(P, x0, tol, 0, maxiters);
      var n := if k < maxiters then k + 1 else maxiters;
      IterateFeasible(P, x0, n);
      var x := Iterate(P, x0, n);
      CleanedUpProperties(x, tol);
      CleanedUpNonneg(x, tol);
    }
  }

  /** The three ways frank_wolfe ends without a point, and when each happens. */
  lemma FrankWolfeFailures(P: Problem, x0: Vector, maxiters: int, tol: real)
    requires DirectionShaped(P.lp)
    ensures var r := FrankWolfeOf(P, x0, maxiters, tol);
      (r == Failure(ShapeMismatch) <==> P.A.cols != |x0|) &&
      (r == Failure(ObjectiveUnbound) <==> P.A.cols == |x0| && maxiters <= 0) &&
      (r.Failure? ==> r.error in {ShapeMismatch, ObjectiveUnbound, NotANumber})
  {
  }
}
