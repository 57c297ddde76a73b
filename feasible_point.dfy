/** initial_point: a strictly interior starting point for Frank-Wolfe on the reduced problem. */
module FeasiblePoint {
  import opened Vectors
  import opened Results
  import opened LinearPrograms
  import opened Cleanup

  /**
   * initial_point when it is handed the reduced system (A, b): A must have one column per
   * nonzero entry, the interior-point program must be solved to optimality, and its point is
   * cleaned up with the same tolerance the program used.
   */
  function InitialPointOf(ip: InteriorSolver, A: Matrix, b: Vector, nonzeroCount: nat): Result<Vector, MaxentError>
  {
    if A.cols != nonzeroCount then Failure(NotReduced)
    else
      var answer := ip(A, b);
      if !answer.status.Optimal? then Failure(InfeasibleInitialPoint)
      else
        match CleanedUp(answer.x, InteriorTol)
        case None => Failure(NotANumber)
        case Some(x) => Success(x)
  }

  method InitialPoint(ip: InteriorSolver, A: Matrix, b: Vector, nonzeroCount: nat) returns (r: Result<Vector, MaxentError>)
    ensures r == InitialPointOf(ip, A, b, nonzeroCount)
  {
    if A.cols != nonzeroCount {
      return Failure(NotReduced);
    }
    var answer := ip(A, b);
    if !answer.status.Optimal? {
      return Failure(InfeasibleInitialPoint);
    }
    var cleaned := CleanUp(answer.x, InteriorTol);
    match cleaned
    case None =>
      r := Failure(NotANumber);
    case Some(x) =>
      r := Success(x);
  }

  /**
   * When the solver's bound t is above -tol, no entry survives the snapping negative, so the
   * starting point is a probability vector over the nonzero entries.
   */
  lemma InitialPointDistribution(ip: InteriorSolver, A: Matrix, b: Vector, nonzeroCount: nat)
    requires InteriorSound(ip, A, b)
    requires ip(A, b).t > -InteriorTol
    requires InitialPointOf(ip, A, b, nonzeroCount).Success?
    ensures var x := InitialPointOf(ip, A, b, nonzeroCount).value;
      |x| == nonzeroCount && Nonneg(x) && Sum(x) == 1.0
  {
    var answer := ip(A, b);
    CleanedUpProperties(answer.x, InteriorTol);
    CleanedUpNonneg(answer.x, InteriorTol);
  }

  /**
   * When the solver certifies t >= tol on a nonempty reduced problem, the starting point is
   * defined and strictly positive in every entry: a point of the interior.
   */
  lemma InitialPointInterior(ip: InteriorSolver, A: Matrix, b: Vector, nonzeroCount: nat)
    requires InteriorSound(ip, A, b)
    requires A.cols == nonzeroCount > 0 && ip(A, b).status == Optimal && ip(A, b).t >= InteriorTol
    ensures InitialPointOf(ip, A, b, nonzeroCount).Success?
    ensures var x := InitialPointOf(ip, A, b, nonzeroCount).value;
      |x| == nonzeroCount && Sum(x) == 1.0 && forall i :: 0 <= i < |x| ==> x[i] > 0.0
  {
    var answer := ip(A, b);
    CleanedUpDefined(answer.x, InteriorTol, 0);
    CleanedUpProperties(answer.x, InteriorTol);
    CleanedUpNonneg(answer.x, InteriorTol);
    var s := Sum(Snapped(answer.x, InteriorTol));
    SumNonneg(Snapped(answer.x, InteriorTol));
    assert s > 0.0;
    var x := CleanedUp(answer.x, InteriorTol).value;
    forall i | 0 <= i < |x|
      ensures x[i] > 0.0
    {
      assert answer.x[i] >= answer.t >= InteriorTol;
      assert InteriorTol <= Abs(answer.x[i]);
      assert x[i] == answer.x[i] / s;
      assert answer.x[i] / s > 0.0;
    }
  }
}
