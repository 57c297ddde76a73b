/**
 * The two linear programs the engine hands to cvxopt, as oracles: the solver is a function
 * parameter, and what a correct solver guarantees is a predicate that lemmas may assume.
 */
module LinearPrograms {
  import opened Vectors

  /** cvxopt's status string: 'optimal' or anything else. */
  datatype Status = Optimal | NotOptimal(reason: string)

  /** The answer to the direction-finding program of one Frank-Wolfe iteration. */
  datatype Direction = Direction(status: Status, xbar: Vector)

  /** The answer to the interior-point program: the point x and its smallest entry bound t. */
  datatype Interior = Interior(status: Status, x: Vector, t: real)

  /** Minimize grad . xbar over { xbar >= 0, -TOL <= A xbar - b <= TOL }, given (A, b, grad). */
  type DirectionSolver = (Matrix, Vector, Vector) -> Direction

  /** Maximize t over { -tol <= A x - b <= tol, x >= t }, given (A, b). */
  type InteriorSolver = (Matrix, Vector) -> Interior

  /** TOL, the residual band of the direction-finding program. */
  const SubproblemTol: real := 0.0000001

  /** tol, the residual band of the interior-point program (and the snapping threshold after it). */
  const InteriorTol: real := 0.00000001

  /**
   * An assumption about the solver, not a fact the engine checks: every answer, optimal or not,
   * carries a vertex with one entry per column of A.
   */
  ghost predicate DirectionShaped(lp: DirectionSolver)
  {
    forall A: Matrix, b: Vector, g: Vector :: |lp(A, b, g).xbar| == A.cols
  }

  /** The direction solver only returns points of its feasible set. */
  ghost predicate DirectionFeasible(lp: DirectionSolver, A: Matrix, b: Vector)
  {
    forall g: Vector :: Feasible(A, b, lp(A, b, g).xbar, SubproblemTol)
  }

  /** An optimal answer of the interior-point solver satisfies its constraints. */
  predicate InteriorSound(ip: InteriorSolver, A: Matrix, b: Vector)
  {
    var answer := ip(A, b);
    answer.status == Optimal ==>
      WithinResidual(A, b, answer.x, InteriorTol) &&
      forall i :: 0 <= i < |answer.x| ==> answer.t <= answer.x[i]
  }
}
