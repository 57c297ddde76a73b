/** Option and Result, and the ways one maximum-entropy computation ends without a distribution. */
module Results {

  datatype Option<+T> = None | Some(value: T)

  datatype Result<+R, +E> = Success(value: R) | Failure(error: E)

  /** The exceptions raised by the Frank-Wolfe engine, plus the one NaN outcome it can produce. */
  datatype MaxentError =
    | NotReduced              // initial_point: A is not the reduced constraint matrix
    | InfeasibleInitialPoint  // initial_point: the interior-point program is not solved to optimality
    | ShapeMismatch           // frank_wolfe: A does not have one column per entry of the initial point
    | ObjectiveUnbound        // frank_wolfe with maxiters = 0: the objective value is returned unassigned
    | NotANumber              // a cleanup whose snapped vector sums to 0 divides by 0
}
