/**
 * marginal_maxent_dists: the maximum-entropy distributions matching the k-way marginals of a
 * distribution, for k = 0 .. k_max. Orders 0, 1 and k_max are not optimised: their answers are
 * the uniform distribution, the product of the marginals and the distribution itself.
 */
module MaxentDists {
  import opened Vectors
  import opened Results
  import opened Cleanup
  import opened LinearPrograms
  import opened ZeroIsolation
  import opened FrankWolfe
  import opened MarginalMaxent

  /** k_max, which defaults to the number of variables. */
  function KMax(kMax: Option<int>, nVariables: nat): (k: int)
    ensures kMax.None? ==> k == nVariables
    ensures kMax.Some? ==> k == kMax.value
  {
    match kMax
    case None => nVariables
    case Some(k) => k
  }

  /** The order-0 answer: [1] * N, normalised. */
  function Uniform(n: nat): (u: Vector)
    ensures |u| == n
    ensures n > 0 ==> Sum(u) == 1.0
  {
    if n == 0 then []
    else
      SumOnes(n);
      SumDivide(Ones(n), n as real);
      assert n as real / n as real == 1.0;
      Scaled(Ones(n), Sum(Ones(n)))
  }

  ghost predicate OrdersFit(orders: nat -> Marginals, n: nat)
  {
    forall k: nat :: GroupsFit(orders(k).groups, n) && WellFormed(orders(k).A) && orders(k).A.cols == n
  }

  /** The vector order k's optimisation returns, or the exception it raises. */
  function OrderResults(E: Engine, pmf: Vector, orders: nat -> Marginals): nat -> Result<Vector, MaxentError>
    requires OrdersFit(orders, |pmf|) && DirectionShaped(E.direction)
  {
    (k: nat) =>
      match MarginalMaxentOf(E, pmf, orders(k))
      case Failure(e) => Failure(e)
      case Success(s) => Success(s.x)
  }

  /** The optimised orders lo .. hi-1, in increasing order, up to the first failure. */
  function Optimised(results: nat -> Result<Vector, MaxentError>, lo: nat, hi: int): Result<seq<Vector>, MaxentError>
    decreases hi - lo
  {
    if hi <= lo then Success([])
    else
      match Optimised(results, lo, hi - 1)
      case Failure(e) => Failure(e)
      case Success(xs) =>
        match results(hi - 1)
        case Failure(e) => Failure(e)
        case Success(x) => Success(xs + [x])
  }

  /** The list marginal_maxent_dists returns, or the first exception an optimisation raises. */
  function DistsOf(n: nat, pmf: Vector, product: Vector, results: nat -> Result<Vector, MaxentError>, K: int): Result<seq<Vector>, MaxentError>
  {
    match Optimised(results, 2, K)
    case Failure(e) => Failure(e)
    case Success(xs) => Success([Uniform(n), product] + xs + [pmf])
  }

  /** Order k's optimisation, as marginal_maxent_dists calls it. */
  method SolveOrder(E: Engine, pmf: Vector, orders: nat -> Marginals, k: nat) returns (res: Result<Vector, MaxentError>)
    requires OrdersFit(orders, |pmf|) && DirectionShaped(E.direction)
    ensures res == OrderResults(E, pmf, orders)(k)
  {
    var outcome := Solve(E, pmf, orders(k));
    if outcome.Failure? {
      return Failure(outcome.error);
    }
    return Success(outcome.value.x);
  }

  /**
   * The loop over k = 0 .. k_max: orders 0, 1 and k_max are skipped, the others optimised in
   * increasing order; results(k) is what marginal_maxent returns for order k.
   */
  method OptimiseOrders(results: nat -> Result<Vector, MaxentError>, K: int)
    returns (r: Result<seq<Vector>, MaxentError>)
    ensures r == Optimised(results, 2, K)
  {
    var found := [];
    var k := 0;
    while k < K + 1
      invariant 0 <= k && (K >= 0 ==> k <= K + 1)
      invariant Optimised(results, 2, if k < K then k else K) == Success(found)
    {
      if k == 0 || k == 1 || k == K {
        assert k + 1 <= 2 ==> Optimised(results, 2, k + 1) == Success([]);
        k := k + 1;
        continue;
      }
      var res := results(k);
      if res.Failure? {
        OptimisedFailureSticks(results, 2, k + 1, K);
        return Failure(res.error);
      }
      found := found + [res.value];
      k := k + 1;
    }
    r := Success(found);
  }

  /**
   * The distributions are given by their dense pmf over the N outcomes; product is the product
   * of the marginals, and orders(k) the data of order k.
   */
  method Dists(E: Engine, pmf: Vector, product: Vector, orders: nat -> Marginals, nVariables: nat, kMax: Option<int>)
    returns (r: Result<seq<Vector>, MaxentError>)
    requires OrdersFit(orders, |pmf|) && DirectionShaped(E.direction)
    ensures r == DistsOf(|pmf|, pmf, product, OrderResults(E, pmf, orders), KMax(kMax, nVariables))
  {
    var K := KMax(kMax, nVariables);
    var k0 := Uniform(|pmf|);
    var dists := [k0, product];
    var optimised := OptimiseOrders(OrderResults(E, pmf, orders), K);
    if optimised.Failure? {
      return Failure(optimised.error);
    }
    dists := dists + optimised.value;
    dists := dists + [pmf];
    r := Success(dists);
  }

  // ---------------------------------------------------------------------------------------------
  // Properties

  /** The order-0 answer gives every one of the N outcomes mass 1/N. */
  lemma UniformIsUniform(n: nat)
    ensures |Uniform(n)| == n
    ensures forall i :: 0 <= i < n ==> Uniform(n)[i] == 1.0 / n as real
  {
    if n > 0 {
      SumOnes(n);
    }
  }

  /** The optimised orders succeed together, or the first failure is returned. */
  lemma {:induction false} OptimisedSucceeds(results: nat -> Result<Vector, MaxentError>, lo: nat, hi: int)
    ensures Optimised(results, lo, hi).Success? <==> forall k: nat :: lo <= k < hi ==> results(k).Success?
    ensures Optimised(results, lo, hi).Failure? ==>
      exists k: nat :: lo <= k < hi && results(k) == Failure(Optimised(results, lo, hi).error) &&
        forall l: nat :: lo <= l < k ==> results(l).Success?
    decreases hi - lo
  {
    if lo < hi {
      OptimisedSucceeds(results, lo, hi - 1);
    }
  }

  /** Once an order fails, the later orders are never optimised. */
  lemma {:induction false} OptimisedFailureSticks(results: nat -> Result<Vector, MaxentError>, lo: nat, mid: int, hi: int)
    requires mid <= hi && Optimised(results, lo, mid).Failure?
    ensures Optimised(results, lo, hi) == Optimised(results, lo, mid)
    decreases hi - mid
  {
    if mid < hi {
      OptimisedFailureSticks(results, lo, mid, hi - 1);
    }
  }

  /** One result per optimised order, in increasing order. */
  lemma {:induction false} OptimisedValues(results: nat -> Result<Vector, MaxentError>, lo: nat, hi: int)
    requires Optimised(results, lo, hi).Success?
    ensures var xs := Optimised(results, lo, hi).value;
      |xs| == (if hi <= lo then 0 else hi - lo) &&
      forall j :: 0 <= j < |xs| ==> results(lo + j) == Success(xs[j])
    decreases hi - lo
  {
    if lo < hi {
      OptimisedValues(results, lo, hi - 1);
    }
  }

  /**
   * The returned list is [uniform, product, the optimum for each k = 2 .. k_max - 1 in
   * increasing k, the distribution itself]: k_max + 1 entries when k_max >= 2, and 3 otherwise.
   * It is returned exactly when every one of those optimisations succeeds; otherwise the first
   * exception is.
   */
  lemma {:induction false} DistsShape(n: nat, pmf: Vector, product: Vector, results: nat -> Result<Vector, MaxentError>, K: int)
    ensures DistsOf(n, pmf, product, results, K).Success? <==>
      forall k: nat :: 2 <= k < K ==> results(k).Success?
    ensures DistsOf(n, pmf, product, results, K).Success? ==>
      var ds := DistsOf(n, pmf, product, results, K).value;
      |ds| == (if K >= 2 then K + 1 else 3) &&
      ds[0] == Uniform(n) && ds[1] == product && ds[|ds| - 1] == pmf &&
      forall k :: 2 <= k < K ==> results(k) == Success(ds[k])
    ensures DistsOf(n, pmf, product, results, K).Failure? ==>
      exists k: nat :: 2 <= k < K && results(k) == Failure(DistsOf(n, pmf, product, results, K).error)
  {
    OptimisedSucceeds(results, 2, K);
    if DistsOf(n, pmf, product, results, K).Success? {
      OptimisedValues(results, 2, K);
    }
  }
}
