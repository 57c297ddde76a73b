/**
 * The cleanup both initial_point and frank_wolfe apply to their final vector: entries whose
 * magnitude is below the tolerance become exactly 0, then the vector is divided by its sum.
 */
module Cleanup {
  import opened Vectors
  import opened Results

  /** x with every entry of magnitude below tol replaced by 0. */
  function Snapped(x: Vector, tol: real): Vector
  {
    seq(|x|, i requires 0 <= i < |x| => if Abs(x[i]) < tol then 0.0 else x[i])
  }

  /** v divided entry by entry by s. */
  function Scaled(v: Vector, s: real): Vector
    requires s != 0.0
  {
    seq(|v|, i requires 0 <= i < |v| => v[i] / s)
  }

  /**
   * The cleaned-up vector, or None when the snapped vector sums to 0, where NumPy's division
   * would fill the vector with NaN.
   */
  function CleanedUp(x: Vector, tol: real): (r: Option<Vector>)
    ensures r.Some? <==> Sum(Snapped(x, tol)) != 0.0
    ensures r.Some? ==> |r.value| == |x|
  {
    var v := Snapped(x, tol);
    if Sum(v) == 0.0 then None else Some(Scaled(v, Sum(v)))
  }

  /** The cleanup as the source performs it: in place on a copy, one pass per step. */
  method CleanUp(x: Vector, tol: real) returns (r: Option<Vector>)
    ensures r == CleanedUp(x, tol)
  {
    var a := new real[|x|](i requires 0 <= i < |x| => x[i]);
    ghost var snapped := Snapped(x, tol);
    var i := 0;
    while i < a.Length
      invariant 0 <= i <= a.Length
      invariant forall j :: 0 <= j < i ==> a[j] == snapped[j]
      invariant forall j :: i <= j < a.Length ==> a[j] == x[j]
    {
      if Abs(a[i]) < tol {
        a[i] := 0.0;
      }
      i := i + 1;
    }
    assert a[..] == snapped;
    var s := 0.0;
    i := 0;
    while i < a.Length
      invariant 0 <= i <= a.Length
      invariant s == Sum(a[..i])
    {
      assert a[..i + 1][..i] == a[..i];
      s := s + a[i];
      i := i + 1;
    }
    assert a[..a.Length] == snapped;
    if s == 0.0 {
      return None;
    }
    i := 0;
    while i < a.Length
      invariant 0 <= i <= a.Length
      invariant forall j :: 0 <= j < i ==> a[j] == snapped[j] / s
      invariant forall j :: i <= j < a.Length ==> a[j] == snapped[j]
    {
      a[i] := a[i] / s;
      i := i + 1;
    }
    assert a[..] == Scaled(snapped, s);
    return Some(a[..]);
  }

  /**
   * After cleanup, every entry that was below tol in magnitude is exactly 0, every other entry
   * is the original divided by the snapped sum, and the result sums to 1.
   */
  lemma {:induction false} CleanedUpProperties(x: Vector, tol: real)
    requires CleanedUp(x, tol).Some?
    ensures var r := CleanedUp(x, tol).value;
      |r| == |x| && Sum(r) == 1.0 &&
      (forall i :: 0 <= i < |x| && Abs(x[i]) < tol ==> r[i] == 0.0) &&
      (forall i :: 0 <= i < |x| && tol <= Abs(x[i]) ==> r[i] == x[i] / Sum(Snapped(x, tol)))
  {
    var v := Snapped(x, tol);
    var s := Sum(v);
    var r := Scaled(v, s);
    assert CleanedUp(x, tol).value == r;
    SumDivide(v, s);
    assert r == seq(|v|, i requires 0 <= i < |v| => v[i] / s);
    assert s / s == 1.0;
  }

  /**
   * A vector whose negative entries are all small enough to be snapped comes out nonnegative:
   * its snapped sum is then positive.
   */
  lemma {:induction false} CleanedUpNonneg(x: Vector, tol: real)
    requires forall i :: 0 <= i < |x| ==> 0.0 <= x[i] || Abs(x[i]) < tol
    requires CleanedUp(x, tol).Some?
    ensures Nonneg(CleanedUp(x, tol).value)
  {
    var v := Snapped(x, tol);
    assert Nonneg(v);
    SumNonneg(v);
    assert Sum(v) > 0.0;
  }

  /** The division is defined whenever a nonnegative vector has an entry at or above tol. */
  lemma {:induction false} CleanedUpDefined(x: Vector, tol: real, k: nat)
    requires Nonneg(x) && k < |x| && 0.0 < tol <= x[k]
    ensures CleanedUp(x, tol).Some?
  {
    var v := Snapped(x, tol);
    assert Nonneg(v) && v[k] > 0.0;
    SumPositive(v, k);
  }
}
