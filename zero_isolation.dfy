/**
 * isolate_zeros: the entries of the joint distribution that every feasible solution must leave
 * at 0, because some marginal cell they contribute to has (numerically) zero mass.
 */
module ZeroIsolation {
  import opened Vectors
  import opened Results

  /** np.isclose(p, 0) with its default tolerances: |p| <= atol + rtol * |0|, atol = 1e-8. */
  const IsCloseAtol: real := 0.00000001

  predicate IsCloseToZero(p: real)
  {
    Abs(p) <= IsCloseAtol
  }

  /**
   * For each k-subset of the variables, in the order itertools.combinations produces them,
   * the index groups of parameter_array: one group of joint-outcome indices per marginal cell.
   */
  type Groups = seq<seq<seq<nat>>>

  predicate CellsFit(cells: seq<seq<nat>>, n: nat)
  {
    forall c :: 0 <= c < |cells| ==> InRange(cells[c], n)
  }

  predicate GroupsFit(groups: Groups, n: nat)
  {
    forall s :: 0 <= s < |groups| ==> CellsFit(groups[s], n)
  }

  /** pmf[idx].sum(): the marginal probability of one cell. */
  function Mass(pmf: Vector, cell: seq<nat>): real
    requires InRange(cell, |pmf|)
  {
    Sum(Restrict(pmf, cell))
  }

  predicate ZeroCell(pmf: Vector, cell: seq<nat>)
    requires InRange(cell, |pmf|)
  {
    IsCloseToZero(Mass(pmf, cell))
  }

  /** bvec: the 0/1 indicator of the indices in one cell. */
  function Indicator(n: nat, cell: seq<nat>): seq<int>
  {
    seq(n, i => if i in cell then 1 else 0)
  }

  /** How much the cells of one subset add to zero_elements[i]. */
  function CellHits(pmf: Vector, cells: seq<seq<nat>>, i: nat): nat
    requires CellsFit(cells, |pmf|)
  {
    if cells == [] then 0
    else
      var last := cells[|cells| - 1];
      CellHits(pmf, cells[..|cells| - 1], i) + (if i in last && ZeroCell(pmf, last) then 1 else 0)
  }

  /** zero_elements[i] after every subset has been visited. */
  function Hits(pmf: Vector, groups: Groups, i: nat): nat
    requires GroupsFit(groups, |pmf|)
  {
    if groups == [] then 0
    else Hits(pmf, groups[..|groups| - 1], i) + CellHits(pmf, groups[|groups| - 1], i)
  }

  ghost predicate HitIn(pmf: Vector, cells: seq<seq<nat>>, i: nat)
    requires CellsFit(cells, |pmf|)
  {
    exists c :: 0 <= c < |cells| && i in cells[c] && ZeroCell(pmf, cells[c])
  }

  /** Index i lies in some cell, of some subset, whose mass is close to 0. */
  ghost predicate ForcedZero(pmf: Vector, groups: Groups, i: nat)
    requires GroupsFit(groups, |pmf|)
  {
    exists s :: 0 <= s < |groups| && HitIn(pmf, groups[s], i)
  }

  /** zero_elements read as booleans: entry i is forced to 0. */
  function ZeroMask(pmf: Vector, groups: Groups): (mask: seq<bool>)
    requires GroupsFit(groups, |pmf|)
    ensures |mask| == |pmf|
  {
    seq(|pmf|, i requires 0 <= i < |pmf| => Hits(pmf, groups, i) > 0)
  }

  /** The indices i with mask[i] == want, in increasing order. */
  function Select(mask: seq<bool>, want: bool): (r: seq<nat>)
    ensures InRange(r, |mask|) && StrictlyIncreasing(r)
  {
    if mask == [] then []
    else
      var m := |mask| - 1;
      Select(mask[..m], want) + (if mask[m] == want then [m] else [])
  }

  /** The Bunch(nonzero=..., zero=...) isolate_zeros returns. */
  datatype Partition = Partition(nonzero: seq<nat>, zero: seq<nat>)

  function PartitionOf(mask: seq<bool>): Partition
  {
    Partition(Select(mask, false), Select(mask, true))
  }

  /** The equality system pinning the zero entries: A x = b. */
  datatype Equalities = Equalities(A: Matrix, b: Vector)

  /** eq: the unit row of length n with its 1 at column i. */
  function UnitRow(n: nat, i: nat): Vector
  {
    seq(n, j => if j == i then 1.0 else 0.0)
  }

  function UnitRows(n: nat, zero: seq<nat>): seq<Vector>
  {
    seq(|zero|, r requires 0 <= r < |zero| => UnitRow(n, zero[r]))
  }

  /** One unit row and one 0 per zero index, or None when there is no zero index. */
  function EqualitiesOf(n: nat, zero: seq<nat>): Option<Equalities>
  {
    if zero == [] then None else Some(Equalities(Matrix(n, UnitRows(n, zero)), Zeros(|zero|)))
  }

  method IsolateZeros(pmf: Vector, groups: Groups) returns (eqs: Option<Equalities>, variables: Partition)
    requires GroupsFit(groups, |pmf|)
    ensures variables == PartitionOf(ZeroMask(pmf, groups))
    ensures eqs == EqualitiesOf(|pmf|, variables.zero)
  {
    var zeroElements := CountZeroCells(pmf, groups);
    var zero;
    eqs, zero := PinZeros(zeroElements, ZeroMask(pmf, groups));
    var nonzero := Complement(|pmf|, zero, ZeroMask(pmf, groups));
    variables := Partition(nonzero, zero);
  }

  /** The first loop: zero_elements counts, per index, the zero-mass cells that contain it. */
  method CountZeroCells(pmf: Vector, groups: Groups) returns (zeroElements: array<int>)
    requires GroupsFit(groups, |pmf|)
    ensures zeroElements.Length == |pmf|
    ensures forall i :: 0 <= i < |pmf| ==> zeroElements[i] == Hits(pmf, groups, i)
  {
    var n := |pmf|;
    zeroElements := new int[n](i => 0);
    var s := 0;
    while s < |groups|
      invariant 0 <= s <= |groups|
      invariant forall i :: 0 <= i < n ==> zeroElements[i] == Hits(pmf, groups[..s], i)
    {
      var cells := groups[s];
      var c := 0;
      while c < |cells|
        invariant 0 <= c <= |cells|
        invariant forall i :: 0 <= i < n ==>
          zeroElements[i] == Hits(pmf, groups[..s], i) + CellHits(pmf, cells[..c], i)
      {
        var idx := cells[c];
        var bvec := Indicator(n, idx);
        var p := Mass(pmf, idx);
        forall i | 0 <= i < n
          ensures CellHits(pmf, cells[..c + 1], i) ==
            CellHits(pmf, cells[..c], i) + (if IsCloseToZero(p) then bvec[i] else 0)
        {
          assert cells[..c + 1][..c] == cells[..c];
        }
        if IsCloseToZero(p) {
          forall i | 0 <= i < n {
            zeroElements[i] := zeroElements[i] + bvec[i];
          }
        }
        c := c + 1;
      }
      assert groups[..s + 1][..s] == groups[..s];
      assert cells[..c] == cells;
      s := s + 1;
    }
    assert groups[..s] == groups;
  }

  /** The second loop: one unit row, one 0 and one zero index per index with a positive count. */
  method PinZeros(zeroElements: array<int>, ghost mask: seq<bool>) returns (eqs: Option<Equalities>, zero: seq<nat>)
    requires |mask| == zeroElements.Length
    requires forall i :: 0 <= i < |mask| ==> (mask[i] <==> zeroElements[i] != 0)
    ensures zero == Select(mask, true)
    ensures eqs == EqualitiesOf(|mask|, zero)
  {
    var n := zeroElements.Length;
    var rows: seq<Vector> := [];
    var b: Vector := [];
    zero := [];
    var i := 0;
    while i < n
      invariant 0 <= i <= n
      invariant zero == Select(mask[..i], true)
      invariant rows == UnitRows(n, zero) && b == Zeros(|zero|)
    {
      assert mask[..i + 1][..i] == mask[..i];
      if zeroElements[i] != 0 {
        rows := rows + [UnitRow(n, i)];
        b := b + [0.0];
        zero := zero + [i];
      }
      i := i + 1;
    }
    assert mask[..n] == mask;
    if |rows| > 0 {
      eqs := Some(Equalities(Matrix(n, rows), b));
    } else {
      eqs := None;
    }
  }

  /** nonzero = [i for i in range(n) if i not in zeroset]. */
  method Complement(n: nat, zero: seq<nat>, ghost mask: seq<bool>) returns (nonzero: seq<nat>)
    requires |mask| == n && zero == Select(mask, true)
    ensures nonzero == Select(mask, false)
  {
    var zeroset := set j | j in zero;
    nonzero := [];
    var i := 0;
    while i < n
      invariant 0 <= i <= n
      invariant nonzero == Select(mask[..i], false)
    {
      assert mask[..i + 1][..i] == mask[..i];
      SelectMembers(mask, true, i);
      if i !in zeroset {
        nonzero := nonzero + [i];
      }
      i := i + 1;
    }
    assert mask[..n] == mask;
  }

  // ---------------------------------------------------------------------------------------------
  // Properties

  /** Select keeps exactly the indices whose mask entry is the wanted value. */
  lemma {:induction false} SelectMembers(mask: seq<bool>, want: bool, i: nat)
    ensures i in Select(mask, want) <==> i < |mask| && mask[i] == want
  {
    if mask != [] {
      var m := |mask| - 1;
      var prefix := mask[..m];
      SelectMembers(prefix, want, i);
      var last := if mask[m] == want then [m] else [];
      assert Select(mask, want) == Select(prefix, want) + last;
      assert i in Select(mask, want) <==> i in Select(prefix, want) || i in last;
      assert i < m ==> prefix[i] == mask[i];
    }
  }

  /** The two selections split the mask's indices between them. */
  lemma {:induction false} SelectCounts(mask: seq<bool>)
    ensures |Select(mask, true)| + |Select(mask, false)| == |mask|
  {
    if mask != [] {
      SelectCounts(mask[..|mask| - 1]);
    }
  }

  /**
   * zero and nonzero are strictly increasing, disjoint, and together hold exactly the indices
   * 0 .. n-1, each once.
   */
  lemma {:induction false} PartitionOfProperties(mask: seq<bool>)
    ensures var p := PartitionOf(mask);
      StrictlyIncreasing(p.zero) && StrictlyIncreasing(p.nonzero) &&
      (forall i: nat :: i < |mask| <==> i in p.zero || i in p.nonzero) &&
      (forall i: nat :: !(i in p.zero && i in p.nonzero)) &&
      |p.zero| + |p.nonzero| == |mask|
  {
    forall i: nat
      ensures (i in Select(mask, true) <==> i < |mask| && mask[i]) &&
        (i in Select(mask, false) <==> i < |mask| && !mask[i])
    {
      SelectMembers(mask, true, i);
      SelectMembers(mask, false, i);
    }
    SelectCounts(mask);
  }

  lemma {:induction false} CellHitsPositive(pmf: Vector, cells: seq<seq<nat>>, i: nat)
    requires CellsFit(cells, |pmf|)
    ensures CellHits(pmf, cells, i) > 0 <==> HitIn(pmf, cells, i)
  {
    if cells != [] {
      var m := |cells| - 1;
      var prefix := cells[..m];
      CellHitsPositive(pmf, prefix, i);
      if HitIn(pmf, prefix, i) {
        var c :| 0 <= c < m && i in prefix[c] && ZeroCell(pmf, prefix[c]);
        assert cells[c] == prefix[c];
      }
      if HitIn(pmf, cells, i) && !(i in cells[m] && ZeroCell(pmf, cells[m])) {
        var c :| 0 <= c < |cells| && i in cells[c] && ZeroCell(pmf, cells[c]);
        assert prefix[c] == cells[c];
      }
    }
  }

  /** A positive count in zero_elements means exactly: some zero-mass cell contains the index. */
  lemma {:induction false} HitsPositive(pmf: Vector, groups: Groups, i: nat)
    requires GroupsFit(groups, |pmf|)
    ensures Hits(pmf, groups, i) > 0 <==> ForcedZero(pmf, groups, i)
  {
    if groups != [] {
      var m := |groups| - 1;
      var prefix := groups[..m];
      HitsPositive(pmf, prefix, i);
      CellHitsPositive(pmf, groups[m], i);
      if ForcedZero(pmf, prefix, i) {
        var s :| 0 <= s < m && HitIn(pmf, prefix[s], i);
        assert groups[s] == prefix[s];
      }
      if ForcedZero(pmf, groups, i) && !HitIn(pmf, groups[m], i) {
        var s :| 0 <= s < |groups| && HitIn(pmf, groups[s], i);
        assert prefix[s] == groups[s];
      }
    }
  }

  /** An index is in zero iff some subset has a zero-mass cell containing it. */
  lemma ZeroIffForced(pmf: Vector, groups: Groups, i: nat)
    requires GroupsFit(groups, |pmf|)
    ensures i in PartitionOf(ZeroMask(pmf, groups)).zero <==> i < |pmf| && ForcedZero(pmf, groups, i)
  {
    SelectMembers(ZeroMask(pmf, groups), true, i);
    HitsPositive(pmf, groups, i);
  }

  lemma {:induction false} DotUnitRow(n: nat, i: nat, x: Vector)
    requires i < n == |x|
    ensures Dot(UnitRow(n, i), x) == x[i]
  {
    var m := n - 1;
    assert UnitRow(n, i)[..m] == seq(m, j => if j == i then 1.0 else 0.0);
    if i < m {
      assert UnitRow(n, i)[..m] == UnitRow(m, i);
      DotUnitRow(m, i, x[..m]);
    } else {
      assert UnitRow(n, i)[..m] == Zeros(m);
      ZerosDot(x[..m]);
    }
  }

  /**
   * The returned system is exactly the statement "x vanishes at every zero index": a vector of
   * the right length solves it without residual iff its zero entries are 0.
   */
  lemma EqualitiesPinZeros(n: nat, zero: seq<nat>, x: Vector)
    requires zero != [] && InRange(zero, n) && |x| == n
    ensures var e := EqualitiesOf(n, zero).value;
      WithinResidual(e.A, e.b, x, 0.0) <==> forall r :: 0 <= r < |zero| ==> x[zero[r]] == 0.0
  {
    forall r | 0 <= r < |zero|
      ensures Dot(UnitRows(n, zero)[r], x) == x[zero[r]]
    {
      DotUnitRow(n, zero[r], x);
    }
  }

  /**
   * Why the zero entries may be fixed: on a nonnegative vector, a cell whose mass is close to 0
   * has every entry within the same tolerance of 0, and a cell of mass exactly 0 has every
   * entry 0.
   */
  lemma CloseMassBoundsEntries(x: Vector, cell: seq<nat>)
    requires Nonneg(x) && InRange(cell, |x|)
    ensures ZeroCell(x, cell) ==> forall j :: 0 <= j < |cell| ==> x[cell[j]] <= IsCloseAtol
    ensures Mass(x, cell) == 0.0 ==> forall j :: 0 <= j < |cell| ==> x[cell[j]] == 0.0
  {
    var v := Restrict(x, cell);
    forall j | 0 <= j < |cell|
      ensures x[cell[j]] <= Mass(x, cell)
    {
      EntryBelowSum(v, j);
    }
  }
}
