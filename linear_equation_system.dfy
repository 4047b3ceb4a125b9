/**
 * The linear equation system of the force model: Gaussian elimination with
 * partial pivoting and four-decimal rounding, rank detection against
 * column-relative zero thresholds, reduction to the non-zero rows and back
 * substitution with a non-negativity test on the solution.
 *
 * The functions of this module state what each step computes on matrices
 * as values; the class LinearEquationSystem performs the same steps in place
 * on the caller's arrays and is proved to agree with them.
 */
module LinearEquationSystems {
  import opened Numerics
  import opened Wrappers

  type Matrix = seq<seq<real>>

  /** Share of the largest magnitude below which a value counts as zero. */
  const ROUNDING_ERROR_EPSILON: real := 0.01

  datatype Solubility = UniqueSolution | InfiniteSolutions | NoSolution

  predicate IsMatrix(M: Matrix, rows: nat, cols: nat) {
    |M| == rows && forall r :: 0 <= r < rows ==> |M[r]| == cols
  }

  /** The constructor's size check: as many equations as right-hand sides, at least one, and 1 <= unknowns <= equations. */
  predicate WellSized(rows: nat, cols: nat, rhsLength: nat) {
    rows == rhsLength && rhsLength != 0 && 1 <= cols <= rows
  }

  function MaxAbs(s: seq<real>): (r: real)
    requires |s| > 0
    ensures forall k :: 0 <= k < |s| ==> Abs(s[k]) <= r
    ensures exists k :: 0 <= k < |s| && r == Abs(s[k])
    decreases |s|
  {
    if |s| == 1 then Abs(s[0])
    else
      var t := MaxAbs(s[1..]);
      assert forall k :: 1 <= k < |s| ==> s[k] == s[1..][k - 1];
      if Abs(s[0]) >= t then Abs(s[0]) else t
  }

  function Column(M: Matrix, c: nat): (col: seq<real>)
    requires forall r :: 0 <= r < |M| ==> c < |M[r]|
    ensures |col| == |M| && forall r :: 0 <= r < |M| ==> col[r] == M[r][c]
  {
    seq(|M|, r requires 0 <= r < |M| => M[r][c])
  }

  /** Per-column zero thresholds: one hundredth of the column's largest magnitude. */
  function Thresholds(M: Matrix, cols: nat): (t: seq<real>)
    requires |M| > 0 && IsMatrix(M, |M|, cols)
  {
    seq(cols, c requires 0 <= c < cols => ColumnThreshold(M, c))
  }

  function ColumnThreshold(M: Matrix, c: nat): real
    requires |M| > 0 && HasColumn(M, c)
  {
    ToleranceOf(Column(M, c))
  }

  /** The zero threshold derived from a vector: one hundredth of its largest magnitude. */
  function ToleranceOf(v: seq<real>): real
    requires |v| > 0
  {
    MaxAbs(v) * ROUNDING_ERROR_EPSILON
  }

  /** A value is non-zero when it is not exactly 0 and its magnitude exceeds the threshold's. */
  predicate NonZero(v: real, threshold: real) {
    v != 0.0 && Abs(v) > Abs(threshold)
  }

  predicate HasColumn(M: Matrix, col: nat) {
    forall r :: 0 <= r < |M| ==> col < |M[r]|
  }

  /** The pivot search from row j on, best being the row holding the largest magnitude so far. */
  function PivotScan(M: Matrix, col: nat, j: nat, best: nat): (p: nat)
    requires HasColumn(M, col) && best < |M|
    ensures p < |M| && (p == best || j <= p)
    decreases |M| - j
  {
    if j >= |M| then best
    else PivotScan(M, col, j + 1, if Abs(M[j][col]) > Abs(M[best][col]) then j else best)
  }

  /** The pivot row of column col: searched from row col downwards. */
  function PivotRow(M: Matrix, col: nat): (p: nat)
    requires HasColumn(M, col) && col < |M|
    ensures col <= p < |M|
  {
    PivotScan(M, col, col + 1, col)
  }

  lemma {:induction false} PivotScanIsFirstLargest(M: Matrix, col: nat, lo: nat, j: nat, best: nat)
    requires HasColumn(M, col) && lo <= best < j <= |M|
    requires forall r :: lo <= r < j ==> Abs(M[r][col]) <= Abs(M[best][col])
    requires forall r :: lo <= r < best ==> Abs(M[r][col]) < Abs(M[best][col])
    ensures var p := PivotScan(M, col, j, best);
      lo <= p < |M| &&
      (forall r :: lo <= r < |M| ==> Abs(M[r][col]) <= Abs(M[p][col])) &&
      (forall r :: lo <= r < p ==> Abs(M[r][col]) < Abs(M[p][col]))
    decreases |M| - j
  {
    if j < |M| {
      var next := if Abs(M[j][col]) > Abs(M[best][col]) then j else best;
      PivotScanIsFirstLargest(M, col, lo, j + 1, next);
    }
  }

  /** The pivot is the first row at or below the diagonal holding the column's largest magnitude. */
  lemma PivotRowIsFirstLargest(M: Matrix, col: nat)
    requires HasColumn(M, col) && col < |M|
    ensures var p := PivotRow(M, col);
      col <= p < |M| &&
      (forall r :: col <= r < |M| ==> Abs(M[r][col]) <= Abs(M[p][col])) &&
      (forall r :: col <= r < p ==> Abs(M[r][col]) < Abs(M[p][col]))
  {
    PivotScanIsFirstLargest(M, col, col, col + 1, col);
  }

  /** No entry from row startRow and column startCol on is non-zero. */
  predicate RestIsZero(M: Matrix, thr: seq<real>, startRow: nat, startCol: nat)
    requires forall r :: 0 <= r < |M| ==> |M[r]| <= |thr|
  {
    forall r, c :: startRow <= r < |M| && startCol <= c < |M[r]| ==> !NonZero(M[r][c], thr[c])
  }

  /** Some right-hand side from row k on is non-zero. */
  predicate RhsNonZeroFrom(b: seq<real>, rthr: real, k: nat) {
    exists j :: k <= j < |b| && NonZero(b[j], rthr)
  }

  function SwapRows<T>(s: seq<T>, i: nat, j: nat): (r: seq<T>)
    requires i < |s| && j < |s|
    ensures |r| == |s| && r[i] == s[j] && r[j] == s[i]
    ensures forall k :: 0 <= k < |s| && k != i && k != j ==> r[k] == s[k]
  {
    if i == j then s else s[i := s[j]][j := s[i]]
  }

  /** Row minus factor times the pivot row, from column i on, rounded to four decimals. */
  function EliminatedRow(pivot: seq<real>, row: seq<real>, i: nat, factor: real): (r: seq<real>)
    requires |pivot| == |row|
    ensures |r| == |row|
  {
    seq(|row|, k requires 0 <= k < |row| => EliminatedEntry(pivot, row, i, factor, k))
  }

  function EliminatedEntry(pivot: seq<real>, row: seq<real>, i: nat, factor: real, k: nat): real
    requires |pivot| == |row| && k < |row|
  {
    if k < i then row[k] else Round4(row[k] - Times(pivot[k], factor))
  }

  /** Factor of row j against pivot row i in column i. */
  function RowFactor(M: Matrix, i: nat, j: nat): real
    requires i < |M| && j < |M| && i < |M[i]| && i < |M[j]| && M[i][i] != 0.0
  {
    M[j][i] / M[i][i]
  }

  /**
   * Elimination of column i below the pivot row i; rows whose factor is 0
   * stay as they are. The pivot row and the rows above it are kept, the
   * columns left of i are kept, and column i is exactly 0 below the pivot.
   */
  function EliminateLhs(M: Matrix, i: nat, cols: nat): (R: Matrix)
    requires IsMatrix(M, |M|, cols) && i < |M| && i < cols && M[i][i] != 0.0
    ensures IsMatrix(R, |M|, cols)
    ensures forall j :: 0 <= j <= i ==> R[j] == M[j]
    ensures forall j, k :: i < j < |M| && 0 <= k < i ==> R[j][k] == M[j][k]
    ensures forall j :: i < j < |M| ==> R[j][i] == 0.0
  {
    var R := seq(|M|, j requires 0 <= j < |M| => EliminatedLhsRow(M, i, j, cols));
    forall j | i < j < |M|
      ensures R[j][i] == 0.0
    {
      EliminatedPivotColumnIsZero(M, i, j, cols);
    }
    R
  }

  /** Below the pivot, the entry of column i is cancelled exactly: factor times pivot is the entry itself, and 0 rounds to 0. */
  lemma EliminatedPivotColumnIsZero(M: Matrix, i: nat, j: nat, cols: nat)
    requires IsMatrix(M, |M|, cols) && i < j < |M| && i < cols && M[i][i] != 0.0
    ensures EliminatedLhsRow(M, i, j, cols)[i] == 0.0
  {
    var f := RowFactor(M, i, j);
    if f == 0.0 {
      assert M[j][i] == f * M[i][i];
    } else {
      assert Times(M[i][i], f) == M[j][i];
      assert MathRound(0.0 * 10000.0) == 0;
      assert EliminatedEntry(M[i], M[j], i, f, i) == Round4(0.0);
    }
  }

  function EliminatedLhsRow(M: Matrix, i: nat, j: nat, cols: nat): (row: seq<real>)
    requires IsMatrix(M, |M|, cols) && i < |M| && j < |M| && i < cols && M[i][i] != 0.0
    ensures |row| == cols
  {
    if j <= i || RowFactor(M, i, j) == 0.0 then M[j]
    else EliminatedRow(M[i], M[j], i, RowFactor(M, i, j))
  }

  function EliminateRhs(M: Matrix, b: seq<real>, i: nat, cols: nat): (r: seq<real>)
    requires IsMatrix(M, |b|, cols) && i < |b| && i < cols && M[i][i] != 0.0
    ensures |r| == |b|
  {
    seq(|b|, j requires 0 <= j < |b| => EliminatedRhsEntry(M, b, i, j, cols))
  }

  function EliminatedRhsEntry(M: Matrix, b: seq<real>, i: nat, j: nat, cols: nat): real
    requires IsMatrix(M, |b|, cols) && i < |b| && j < |b| && i < cols && M[i][i] != 0.0
  {
    if j <= i || RowFactor(M, i, j) == 0.0 then b[j]
    else Round4(b[j] - Times(b[i], RowFactor(M, i, j)))
  }

  /** The system after elimination, with the ranks of the coefficient and of the augmented matrix. */
  datatype Echelon = Echelon(lhs: Matrix, rhs: seq<real>, rankCoefficient: int, rankAugmented: int)

  predicate Shaped(M: Matrix, b: seq<real>, thr: seq<real>) {
    IsMatrix(M, |b|, |thr|) && |thr| <= |b|
  }

  /**
   * Elimination from column i on. A column whose pivot is zero is skipped
   * when some entry from the pivot row and that column on is non-zero;
   * otherwise elimination stops with rank i. After the last column the rank
   * is the number of columns.
   */
  function EchelonFrom(M: Matrix, b: seq<real>, thr: seq<real>, rthr: real, i: nat): (e: Echelon)
    requires Shaped(M, b, thr) && i <= |thr|
    ensures Shaped(e.lhs, e.rhs, thr) && |e.rhs| == |b|
    decreases |thr| - i
  {
    var m := |thr|;
    if i == m then
      Echelon(M, b, m, if RhsNonZeroFrom(b, rthr, m) then m + 1 else m)
    else
      var p := PivotRow(M, i);
      if !NonZero(M[p][i], thr[i]) then
        if !RestIsZero(M, thr, p, i) then EchelonFrom(M, b, thr, rthr, i + 1)
        else Echelon(M, b, i, if RhsNonZeroFrom(b, rthr, i) then i + 1 else i)
      else
        var M1 := SwapRows(M, i, p);
        var b1 := SwapRows(b, i, p);
        EchelonFrom(EliminateLhs(M1, i, m), EliminateRhs(M1, b1, i, m), thr, rthr, i + 1)
  }

  /** The ranks: the augmented rank is the coefficient rank or one more, and neither exceeds the columns (+1). */
  lemma {:induction false} EchelonRanks(M: Matrix, b: seq<real>, thr: seq<real>, rthr: real, i: nat)
    requires Shaped(M, b, thr) && i <= |thr|
    ensures var e := EchelonFrom(M, b, thr, rthr, i);
      i <= e.rankCoefficient <= |thr| &&
      (e.rankAugmented == e.rankCoefficient || e.rankAugmented == e.rankCoefficient + 1)
    decreases |thr| - i
  {
    var m := |thr|;
    if i < m {
      var p := PivotRow(M, i);
      if !NonZero(M[p][i], thr[i]) {
        if !RestIsZero(M, thr, p, i) {
          EchelonRanks(M, b, thr, rthr, i + 1);
        }
      } else {
        var M1 := SwapRows(M, i, p);
        var b1 := SwapRows(b, i, p);
        EchelonRanks(EliminateLhs(M1, i, m), EliminateRhs(M1, b1, i, m), thr, rthr, i + 1);
      }
    }
  }

  /** The augmented rank exceeds the coefficient rank exactly when a right-hand side from that row on is non-zero. */
  lemma {:induction false} EchelonInconsistency(M: Matrix, b: seq<real>, thr: seq<real>, rthr: real, i: nat)
    requires Shaped(M, b, thr) && i <= |thr|
    ensures var e := EchelonFrom(M, b, thr, rthr, i);
      e.rankCoefficient >= 0 &&
      (e.rankAugmented == e.rankCoefficient + 1 <==> RhsNonZeroFrom(e.rhs, rthr, e.rankCoefficient as nat))
    decreases |thr| - i
  {
    var m := |thr|;
    if i < m {
      var p := PivotRow(M, i);
      if !NonZero(M[p][i], thr[i]) {
        if !RestIsZero(M, thr, p, i) {
          EchelonInconsistency(M, b, thr, rthr, i + 1);
        }
      } else {
        var M1 := SwapRows(M, i, p);
        var b1 := SwapRows(b, i, p);
        EchelonInconsistency(EliminateLhs(M1, i, m), EliminateRhs(M1, b1, i, m), thr, rthr, i + 1);
      }
    }
  }

  /**
   * Column c is in echelon form: either its diagonal entry is non-zero and
   * every entry below it is exactly 0 (the column was eliminated), or no
   * entry from the diagonal down is non-zero (the column was skipped).
   */
  predicate EchelonColumn(M: Matrix, thr: seq<real>, c: nat)
    requires c < |M| && c < |thr| && HasColumn(M, c)
  {
    (NonZero(M[c][c], thr[c]) && forall r :: c < r < |M| ==> M[r][c] == 0.0) ||
    (forall r :: c <= r < |M| ==> !NonZero(M[r][c], thr[c]))
  }

  /** Every column before i is in echelon form. */
  predicate EchelonBefore(M: Matrix, thr: seq<real>, i: nat)
    requires i <= |thr| && i <= |M| && forall r :: 0 <= r < |M| ==> |M[r]| == |thr|
  {
    forall c :: 0 <= c < i ==> EchelonColumn(M, thr, c)
  }

  /** A skipped column, whose largest entry from row i down is not non-zero, is in echelon form as it stands. */
  lemma SkipKeepsEchelon(M: Matrix, thr: seq<real>, i: nat)
    requires IsMatrix(M, |M|, |thr|) && i < |M| && i < |thr|
    requires EchelonBefore(M, thr, i)
    requires !NonZero(M[PivotRow(M, i)][i], thr[i])
    ensures EchelonBefore(M, thr, i + 1)
  {
    PivotRowIsFirstLargest(M, i);
    assert EchelonColumn(M, thr, i);
  }

  /** Swapping row i with a pivot row below it and eliminating column i keeps the earlier columns in echelon form and puts column i in it. */
  lemma EliminationStepKeepsEchelon(M: Matrix, thr: seq<real>, i: nat, p: nat)
    requires IsMatrix(M, |M|, |thr|) && i <= p < |M| && i < |thr|
    requires EchelonBefore(M, thr, i)
    requires NonZero(M[p][i], thr[i])
    ensures var M2 := EliminateLhs(SwapRows(M, i, p), i, |thr|);
      EchelonBefore(M2, thr, i + 1)
  {
    var m := |thr|;
    var M1 := SwapRows(M, i, p);
    var M2 := EliminateLhs(M1, i, m);
    forall c | 0 <= c < i
      ensures EchelonColumn(M2, thr, c)
    {
      assert EchelonColumn(M, thr, c);
      assert forall r :: 0 <= r < |M| ==> M2[r][c] == M1[r][c];
      assert M2[c][c] == M[c][c];
      assert forall r :: c < r < |M| ==> M1[r][c] == M[if r == i then p else if r == p then i else r][c];
    }
    assert EchelonColumn(M2, thr, i);
  }

  /**
   * Elimination leaves every column before the coefficient rank in echelon
   * form: an eliminated column is exactly 0 below its non-zero diagonal
   * entry, and a skipped one holds nothing non-zero from the diagonal down.
   */
  lemma {:induction false} EchelonFormFrom(M: Matrix, b: seq<real>, thr: seq<real>, rthr: real, i: nat)
    requires Shaped(M, b, thr) && i <= |thr|
    requires EchelonBefore(M, thr, i)
    ensures var e := EchelonFrom(M, b, thr, rthr, i);
      0 <= e.rankCoefficient <= |thr| && EchelonBefore(e.lhs, thr, e.rankCoefficient)
    decreases |thr| - i
  {
    if i == |thr| {
      StopStep(M, b, thr, rthr, i);
    } else if !NonZero(M[PivotRow(M, i)][i], thr[i]) {
      if !RestIsZero(M, thr, PivotRow(M, i), i) {
        SkipKeepsEchelon(M, thr, i);
        EchelonFormFrom(M, b, thr, rthr, i + 1);
        SkipStep(M, b, thr, rthr, i);
      } else {
        StopStep(M, b, thr, rthr, i);
      }
    } else {
      var p := PivotRow(M, i);
      var M1 := SwapRows(M, i, p);
      var b1 := SwapRows(b, i, p);
      EliminationStepKeepsEchelon(M, thr, i, p);
      EchelonFormFrom(EliminateLhs(M1, i, |thr|), EliminateRhs(M1, b1, i, |thr|), thr, rthr, i + 1);
      EliminationStep(M, b, thr, rthr, i);
    }
  }

  /** Elimination stops with the system as it stands and rank i, after the last column or when nothing non-zero is left. */
  lemma StopStep(M: Matrix, b: seq<real>, thr: seq<real>, rthr: real, i: nat)
    requires Shaped(M, b, thr) && i <= |thr|
    requires i < |thr| ==> !NonZero(M[PivotRow(M, i)][i], thr[i]) && RestIsZero(M, thr, PivotRow(M, i), i)
    ensures EchelonFrom(M, b, thr, rthr, i).lhs == M && EchelonFrom(M, b, thr, rthr, i).rankCoefficient == i
  {
  }

  /** A column that is skipped leaves the system to the next column. */
  lemma SkipStep(M: Matrix, b: seq<real>, thr: seq<real>, rthr: real, i: nat)
    requires Shaped(M, b, thr) && i < |thr|
    requires !NonZero(M[PivotRow(M, i)][i], thr[i]) && !RestIsZero(M, thr, PivotRow(M, i), i)
    ensures EchelonFrom(M, b, thr, rthr, i) == EchelonFrom(M, b, thr, rthr, i + 1)
  {
  }

  /** A column with a non-zero pivot hands the swapped and eliminated system to the next column. */
  lemma EliminationStep(M: Matrix, b: seq<real>, thr: seq<real>, rthr: real, i: nat)
    requires Shaped(M, b, thr) && i < |thr|
    requires NonZero(M[PivotRow(M, i)][i], thr[i])
    ensures var p := PivotRow(M, i); var M1 := SwapRows(M, i, p);
      EchelonFrom(M, b, thr, rthr, i) ==
      EchelonFrom(EliminateLhs(M1, i, |thr|), EliminateRhs(M1, SwapRows(b, i, p), i, |thr|), thr, rthr, i + 1)
  {
  }

  /** The eliminated system of Solve is in echelon form up to the coefficient rank. */
  lemma EchelonForm(M: Matrix, b: seq<real>, thr: seq<real>, rthr: real)
    requires Shaped(M, b, thr)
    ensures var e := EchelonFrom(M, b, thr, rthr, 0);
      0 <= e.rankCoefficient <= |thr| && EchelonBefore(e.lhs, thr, e.rankCoefficient)
  {
    EchelonFormFrom(M, b, thr, rthr, 0);
  }

  /**
   * A column whose pivot is zero while a later column is not is skipped, and
   * the coefficient rank is still reported as the number of columns: the
   * matrix [[0, 1], [0, 1], [0, 0], [0, 0]] has rank 1 but is classified as
   * having rank 2, with a zero on the diagonal.
   */
  lemma SkippedColumnStillCountsTowardsRank()
    ensures var M := [[0.0, 1.0], [0.0, 1.0], [0.0, 0.0], [0.0, 0.0]];
      var e := EchelonFrom(M, [0.0, 0.0, 0.0, 0.0], [0.0, 0.01], 0.0, 0);
      e.rankCoefficient == 2 && e.rankAugmented == 2 && e.lhs[0][0] == 0.0
  {
    SkippedColumnFirstStep();
    SkippedColumnSecondStep();
  }

  lemma SkippedColumnFirstStep()
    ensures var M := [[0.0, 1.0], [0.0, 1.0], [0.0, 0.0], [0.0, 0.0]];
      var b := [0.0, 0.0, 0.0, 0.0];
      EchelonFrom(M, b, [0.0, 0.01], 0.0, 0) == EchelonFrom(M, b, [0.0, 0.01], 0.0, 1)
  {
    var M := [[0.0, 1.0], [0.0, 1.0], [0.0, 0.0], [0.0, 0.0]];
    var thr := [0.0, 0.01];
    assert PivotScan(M, 0, 4, 0) == 0;
    assert PivotScan(M, 0, 3, 0) == 0;
    assert PivotScan(M, 0, 2, 0) == 0;
    assert PivotRow(M, 0) == 0;
    assert !NonZero(M[0][0], thr[0]);
    assert NonZero(M[0][1], thr[1]);
    assert !RestIsZero(M, thr, 0, 0);
  }

  lemma SkippedColumnSecondStep()
    ensures var M := [[0.0, 1.0], [0.0, 1.0], [0.0, 0.0], [0.0, 0.0]];
      var b := [0.0, 0.0, 0.0, 0.0];
      EchelonFrom(M, b, [0.0, 0.01], 0.0, 1) == Echelon(M, b, 2, 2)
  {
    var M := [[0.0, 1.0], [0.0, 1.0], [0.0, 0.0], [0.0, 0.0]];
    var b := [0.0, 0.0, 0.0, 0.0];
    var thr := [0.0, 0.01];
    assert PivotScan(M, 1, 4, 1) == 1;
    assert PivotScan(M, 1, 3, 1) == 1;
    assert PivotScan(M, 1, 2, 1) == 1;
    assert PivotRow(M, 1) == 1;
    assert NonZero(M[1][1], thr[1]);
    assert SwapRows(M, 1, 1) == M && SwapRows(b, 1, 1) == b;
    assert RowFactor(M, 1, 2) == 0.0 && RowFactor(M, 1, 3) == 0.0;
    assert EliminateLhs(M, 1, 2) == M;
    assert EliminateRhs(M, b, 1, 2) == b;
    assert !RhsNonZeroFrom(b, 0.0, 2);
  }

  /** Σ row[k] * sol[k] over lo <= k < hi, accumulated from the left. */
  function PartialDot(row: seq<real>, sol: seq<real>, lo: nat, hi: nat): real
    requires hi <= |row| && hi <= |sol|
    decreases hi
  {
    if hi <= lo then 0.0 else PartialDot(row, sol, lo, hi - 1) + Times(row[hi - 1], sol[hi - 1])
  }

  /** The unknown of row j of an upper-triangular system, once the unknowns of the rows below are known. */
  function Unknown(L: Matrix, b: seq<real>, j: nat): real
    requires IsMatrix(L, |b|, |b|) && j < |b|
    decreases |b| - j, 1
  {
    QuotientRound4(b[j] - KnownTerms(L, b, j, |b|), L[j][j])
  }

  /** Σ L[j][k] * Unknown(k) over j < k < hi: the part of row j already known. */
  function KnownTerms(L: Matrix, b: seq<real>, j: nat, hi: nat): real
    requires IsMatrix(L, |b|, |b|) && j < |b| && hi <= |b|
    decreases |b| - j, 0, hi
  {
    if hi <= j + 1 then 0.0 else KnownTerms(L, b, j, hi - 1) + Times(L[j][hi - 1], Unknown(L, b, hi - 1))
  }

  /** The solution of an upper-triangular system by back substitution, each unknown rounded to four decimals. */
  function BackSubstitution(L: Matrix, b: seq<real>): (sol: seq<real>)
    requires IsMatrix(L, |b|, |b|)
    ensures |sol| == |b|
  {
    seq(|b|, j requires 0 <= j < |b| => Unknown(L, b, j))
  }

  lemma {:induction false} KnownTermsAreDot(L: Matrix, b: seq<real>, j: nat, hi: nat)
    requires IsMatrix(L, |b|, |b|) && j < |b| && hi <= |b|
    ensures KnownTerms(L, b, j, hi) == PartialDot(L[j], BackSubstitution(L, b), j + 1, hi)
    decreases hi
  {
    if hi > j + 1 {
      KnownTermsAreDot(L, b, j, hi - 1);
    }
  }

  /**
   * Every row of the triangular system holds for the solution: the unknown
   * of row j is the row's right-hand side minus the terms of the unknowns
   * after it, divided by the diagonal entry and rounded to four decimals.
   */
  lemma BackSubstitutionSolvesRows(L: Matrix, b: seq<real>, j: nat)
    requires IsMatrix(L, |b|, |b|) && j < |b|
    ensures BackSubstitution(L, b)[j] ==
      QuotientRound4(b[j] - PartialDot(L[j], BackSubstitution(L, b), j + 1, |b|), L[j][j])
  {
    KnownTermsAreDot(L, b, j, |b|);
  }

  lemma ScaledError(d: real, x: real, q: real, eps: real)
    requires Abs(x - q) <= eps
    ensures Abs(d * x - d * q) <= Abs(d) * eps
  {
    assert d * x - d * q == d * (x - q);
    if d >= 0.0 {
      if x >= q { assert d * (x - q) <= d * eps; } else { assert d * (q - x) <= d * eps; }
    } else {
      if x >= q { assert -d * (x - q) <= -d * eps; } else { assert -d * (q - x) <= -d * eps; }
    }
  }

  /** The quotient num / d exists and is small enough for its four-decimal rounding to stay within long. */
  predicate RoundableQuotient(num: real, d: real) {
    d != 0.0 && -1.0e14 <= num / d <= 1.0e14
  }

  /** A rounded quotient times its divisor lies within half a unit of the fourth decimal (scaled) of the dividend. */
  lemma QuotientResidual(d: real, num: real, x: real)
    requires RoundableQuotient(num, d) && x == QuotientRound4(num, d)
    ensures Abs(Times(d, x) - num) <= Abs(d) * 0.00005
  {
    var q := num / d;
    assert x == Round4(q);
    Round4IsClose(q);
    ScaledError(d, x, q, 0.00005);
    assert d * q == num;
  }

  /**
   * Up to the four-decimal rounding, each unknown whose diagonal entry is not
   * zero satisfies its row: L[j][j] * x_j + Σ L[j][k] * x_k (k > j) lies within
   * |L[j][j]| * 0.00005 of b[j].
   */
  lemma BackSubstitutionResidual(L: Matrix, b: seq<real>, j: nat)
    requires IsMatrix(L, |b|, |b|) && j < |b|
    requires RoundableQuotient(b[j] - KnownTerms(L, b, j, |b|), L[j][j])
    ensures Abs(Times(L[j][j], Unknown(L, b, j)) - (b[j] - KnownTerms(L, b, j, |b|))) <= Abs(L[j][j]) * 0.00005
  {
    QuotientResidual(L[j][j], b[j] - KnownTerms(L, b, j, |b|), Unknown(L, b, j));
  }

  predicate AllNonNegative(s: seq<real>) {
    forall k :: 0 <= k < |s| ==> s[k] >= 0.0
  }

  /** What solving leaves behind: the eliminated system, the verdict and the reduced system and solution it computed. */
  datatype Outcome = Outcome(
    echelon: Echelon,
    solubility: Solubility,
    lhsReduced: Option<Matrix>,
    rhsReduced: Option<seq<real>>,
    solution: Option<seq<real>>)

  /**
   * Solving as far as possible: a unique solution when both ranks equal the
   * number of unknowns and the back-substituted solution has no negative
   * entry; infinitely many when the ranks agree below that; none otherwise.
   * The reduced system keeps the first rank-many rows.
   */
  function Solve(M: Matrix, b: seq<real>, thr: seq<real>, rthr: real): (o: Outcome)
    requires Shaped(M, b, thr)
  {
    var e := EchelonFrom(M, b, thr, rthr, 0);
    EchelonRanks(M, b, thr, rthr, 0);
    var m := |thr|;
    var rank := e.rankCoefficient;
    if e.rankAugmented == rank && rank == m then
      var L := e.lhs[..rank];
      var r := e.rhs[..rank];
      var sol := BackSubstitution(L, r);
      Outcome(e, if AllNonNegative(sol) then UniqueSolution else NoSolution, Some(L), Some(r), Some(sol))
    else if e.rankAugmented == rank then
      Outcome(e, InfiniteSolutions, Some(e.lhs[..rank]), Some(e.rhs[..rank]), None)
    else
      Outcome(e, NoSolution, None, None, None)
  }

  /** The three verdicts in terms of the ranks and the solution. */
  lemma SolubilityCases(M: Matrix, b: seq<real>, thr: seq<real>, rthr: real)
    requires Shaped(M, b, thr)
    ensures var o := Solve(M, b, thr, rthr); var e := o.echelon;
      (o.solubility == UniqueSolution <==>
        e.rankCoefficient == e.rankAugmented == |thr| && o.solution.Some? && AllNonNegative(o.solution.value)) &&
      (o.solubility == InfiniteSolutions <==> e.rankCoefficient == e.rankAugmented < |thr|) &&
      (o.solubility == NoSolution <==>
        e.rankAugmented == e.rankCoefficient + 1 ||
        (e.rankCoefficient == e.rankAugmented == |thr| && o.solution.Some? && !AllNonNegative(o.solution.value)))
  {
    EchelonRanks(M, b, thr, rthr, 0);
  }

  /**
   * A unique solution has one entry per unknown, none negative, and follows
   * the back-substitution recurrence on every row of the reduced system.
   */
  lemma UniqueSolutionSolvesReducedSystem(M: Matrix, b: seq<real>, thr: seq<real>, rthr: real, j: nat)
    requires Shaped(M, b, thr)
    requires Solve(M, b, thr, rthr).solubility == UniqueSolution
    requires j < |thr|
    ensures var o := Solve(M, b, thr, rthr);
      o.solution.Some? && o.lhsReduced.Some? && o.rhsReduced.Some? &&
      |o.solution.value| == |thr| && AllNonNegative(o.solution.value) &&
      IsMatrix(o.lhsReduced.value, |thr|, |thr|) && |o.rhsReduced.value| == |thr| &&
      o.solution.value[j] == QuotientRound4(
        o.rhsReduced.value[j] - PartialDot(o.lhsReduced.value[j], o.solution.value, j + 1, |thr|),
        o.lhsReduced.value[j][j])
  {
    EchelonRanks(M, b, thr, rthr, 0);
    var o := Solve(M, b, thr, rthr);
    BackSubstitutionSolvesRows(o.lhsReduced.value, o.rhsReduced.value, j);
  }

  /** A dot product splits at any column between its bounds. */
  lemma {:induction false} PartialDotSplit(row: seq<real>, sol: seq<real>, lo: nat, mid: nat, hi: nat)
    requires lo <= mid <= hi <= |row| && hi <= |sol|
    ensures PartialDot(row, sol, lo, hi) == PartialDot(row, sol, lo, mid) + PartialDot(row, sol, mid, hi)
    decreases hi
  {
    if hi > mid {
      PartialDotSplit(row, sol, lo, mid, hi - 1);
    }
  }

  /** Columns whose entries are all 0 contribute nothing to a dot product. */
  lemma {:induction false} PartialDotOfZeros(row: seq<real>, sol: seq<real>, lo: nat, hi: nat)
    requires hi <= |row| && hi <= |sol|
    requires forall k :: lo <= k < hi ==> row[k] == 0.0
    ensures PartialDot(row, sol, lo, hi) == 0.0
    decreases hi
  {
    if hi > lo {
      PartialDotOfZeros(row, sol, lo, hi - 1);
    }
  }

  /** Row j holds up to the four-decimal rounding: Σ row[k] * sol[k] over k < n lies within |row[j]| * 0.00005 of rhs. */
  predicate RowHoldsUpToRounding(row: seq<real>, sol: seq<real>, rhs: real, j: nat, n: nat)
    requires j < n <= |row| && n <= |sol|
  {
    Abs(PartialDot(row, sol, 0, n) - rhs) <= Abs(row[j]) * 0.00005
  }

  /**
   * A row that is 0 left of column j, and an unknown j that follows the
   * back-substitution recurrence: the full row lies within |row[j]| * 0.00005
   * of its right-hand side.
   */
  lemma RowResidualOfRecurrence(row: seq<real>, sol: seq<real>, rhs: real, j: nat, n: nat)
    requires j < n <= |row| && n <= |sol|
    requires forall k :: 0 <= k < j ==> row[k] == 0.0
    requires RoundableQuotient(rhs - PartialDot(row, sol, j + 1, n), row[j])
    requires sol[j] == QuotientRound4(rhs - PartialDot(row, sol, j + 1, n), row[j])
    ensures RowHoldsUpToRounding(row, sol, rhs, j, n)
  {
    DotFromDiagonal(row, sol, j, n);
    QuotientResidual(row[j], rhs - PartialDot(row, sol, j + 1, n), sol[j]);
    ResidualOfParts(row[j], Times(row[j], sol[j]), PartialDot(row, sol, j + 1, n), rhs, PartialDot(row, sol, 0, n));
  }

  /** A row that is 0 left of column j has the dot product of its diagonal term and the terms after it. */
  lemma DotFromDiagonal(row: seq<real>, sol: seq<real>, j: nat, n: nat)
    requires j < n <= |row| && n <= |sol|
    requires forall k :: 0 <= k < j ==> row[k] == 0.0
    ensures PartialDot(row, sol, 0, n) == Times(row[j], sol[j]) + PartialDot(row, sol, j + 1, n)
  {
    PartialDotSplit(row, sol, 0, j, n);
    PartialDotSplit(row, sol, j, j + 1, n);
    PartialDotOfZeros(row, sol, 0, j);
  }

  lemma ResidualOfParts(d: real, term: real, known: real, rhs: real, dot: real)
    requires dot == term + known
    requires Abs(term - (rhs - known)) <= Abs(d) * 0.00005
    ensures Abs(dot - rhs) <= Abs(d) * 0.00005
  {
  }

  /** When no column was skipped, every row of the reduced system of a unique solution is 0 left of its diagonal. */
  lemma ReducedRowIsTriangular(M: Matrix, b: seq<real>, thr: seq<real>, rthr: real, j: nat)
    requires Shaped(M, b, thr)
    requires Solve(M, b, thr, rthr).solubility == UniqueSolution
    requires j < |thr|
    requires forall c :: 0 <= c < |thr| ==> NonZero(EchelonFrom(M, b, thr, rthr, 0).lhs[c][c], thr[c])
    ensures var o := Solve(M, b, thr, rthr);
      o.lhsReduced.Some? && IsMatrix(o.lhsReduced.value, |thr|, |thr|) &&
      forall k :: 0 <= k < j ==> o.lhsReduced.value[j][k] == 0.0
  {
    EchelonRanks(M, b, thr, rthr, 0);
    EchelonForm(M, b, thr, rthr);
    var e := EchelonFrom(M, b, thr, rthr, 0);
    assert Solve(M, b, thr, rthr).lhsReduced == Some(e.lhs[..|thr|]);
    forall k | 0 <= k < j
      ensures e.lhs[j][k] == 0.0
    {
      assert EchelonColumn(e.lhs, thr, k);
    }
  }

  /** Infinitely many solutions leave a reduced system of rank-many rows, fewer than the unknowns, and no solution. */
  lemma InfiniteSolutionsLeaveReducedSystem(M: Matrix, b: seq<real>, thr: seq<real>, rthr: real)
    requires Shaped(M, b, thr)
    requires Solve(M, b, thr, rthr).solubility == InfiniteSolutions
    ensures var o := Solve(M, b, thr, rthr);
      o.lhsReduced.Some? && o.rhsReduced.Some? && o.solution.None? &&
      |o.rhsReduced.value| == o.echelon.rankCoefficient < |thr| &&
      IsMatrix(o.lhsReduced.value, |o.rhsReduced.value|, |thr|)
  {
    EchelonRanks(M, b, thr, rthr, 0);
  }

  /** The rows of a two-dimensional array, as a matrix value. */
  function Rows(a: array2<real>): (M: Matrix)
    reads a
    ensures IsMatrix(M, a.Length0, a.Length1)
    ensures forall r, c :: 0 <= r < a.Length0 && 0 <= c < a.Length1 ==> M[r][c] == a[r, c]
  {
    seq(a.Length0, r requires 0 <= r < a.Length0 reads a =>
      seq(a.Length1, c requires 0 <= c < a.Length1 reads a => a[r, c]))
  }

  lemma RowsAre(a: array2<real>, M: Matrix)
    requires IsMatrix(M, a.Length0, a.Length1)
    requires forall r, c :: 0 <= r < a.Length0 && 0 <= c < a.Length1 ==> a[r, c] == M[r][c]
    ensures Rows(a) == M
  {
    var R := Rows(a);
    forall r | 0 <= r < a.Length0 ensures R[r] == M[r] {
      assert forall c :: 0 <= c < a.Length1 ==> R[r][c] == M[r][c];
    }
  }

  class LinearEquationSystem {
    const lhs: array2<real>
    const rhs: array<real>
    const rhsThreshold: real
    const lhsThresholds: seq<real>
    var lhsReduced: array2?<real>
    var rhsReduced: array?<real>
    var solution: array?<real>
    var rankCoefficient: int
    var rankAugmented: int

    ghost predicate Valid()
      reads this
    {
      WellSized(lhs.Length0, lhs.Length1, rhs.Length) && |lhsThresholds| == lhs.Length1
    }

    /** The system as values: coefficients, right-hand sides and the thresholds fixed at construction. */
    ghost function System(): (Matrix, seq<real>)
      reads this, lhs, rhs
    {
      (Rows(lhs), rhs[..])
    }

    constructor (lhs: array2<real>, rhs: array<real>)
      requires WellSized(lhs.Length0, lhs.Length1, rhs.Length)
      ensures Valid() && this.lhs == lhs && this.rhs == rhs
      ensures rhsThreshold == ToleranceOf(rhs[..])
      ensures lhsThresholds == Thresholds(Rows(lhs), lhs.Length1)
      ensures lhsReduced == null && rhsReduced == null && solution == null
      ensures rankCoefficient == -1 && rankAugmented == -1
    {
      this.lhs := lhs;
      this.rhs := rhs;
      rhsThreshold := ToleranceOf(rhs[..]);
      var t := ColumnThresholds(lhs);
      lhsThresholds := t;
      lhsReduced, rhsReduced, solution := null, null, null;
      rankCoefficient, rankAugmented := -1, -1;
    }

    /** The constructor with its size check: a badly sized system is an IllegalArgumentException. */
    static method Create(lhs: array2<real>, rhs: array<real>) returns (r: Result<LinearEquationSystem>)
      ensures r.Success? <==> WellSized(lhs.Length0, lhs.Length1, rhs.Length)
      ensures r.Failure? ==> r.error == IllegalArgument
      ensures r.Success? ==> fresh(r.value) && r.value.Valid() && r.value.lhs == lhs && r.value.rhs == rhs
      ensures r.Success? ==> r.value.rhsThreshold == ToleranceOf(rhs[..])
      ensures r.Success? ==> r.value.lhsThresholds == Thresholds(Rows(lhs), lhs.Length1)
      ensures r.Success? ==> r.value.lhsReduced == null && r.value.rhsReduced == null && r.value.solution == null
      ensures r.Success? ==> r.value.rankCoefficient == -1 && r.value.rankAugmented == -1
    {
      if !WellSized(lhs.Length0, lhs.Length1, rhs.Length) {
        return Failure(IllegalArgument);
      }
      var les := new LinearEquationSystem(lhs, rhs);
      return Success(les);
    }

    /** Column-wise zero thresholds of a matrix. */
    static method ColumnThresholds(a: array2<real>) returns (t: seq<real>)
      requires a.Length0 > 0
      ensures t == Thresholds(Rows(a), a.Length1)
    {
      var M := Rows(a);
      t := [];
      var c := 0;
      while c < a.Length1
        invariant 0 <= c <= a.Length1
        invariant |t| == c
        invariant forall k :: 0 <= k < c ==> t[k] == ColumnThreshold(M, k)
      {
        t := t + [ColumnThreshold(M, c)];
        c := c + 1;
      }
    }

    /** The first row at or below the diagonal holding the column's largest magnitude. */
    method FindPivotRow(col: nat) returns (p: nat)
      requires Valid() && col < lhs.Length1
      ensures p == PivotRow(Rows(lhs), col)
    {
      ghost var M := Rows(lhs);
      p := col;
      var j := col + 1;
      while j < lhs.Length0
        invariant col + 1 <= j <= lhs.Length0 || j == col + 1
        invariant col <= p < lhs.Length0
        invariant PivotScan(M, col, j, p) == PivotRow(M, col)
        decreases lhs.Length0 - j
      {
        if Abs(lhs[j, col]) > Abs(lhs[p, col]) {
          p := j;
        }
        j := j + 1;
      }
    }

    predicate NonZeroInLhs(row: nat, col: nat)
      requires Valid() && row < lhs.Length0 && col < lhs.Length1
      reads this, lhs
    {
      NonZero(lhs[row, col], lhsThresholds[col])
    }

    predicate NonZeroInRhs(row: nat)
      requires row < rhs.Length
      reads this, rhs
    {
      NonZero(rhs[row], rhsThreshold)
    }

    method RestOfLhsIsZero(startRow: nat, startCol: nat) returns (zero: bool)
      requires Valid()
      ensures zero == RestIsZero(Rows(lhs), lhsThresholds, startRow, startCol)
    {
      ghost var M := Rows(lhs);
      var row := startRow;
      while row < lhs.Length0
        invariant forall r, c :: startRow <= r < row && r < lhs.Length0 && startCol <= c < lhs.Length1 ==>
          !NonZero(M[r][c], lhsThresholds[c])
        decreases lhs.Length0 - row
      {
        var col := startCol;
        while col < lhs.Length1
          invariant forall r, c :: startRow <= r < row && r < lhs.Length0 && startCol <= c < lhs.Length1 ==>
            !NonZero(M[r][c], lhsThresholds[c])
          invariant forall c :: startCol <= c < col && c < lhs.Length1 ==> !NonZero(M[row][c], lhsThresholds[c])
          decreases lhs.Length1 - col
        {
          if NonZeroInLhs(row, col) {
            return false;
          }
          col := col + 1;
        }
        row := row + 1;
      }
      return true;
    }

    method RhsNonZeroFromRow(k: nat) returns (found: bool)
      ensures found == RhsNonZeroFrom(rhs[..], rhsThreshold, k)
    {
      var j := k;
      while j < rhs.Length
        invariant forall i :: k <= i < j && i < rhs.Length ==> !NonZero(rhs[i], rhsThreshold)
        decreases rhs.Length - j
      {
        if NonZeroInRhs(j) {
          assert rhs[..][j] == rhs[j];
          return true;
        }
        j := j + 1;
      }
      return false;
    }

    method SwapLhsRows(i: nat, j: nat)
      requires Valid() && i < lhs.Length0 && j < lhs.Length0
      modifies lhs
      ensures Rows(lhs) == SwapRows(old(Rows(lhs)), i, j)
    {
      if i == j {
        return;
      }
      ghost var M := Rows(lhs);
      var col := 0;
      while col < lhs.Length1
        invariant 0 <= col <= lhs.Length1
        invariant forall r, c :: 0 <= r < lhs.Length0 && 0 <= c < lhs.Length1 ==>
          lhs[r, c] == (if c < col then SwapRows(M, i, j)[r][c] else M[r][c])
      {
        lhs[i, col], lhs[j, col] := lhs[j, col], lhs[i, col];
        col := col + 1;
      }
      RowsAre(lhs, SwapRows(M, i, j));
    }

    method SwapRhsRows(i: nat, j: nat)
      requires i < rhs.Length && j < rhs.Length
      modifies rhs
      ensures rhs[..] == SwapRows(old(rhs[..]), i, j)
    {
      if i == j {
        return;
      }
      rhs[i], rhs[j] := rhs[j], rhs[i];
    }

    /** Row j minus factor times the pivot row i, from column i on, rounded to four decimals (the loop over k). */
    method SubtractPivotRow(i: nat, j: nat, factor: real, ghost pivot: seq<real>, ghost row: seq<real>)
      requires Valid() && i < lhs.Length1 && i < j < lhs.Length0
      requires |pivot| == |row| == lhs.Length1
      requires forall c :: 0 <= c < lhs.Length1 ==> lhs[i, c] == pivot[c] && lhs[j, c] == row[c]
      modifies lhs
      ensures forall r, c :: 0 <= r < lhs.Length0 && 0 <= c < lhs.Length1 ==>
        lhs[r, c] == if r == j then EliminatedEntry(pivot, row, i, factor, c) else old(lhs[r, c])
    {
      var k := lhs.Length1 - 1;
      while k >= i
        invariant i - 1 <= k <= lhs.Length1 - 1
        invariant forall r, c :: 0 <= r < lhs.Length0 && 0 <= c < lhs.Length1 ==>
          lhs[r, c] == if r == j && k < c then EliminatedEntry(pivot, row, i, factor, c) else old(lhs[r, c])
        decreases k
      {
        assert lhs[j, k] == row[k] && lhs[i, k] == pivot[k];
        lhs[j, k] := Round4(lhs[j, k] - Times(lhs[i, k], factor));
        assert lhs[j, k] == EliminatedEntry(pivot, row, i, factor, k);
        k := k - 1;
      }
    }

    /** Eliminates column i below the pivot row i, in both sides of the system. */
    method EliminateBelow(i: nat)
      requires Valid() && i < lhs.Length1 && lhs[i, i] != 0.0
      modifies lhs, rhs
      ensures Rows(lhs) == EliminateLhs(old(Rows(lhs)), i, lhs.Length1)
      ensures rhs[..] == EliminateRhs(old(Rows(lhs)), old(rhs[..]), i, lhs.Length1)
    {
      ghost var M := Rows(lhs);
      ghost var b := rhs[..];
      var n := rhs.Length;
      var m := lhs.Length1;
      ghost var R := EliminateLhs(M, i, m);
      ghost var rb := EliminateRhs(M, b, i, m);
      var j := i + 1;
      while j < n
        invariant i + 1 <= j <= n
        invariant forall r, c :: 0 <= r < n && 0 <= c < m ==> lhs[r, c] == (if r < j then R[r][c] else M[r][c])
        invariant forall r :: 0 <= r < n ==> rhs[r] == (if r < j then rb[r] else b[r])
      {
        assert R[i] == M[i] && rb[i] == b[i];
        var rowFactor := lhs[j, i] / lhs[i, i];
        assert rowFactor == RowFactor(M, i, j);
        if rowFactor != 0.0 {
          assert R[j] == EliminatedRow(M[i], M[j], i, rowFactor);
          SubtractPivotRow(i, j, rowFactor, M[i], M[j]);
          assert rhs[j] == b[j] && rhs[i] == b[i];
          rhs[j] := Round4(rhs[j] - Times(rhs[i], rowFactor));
          assert rhs[j] == EliminatedRhsEntry(M, b, i, j, m);
        } else {
          assert R[j] == M[j] && rb[j] == b[j];
        }
        j := j + 1;
      }
      RowsAre(lhs, R);
      assert rhs[..] == rb;
    }

    /** Gaussian elimination with partial pivoting; records both ranks. */
    method TransformToEchelonForm()
      requires Valid()
      modifies lhs, rhs, this`rankCoefficient, this`rankAugmented
      ensures var e := EchelonFrom(old(Rows(lhs)), old(rhs[..]), lhsThresholds, rhsThreshold, 0);
        Rows(lhs) == e.lhs && rhs[..] == e.rhs &&
        rankCoefficient == e.rankCoefficient && rankAugmented == e.rankAugmented
    {
      ghost var goal := EchelonFrom(Rows(lhs), rhs[..], lhsThresholds, rhsThreshold, 0);
      var m := lhs.Length1;
      var i := 0;
      while i < m
        invariant 0 <= i <= m
        invariant EchelonFrom(Rows(lhs), rhs[..], lhsThresholds, rhsThreshold, i) == goal
      {
        var p := FindPivotRow(i);
        PivotRowIsFirstLargest(Rows(lhs), i);
        if !NonZeroInLhs(p, i) {
          var zero := RestOfLhsIsZero(p, i);
          if !zero {
            SkipStep(Rows(lhs), rhs[..], lhsThresholds, rhsThreshold, i);
            i := i + 1;
            continue;
          }
          rankCoefficient := i;
          var found := RhsNonZeroFromRow(i);
          rankAugmented := if found then i + 1 else i;
          return;
        }
        ghost var M0, b0 := Rows(lhs), rhs[..];
        ghost var M1 := SwapRows(M0, i, p);
        ghost var b1 := SwapRows(b0, i, p);
        SwapLhsRows(i, p);
        SwapRhsRows(i, p);
        assert Rows(lhs) == M1 && rhs[..] == b1;
        EliminateBelow(i);
        EliminationStep(M0, b0, lhsThresholds, rhsThreshold, i);
        i := i + 1;
      }
      rankCoefficient := m;
      var found := RhsNonZeroFromRow(m);
      rankAugmented := if found then m + 1 else m;
    }

    /** Keeps the first rank-many rows of both sides, as new arrays. */
    method ReduceLes()
      requires Valid() && 0 <= rankCoefficient <= lhs.Length0
      modifies this`lhsReduced, this`rhsReduced
      ensures lhsReduced != null && rhsReduced != null && fresh(lhsReduced) && fresh(rhsReduced)
      ensures lhsReduced.Length1 == lhs.Length1
      ensures Rows(lhsReduced) == Rows(lhs)[..rankCoefficient]
      ensures rhsReduced[..] == rhs[..rankCoefficient]
    {
      var rank := rankCoefficient;
      var m := lhs.Length1;
      var L := new real[rank, m]((r, c) requires 0 <= r < rank && 0 <= c < m reads lhs => lhs[r, c]);
      var r := new real[rank](k requires 0 <= k < rank reads rhs => rhs[k]);
      lhsReduced, rhsReduced := L, r;
      RowsAre(L, Rows(lhs)[..rank]);
    }

    /**
     * Back substitution on the reduced system. A reduced system that is not
     * square is an IllegalStateException, reported as ok == false.
     */
    method SolveMatrixInEchelonForm() returns (ok: bool)
      requires lhsReduced != null && rhsReduced != null
      modifies this`solution
      ensures ok <==> lhsReduced.Length0 == rhsReduced.Length && lhsReduced.Length1 == rhsReduced.Length
      ensures ok ==> (solution != null && fresh(solution) &&
        solution[..] == BackSubstitution(Rows(lhsReduced), rhsReduced[..]))
      ensures !ok ==> solution == old(solution)
    {
      var n := rhsReduced.Length;
      if lhsReduced.Length0 != n || lhsReduced.Length1 != n {
        return false;
      }
      ghost var L := Rows(lhsReduced);
      ghost var b := rhsReduced[..];
      var sol := new real[n](_ => 0.0);
      var j := n - 1;
      while j >= 0
        invariant -1 <= j < n
        invariant forall i :: j < i < n ==> sol[i] == Unknown(L, b, i)
        decreases j
      {
        var t := 0.0;
        var k := j + 1;
        while k < n
          invariant j + 1 <= k <= n
          invariant t == KnownTerms(L, b, j, k)
        {
          t := t + Times(lhsReduced[j, k], sol[k]);
          k := k + 1;
        }
        sol[j] := QuotientRound4(rhsReduced[j] - t, lhsReduced[j, j]);
        j := j - 1;
      }
      assert sol[..] == BackSubstitution(L, b);
      solution := sol;
      return true;
    }

    /** hasSolution: the ranks agree; asking before the ranks are known is an IllegalStateException. */
    function HasSolution(): (r: Result<bool>)
      reads this
      ensures r.Failure? <==> rankCoefficient == -1 && rankAugmented == -1
      ensures r.Success? ==> (r.value <==> rankAugmented == rankCoefficient)
    {
      if rankCoefficient == -1 && rankAugmented == -1 then Failure(IllegalState)
      else Success(rankAugmented == rankCoefficient)
    }

    /** hasUniqueSolution: the ranks agree and equal the number of unknowns. */
    function HasUniqueSolution(): (r: Result<bool>)
      reads this, lhs
      ensures r.Failure? <==> rankCoefficient == -1 && rankAugmented == -1
      ensures r.Success? ==> (r.value <==> rankAugmented == rankCoefficient == lhs.Length1)
    {
      match HasSolution()
      case Failure(e) => Failure(e)
      case Success(s) => Success(s && lhs.Length1 == rankCoefficient)
    }

    method IsSolutionInvalid() returns (invalid: bool)
      requires solution != null
      ensures invalid <==> !AllNonNegative(solution[..])
    {
      var k := 0;
      while k < solution.Length
        invariant 0 <= k <= solution.Length
        invariant forall i :: 0 <= i < k ==> solution[i] >= 0.0
      {
        if solution[k] < 0.0 {
          assert solution[..][k] == solution[k];
          return true;
        }
        k := k + 1;
      }
      return false;
    }

    /**
     * Solves the system as far as possible. The arrays of the system are
     * changed in place by the elimination; the reduced system and the
     * solution are new arrays.
     */
    method SolveLesAsPossible() returns (s: Solubility)
      requires Valid()
      modifies lhs, rhs, this`rankCoefficient, this`rankAugmented, this`lhsReduced, this`rhsReduced, this`solution
      ensures var o := Solve(old(Rows(lhs)), old(rhs[..]), lhsThresholds, rhsThreshold);
        s == o.solubility &&
        Rows(lhs) == o.echelon.lhs && rhs[..] == o.echelon.rhs &&
        rankCoefficient == o.echelon.rankCoefficient && rankAugmented == o.echelon.rankAugmented &&
        (o.lhsReduced.Some? ==>
           lhsReduced != null && fresh(lhsReduced) && Rows(lhsReduced) == o.lhsReduced.value &&
           lhsReduced.Length1 == lhs.Length1) &&
        (o.rhsReduced.Some? ==> rhsReduced != null && fresh(rhsReduced) && rhsReduced[..] == o.rhsReduced.value) &&
        (o.lhsReduced.None? ==> lhsReduced == old(lhsReduced) && rhsReduced == old(rhsReduced)) &&
        (o.solution.Some? ==> solution != null && fresh(solution) && solution[..] == o.solution.value) &&
        (o.solution.None? ==> solution == old(solution))
    {
      ghost var M := Rows(lhs);
      ghost var b := rhs[..];
      EchelonRanks(M, b, lhsThresholds, rhsThreshold, 0);
      TransformToEchelonForm();
      var unique := HasUniqueSolution();
      var solvable := HasSolution();
      if unique.value {
        ReduceLes();
        var ok := SolveMatrixInEchelonForm();
        assert ok;
        var invalid := IsSolutionInvalid();
        if invalid {
          return NoSolution;
        }
        return UniqueSolution;
      } else if solvable.value {
        ReduceLes();
        return InfiniteSolutions;
      }
      return NoSolution;
    }

    /** The chosen columns of the reduced coefficient matrix, as a new matrix. */
    method GetSpecificColumnsOfLhs(indices: seq<nat>) returns (a: array2<real>)
      requires lhsReduced != null
      requires forall k :: 0 <= k < |indices| ==> indices[k] < lhsReduced.Length1
      ensures fresh(a) && a.Length0 == lhsReduced.Length0 && a.Length1 == |indices|
      ensures forall r, k :: 0 <= r < a.Length0 && 0 <= k < |indices| ==> a[r, k] == lhsReduced[r, indices[k]]
    {
      a := new real[lhsReduced.Length0, |indices|];
      var r := 0;
      while r < lhsReduced.Length0
        invariant 0 <= r <= lhsReduced.Length0
        invariant forall r', k :: 0 <= r' < r && 0 <= k < |indices| ==> a[r', k] == lhsReduced[r', indices[k]]
      {
        var k := 0;
        while k < |indices|
          invariant 0 <= k <= |indices|
          invariant forall r', k' :: 0 <= r' < r && 0 <= k' < |indices| ==> a[r', k'] == lhsReduced[r', indices[k']]
          invariant forall k' :: 0 <= k' < k ==> a[r, k'] == lhsReduced[r, indices[k']]
        {
          a[r, k] := lhsReduced[r, indices[k]];
          k := k + 1;
        }
        r := r + 1;
      }
    }
  }
}
