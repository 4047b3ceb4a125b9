/**
 * The distribution of an item's resultant force onto its reaction points,
 * per sequence step: the points are sorted by their distance to the
 * resultant's point, a moment-balance system is set up and solved, and
 * when it has infinitely many solutions a triple of points in three
 * different quadrants around the resultant is searched whose system has a
 * unique non-negative solution.
 */
module ReactionForceCalculator {
  import opened Numerics
  import opened Wrappers
  import opened Points
  import opened PlacedItems
  import opened Forces
  import opened LinearEquationSystems

  // ---------------------------------------------------------------------------
  // Sorting by distance to the resultant
  // ---------------------------------------------------------------------------

  /** The squared distance; the square root Java takes does not change the order. */
  function Dist2(p: Point2D, c: Point2D): real {
    Times(p.x - c.x, p.x - c.x) + Times(p.y - c.y, p.y - c.y)
  }

  /** Inserts behind every point that is not farther away, which keeps points of equal distance in order. */
  function Insert(rp: ReactionPoint, sorted: seq<ReactionPoint>, c: Point2D): (r: seq<ReactionPoint>)
    ensures multiset(r) == multiset(sorted) + multiset{rp}
    ensures |r| == |sorted| + 1
  {
    if sorted == [] then [rp]
    else if Dist2(rp.point, c) < Dist2(sorted[0].point, c) then [rp] + sorted
    else
      assert sorted == [sorted[0]] + sorted[1..];
      [sorted[0]] + Insert(rp, sorted[1..], c)
  }

  /** List.sort with a comparator on the distance: a stable sort, here by insertion from the front. */
  function SortByDistance(pts: seq<ReactionPoint>, c: Point2D): (r: seq<ReactionPoint>)
    ensures multiset(r) == multiset(pts)
    ensures |r| == |pts|
  {
    if pts == [] then []
    else
      assert pts == pts[..|pts| - 1] + [pts[|pts| - 1]];
      Insert(pts[|pts| - 1], SortByDistance(pts[..|pts| - 1], c), c)
  }

  predicate SortedByDistance(s: seq<ReactionPoint>, c: Point2D) {
    forall i, j :: 0 <= i < j < |s| ==> Dist2(s[i].point, c) <= Dist2(s[j].point, c)
  }

  lemma {:induction false} InsertKeepsSorted(rp: ReactionPoint, sorted: seq<ReactionPoint>, c: Point2D)
    requires SortedByDistance(sorted, c)
    ensures SortedByDistance(Insert(rp, sorted, c), c)
  {
    if sorted != [] && Dist2(rp.point, c) >= Dist2(sorted[0].point, c) {
      var tail := sorted[1..];
      assert SortedByDistance(tail, c) by {
        forall i, j | 0 <= i < j < |tail| ensures Dist2(tail[i].point, c) <= Dist2(tail[j].point, c) {
          assert tail[i] == sorted[i + 1] && tail[j] == sorted[j + 1];
        }
      }
      InsertKeepsSorted(rp, tail, c);
      HeadNotFarther(rp, sorted, c);
    } else if sorted != [] {
      var r := Insert(rp, sorted, c);
      forall i, j | 0 <= i < j < |r| ensures Dist2(r[i].point, c) <= Dist2(r[j].point, c) {
        assert r[j] == sorted[j - 1];
        if i > 0 {
          assert r[i] == sorted[i - 1];
        }
      }
    }
  }

  /** Behind the head of a sorted list, an insertion places only points at least as far away as the head. */
  lemma HeadNotFarther(rp: ReactionPoint, sorted: seq<ReactionPoint>, c: Point2D)
    requires SortedByDistance(sorted, c) && sorted != [] && Dist2(rp.point, c) >= Dist2(sorted[0].point, c)
    requires SortedByDistance(Insert(rp, sorted[1..], c), c)
    ensures SortedByDistance(Insert(rp, sorted, c), c)
  {
    var tail := sorted[1..];
    var r := Insert(rp, sorted, c);
    var rt := Insert(rp, tail, c);
    assert r == [sorted[0]] + rt;
    forall k | 0 <= k < |rt| ensures Dist2(sorted[0].point, c) <= Dist2(rt[k].point, c) {
      assert rt[k] in multiset(rt);
      if rt[k] != rp {
        assert rt[k] in multiset(tail);
        var m :| 0 <= m < |tail| && tail[m] == rt[k];
        assert tail[m] == sorted[m + 1];
      }
    }
    forall i, j | 0 <= i < j < |r| ensures Dist2(r[i].point, c) <= Dist2(r[j].point, c) {
      assert r[j] == rt[j - 1];
      if i > 0 {
        assert r[i] == rt[i - 1];
      }
    }
  }

  /** The sorted points are ordered by distance to c and are a permutation of the input. */
  lemma {:induction false} SortByDistanceSorts(pts: seq<ReactionPoint>, c: Point2D)
    ensures SortedByDistance(SortByDistance(pts, c), c)
    ensures multiset(SortByDistance(pts, c)) == multiset(pts)
  {
    if pts != [] {
      SortByDistanceSorts(pts[..|pts| - 1], c);
      InsertKeepsSorted(pts[|pts| - 1], SortByDistance(pts[..|pts| - 1], c), c);
    }
  }

  // ---------------------------------------------------------------------------
  // Quadrants around the resultant
  // ---------------------------------------------------------------------------

  /** 2 for a point not left of c, plus 1 for a point not below c. */
  function Quadrant(p: Point2D, c: Point2D): int {
    (if p.x >= c.x then 2 else 0) + (if p.y >= c.y then 1 else 0)
  }

  function Quadrants(pts: seq<ReactionPoint>, c: Point2D): (q: seq<int>)
    ensures |q| == |pts|
  {
    seq(|pts|, i requires 0 <= i < |pts| => Quadrant(pts[i].point, c))
  }

  /** The quadrant is in 0..3, and two points share it exactly when they lie on the same sides of c on both axes. */
  lemma QuadrantMeansSides(p: Point2D, o: Point2D, c: Point2D)
    ensures 0 <= Quadrant(p, c) <= 3
    ensures Quadrant(p, c) == Quadrant(o, c) <==> ((p.x >= c.x) == (o.x >= c.x) && (p.y >= c.y) == (o.y >= c.y))
  {
  }

  /** deriveQuadrantsOfReactionPoints: a new int array, 0 by default, raised by 2 and by 1. */
  method DeriveQuadrantsOfReactionPoints(pts: seq<ReactionPoint>, resultant: Force) returns (a: array<int>)
    ensures fresh(a) && a[..] == Quadrants(pts, resultant.point)
  {
    a := new int[|pts|](_ => 0);
    for i := 0 to |pts|
      invariant forall k :: 0 <= k < |pts| ==> a[k] == (if k < i then Quadrant(pts[k].point, resultant.point) else 0)
    {
      if pts[i].point.x >= resultant.point.x {
        a[i] := a[i] + 2;
      }
      if pts[i].point.y >= resultant.point.y {
        a[i] := a[i] + 1;
      }
    }
  }

  // ---------------------------------------------------------------------------
  // The moment-balance system
  // ---------------------------------------------------------------------------

  /** A reaction point takes part at step s when its item below is placed by then. */
  predicate Placed(rp: ReactionPoint, s: int) {
    rp.item.sequence <= s
  }

  /**
   * Row 2i (x) and row 2i+1 (z) belong to point i; column j holds point i's
   * lever against point j. The rows of a point not yet placed, and the
   * diagonal, stay 0. (The inner guard of the source re-tests point i, so a
   * point not yet placed still gets a column.)
   */
  function LesEntry(s: int, pts: seq<ReactionPoint>, row: nat, col: nat): real
    requires row < 2 * |pts| && col < |pts|
  {
    var i := row / 2;
    if !Placed(pts[i], s) || i == col then 0.0
    else if row % 2 == 0 then pts[i].point.x - pts[col].point.x
    else pts[i].point.y - pts[col].point.y
  }

  function LesMatrix(s: int, pts: seq<ReactionPoint>): (M: Matrix)
    ensures IsMatrix(M, 2 * |pts|, |pts|)
  {
    seq(2 * |pts|, row requires 0 <= row < 2 * |pts| =>
      seq(|pts|, col requires 0 <= col < |pts| => LesEntry(s, pts, row, col)))
  }

  /** The resultant's lever against point i times its magnitude, rounded to two decimals. */
  function LesRhsEntry(s: int, pts: seq<ReactionPoint>, resultant: Force, row: nat): real
    requires row < 2 * |pts|
  {
    var i := row / 2;
    if !Placed(pts[i], s) then 0.0
    else if row % 2 == 0 then Round2(Times(pts[i].point.x - resultant.point.x, resultant.magnitude))
    else Round2(Times(pts[i].point.y - resultant.point.y, resultant.magnitude))
  }

  function LesRhs(s: int, pts: seq<ReactionPoint>, resultant: Force): (b: seq<real>)
    ensures |b| == 2 * |pts|
  {
    seq(2 * |pts|, row requires 0 <= row < 2 * |pts| => LesRhsEntry(s, pts, resultant, row))
  }

  /** Σ_j F_j * (x_i - x_j) over j < hi: the moment of the forces F about point i on the x axis. */
  function MomentAbout(pts: seq<ReactionPoint>, F: seq<real>, i: nat, hi: nat): real
    requires i < |pts| && hi <= |pts| && hi <= |F|
  {
    if hi == 0 then 0.0 else MomentAbout(pts, F, i, hi - 1) + Times(F[hi - 1], pts[i].point.x - pts[hi - 1].point.x)
  }

  function ForceSum(F: seq<real>, hi: nat): real
    requires hi <= |F|
  {
    if hi == 0 then 0.0 else ForceSum(F, hi - 1) + F[hi - 1]
  }

  function ForceMomentX(pts: seq<ReactionPoint>, F: seq<real>, hi: nat): real
    requires hi <= |pts| && hi <= |F|
  {
    if hi == 0 then 0.0 else ForceMomentX(pts, F, hi - 1) + Times(F[hi - 1], pts[hi - 1].point.x)
  }

  lemma {:induction false} MomentAboutSplits(pts: seq<ReactionPoint>, F: seq<real>, i: nat, hi: nat)
    requires i < |pts| && hi <= |pts| && hi <= |F|
    ensures MomentAbout(pts, F, i, hi) == Times(pts[i].point.x, ForceSum(F, hi)) - ForceMomentX(pts, F, hi)
  {
    if hi > 0 {
      MomentAboutSplits(pts, F, i, hi - 1);
      assert Times(F[hi - 1], pts[i].point.x - pts[hi - 1].point.x) ==
        pts[i].point.x * F[hi - 1] - Times(F[hi - 1], pts[hi - 1].point.x);
      assert pts[i].point.x * (ForceSum(F, hi - 1) + F[hi - 1]) ==
        pts[i].point.x * ForceSum(F, hi - 1) + pts[i].point.x * F[hi - 1];
    }
  }

  /** The left-hand side of row 2i applied to F: Σ_j M[2i][j] * F_j. */
  function RowTimes(M: Matrix, row: nat, F: seq<real>, hi: nat): real
    requires row < |M| && hi <= |M[row]| && hi <= |F|
  {
    if hi == 0 then 0.0 else RowTimes(M, row, F, hi - 1) + Times(M[row][hi - 1], F[hi - 1])
  }

  lemma {:induction false} PlacedRowIsMoment(s: int, pts: seq<ReactionPoint>, F: seq<real>, i: nat, hi: nat)
    requires i < |pts| && Placed(pts[i], s) && hi <= |pts| && |F| == |pts|
    ensures RowTimes(LesMatrix(s, pts), 2 * i, F, hi) == MomentAbout(pts, F, i, hi)
  {
    if hi > 0 {
      PlacedRowIsMoment(s, pts, F, i, hi - 1);
      var M := LesMatrix(s, pts);
      assert M[2 * i][hi - 1] == LesEntry(s, pts, 2 * i, hi - 1);
      assert (2 * i) / 2 == i && (2 * i) % 2 == 0;
      if i == hi - 1 {
        assert Times(F[hi - 1], pts[i].point.x - pts[hi - 1].point.x) == 0.0;
      }
    }
  }

  /**
   * The x rows state moment balance: forces that carry the resultant's
   * magnitude (ΣF = R) at its point (ΣF·x = R·r.x) satisfy the x row of
   * every placed point exactly, up to the rounding of the right-hand side.
   */
  lemma BalancedForcesSatisfyXRows(s: int, pts: seq<ReactionPoint>, resultant: Force, F: seq<real>, i: nat)
    requires i < |pts| && Placed(pts[i], s) && |F| == |pts|
    requires ForceSum(F, |F|) == resultant.magnitude
    requires ForceMomentX(pts, F, |F|) == Times(resultant.magnitude, resultant.point.x)
    ensures RowTimes(LesMatrix(s, pts), 2 * i, F, |pts|) == Times(pts[i].point.x - resultant.point.x, resultant.magnitude)
    ensures LesRhs(s, pts, resultant)[2 * i] == Round2(Times(pts[i].point.x - resultant.point.x, resultant.magnitude))
  {
    XRowIsMoment(s, pts, F, i);
    BalanceArithmetic(RowTimes(LesMatrix(s, pts), 2 * i, F, |pts|), pts[i].point.x, resultant.point.x, resultant.magnitude,
                      ForceSum(F, |pts|), ForceMomentX(pts, F, |pts|));
    XRhsOfPlacedPoint(s, pts, resultant, i);
  }

  lemma XRowIsMoment(s: int, pts: seq<ReactionPoint>, F: seq<real>, i: nat)
    requires i < |pts| && Placed(pts[i], s) && |F| == |pts|
    ensures RowTimes(LesMatrix(s, pts), 2 * i, F, |pts|) == Times(pts[i].point.x, ForceSum(F, |F|)) - ForceMomentX(pts, F, |F|)
  {
    PlacedRowIsMoment(s, pts, F, i, |pts|);
    MomentAboutSplits(pts, F, i, |pts|);
  }

  lemma XRhsOfPlacedPoint(s: int, pts: seq<ReactionPoint>, resultant: Force, i: nat)
    requires i < |pts| && Placed(pts[i], s)
    ensures LesRhs(s, pts, resultant)[2 * i] == Round2(Times(pts[i].point.x - resultant.point.x, resultant.magnitude))
  {
    assert (2 * i) / 2 == i && (2 * i) % 2 == 0;
    assert LesRhs(s, pts, resultant)[2 * i] == LesRhsEntry(s, pts, resultant, 2 * i);
  }

  lemma BalanceArithmetic(moment: real, x: real, c: real, m: real, forceSum: real, forceMoment: real)
    requires moment == Times(x, forceSum) - forceMoment
    requires forceSum == m && forceMoment == Times(m, c)
    ensures moment == Times(x - c, m)
  {
  }

  /** The rows of a point not yet placed are zero on both sides. */
  lemma UnplacedRowsAreZero(s: int, pts: seq<ReactionPoint>, resultant: Force, i: nat)
    requires i < |pts| && !Placed(pts[i], s)
    ensures forall c :: 0 <= c < |pts| ==> LesMatrix(s, pts)[2 * i][c] == 0.0 && LesMatrix(s, pts)[2 * i + 1][c] == 0.0
    ensures LesRhs(s, pts, resultant)[2 * i] == 0.0 && LesRhs(s, pts, resultant)[2 * i + 1] == 0.0
  {
    assert (2 * i) / 2 == i && (2 * i + 1) / 2 == i;
    var M := LesMatrix(s, pts);
    forall c | 0 <= c < |pts| ensures M[2 * i][c] == 0.0 && M[2 * i + 1][c] == 0.0 {
      assert M[2 * i][c] == LesEntry(s, pts, 2 * i, c);
      assert M[2 * i + 1][c] == LesEntry(s, pts, 2 * i + 1, c);
    }
  }

  /** createLES: the 2n x n system filled row pair by row pair. */
  method CreateLes(s: int, pts: seq<ReactionPoint>, resultant: Force) returns (les: LinearEquationSystem)
    requires |pts| > 0
    ensures fresh(les) && fresh(les.lhs) && fresh(les.rhs) && les.Valid()
    ensures Rows(les.lhs) == LesMatrix(s, pts) && les.rhs[..] == LesRhs(s, pts, resultant)
    ensures les.lhsThresholds == Thresholds(LesMatrix(s, pts), |pts|)
    ensures les.rhsThreshold == ToleranceOf(LesRhs(s, pts, resultant))
    ensures les.lhsReduced == null && les.rhsReduced == null && les.solution == null
  {
    var n := |pts|;
    var lhs := new real[2 * n, n]((_, _) => 0.0);
    var rhs := new real[2 * n](_ => 0.0);
    for i := 0 to n
      invariant forall r, c :: 0 <= r < 2 * n && 0 <= c < n ==> lhs[r, c] == (if r < 2 * i then LesEntry(s, pts, r, c) else 0.0)
      invariant forall r :: 0 <= r < 2 * n ==> rhs[r] == (if r < 2 * i then LesRhsEntry(s, pts, resultant, r) else 0.0)
    {
      FillPointRows(s, pts, resultant, lhs, rhs, i);
    }
    RowsAre(lhs, LesMatrix(s, pts));
    assert rhs[..] == LesRhs(s, pts, resultant);
    les := new LinearEquationSystem(lhs, rhs);
  }

  /** One pass of createLES's outer loop: the rows 2i and 2i+1 of point i, left 0 when the point is not yet placed. */
  method FillPointRows(s: int, pts: seq<ReactionPoint>, resultant: Force, lhs: array2<real>, rhs: array<real>, i: nat)
    requires lhs.Length0 == 2 * |pts| && lhs.Length1 == |pts| && rhs.Length == 2 * |pts| && i < |pts|
    requires forall r, c :: 2 * i <= r < 2 * |pts| && 0 <= c < |pts| ==> lhs[r, c] == 0.0
    requires forall r :: 2 * i <= r < 2 * |pts| ==> rhs[r] == 0.0
    modifies lhs, rhs
    ensures forall r, c :: 0 <= r < 2 * |pts| && 0 <= c < |pts| ==>
      lhs[r, c] == (if r == 2 * i || r == 2 * i + 1 then LesEntry(s, pts, r, c) else old(lhs[r, c]))
    ensures forall r :: 0 <= r < 2 * |pts| ==>
      rhs[r] == (if r == 2 * i || r == 2 * i + 1 then LesRhsEntry(s, pts, resultant, r) else old(rhs[r]))
  {
    var n := |pts|;
    assert (2 * i) / 2 == i && (2 * i + 1) / 2 == i && (2 * i) % 2 == 0 && (2 * i + 1) % 2 == 1;
    if pts[i].item.sequence > s {
      forall c | 0 <= c < n ensures LesEntry(s, pts, 2 * i, c) == 0.0 && LesEntry(s, pts, 2 * i + 1, c) == 0.0 {
        assert !Placed(pts[(2 * i) / 2], s) && !Placed(pts[(2 * i + 1) / 2], s);
      }
      return;
    }
    for j := 0 to n
      invariant forall r, c :: 0 <= r < 2 * n && 0 <= c < n ==>
        lhs[r, c] == (if (r == 2 * i || r == 2 * i + 1) && c < j then LesEntry(s, pts, r, c) else old(lhs[r, c]))
      invariant rhs[..] == old(rhs[..])
    {
      if pts[i].item.sequence > s || i == j {
        assert LesEntry(s, pts, 2 * i, j) == 0.0 && LesEntry(s, pts, 2 * i + 1, j) == 0.0;
        continue;
      }
      assert LesEntry(s, pts, 2 * i, j) == pts[i].point.x - pts[j].point.x;
      assert LesEntry(s, pts, 2 * i + 1, j) == pts[i].point.y - pts[j].point.y;
      lhs[2 * i, j] := pts[i].point.x - pts[j].point.x;
      lhs[2 * i + 1, j] := pts[i].point.y - pts[j].point.y;
    }
    rhs[2 * i] := Times(pts[i].point.x - resultant.point.x, resultant.magnitude);
    rhs[2 * i] := MathRound(rhs[2 * i] * 100.0) as real / 100.0;
    rhs[2 * i + 1] := Times(pts[i].point.y - resultant.point.y, resultant.magnitude);
    rhs[2 * i + 1] := MathRound(rhs[2 * i + 1] * 100.0) as real / 100.0;
  }

  // ---------------------------------------------------------------------------
  // Reading the solution
  // ---------------------------------------------------------------------------

  /** The solution read into forces grouped by the label of the item below, each group in point order. */
  function ReadForces(pts: seq<ReactionPoint>, sol: seq<real>): ReactionForces
    requires |pts| <= |sol|
  {
    if pts == [] then map[]
    else
      var m := ReadForces(pts[..|pts| - 1], sol);
      var l := pts[|pts| - 1].item.itemLabel;
      m[l := (if l in m then m[l] else []) + [Force(pts[|pts| - 1].point, sol[|pts| - 1])]]
  }

  /** The forces of the points below the item with the given label, in point order. */
  function ForcesOnto(pts: seq<ReactionPoint>, sol: seq<real>, l: string): seq<Force>
    requires |pts| <= |sol|
  {
    if pts == [] then []
    else
      var last := pts[|pts| - 1];
      ForcesOnto(pts[..|pts| - 1], sol, l) + (if last.item.itemLabel == l then [Force(last.point, sol[|pts| - 1])] else [])
  }

  /** The groups are exactly the labels of the items below, and each holds that item's forces in point order. */
  lemma {:induction false} ReadForcesGroupsByLabel(pts: seq<ReactionPoint>, sol: seq<real>, l: string)
    requires |pts| <= |sol|
    ensures l in ReadForces(pts, sol) <==> exists k :: 0 <= k < |pts| && pts[k].item.itemLabel == l
    ensures l in ReadForces(pts, sol) ==> ReadForces(pts, sol)[l] == ForcesOnto(pts, sol, l)
    ensures l !in ReadForces(pts, sol) ==> ForcesOnto(pts, sol, l) == []
  {
    if pts != [] {
      var init := pts[..|pts| - 1];
      ReadForcesGroupsByLabel(init, sol, l);
      if exists k :: 0 <= k < |init| && init[k].item.itemLabel == l {
        var k :| 0 <= k < |init| && init[k].item.itemLabel == l;
        assert pts[k] == init[k];
      }
      if exists k :: 0 <= k < |pts| && pts[k].item.itemLabel == l {
        var k :| 0 <= k < |pts| && pts[k].item.itemLabel == l;
        if k < |init| {
          assert init[k] == pts[k];
        }
      }
    }
  }

  /** No force of a distribution pulls: every magnitude is non-negative. */
  predicate Pushes(f: ReactionForces) {
    forall l, k :: l in f && 0 <= k < |f[l]| ==> f[l][k].magnitude >= 0.0
  }

  /** A non-negative solution is read into forces that all push. */
  lemma {:induction false} ReadForcesPush(pts: seq<ReactionPoint>, sol: seq<real>)
    requires |pts| <= |sol| && AllNonNegative(sol)
    ensures Pushes(ReadForces(pts, sol))
  {
    if pts != [] {
      ReadForcesPush(pts[..|pts| - 1], sol);
    }
  }

  /** readReactionForcesFromLES: one pass over the points, adding a group the first time a label occurs. */
  method ReadReactionForcesFromLes(les: LinearEquationSystem, pts: seq<ReactionPoint>) returns (m: ReactionForces)
    requires les.solution != null && |pts| <= les.solution.Length
    ensures m == ReadForces(pts, les.solution[..])
  {
    var sol := les.solution;
    m := map[];
    for i := 0 to |pts|
      invariant m == ReadForces(pts[..i], sol[..])
    {
      assert pts[..i + 1][..i] == pts[..i];
      var l := pts[i].item.itemLabel;
      if l !in m {
        m := m[l := []];
      }
      m := m[l := m[l] + [Force(pts[i].point, sol[i])]];
    }
    assert pts[..|pts|] == pts;
  }

  /** getSpecificReactionPoints: the points at the given indices, in the order of the indices. */
  method GetSpecificReactionPoints(pts: seq<ReactionPoint>, indices: seq<nat>) returns (r: seq<ReactionPoint>)
    requires forall k :: 0 <= k < |indices| ==> indices[k] < |pts|
    ensures |r| == |indices| && forall k :: 0 <= k < |indices| ==> r[k] == pts[indices[k]]
  {
    r := [];
    for k := 0 to |indices|
      invariant |r| == k && forall k' :: 0 <= k' < k ==> r[k'] == pts[indices[k']]
    {
      r := r + [pts[indices[k]]];
    }
  }

  // ---------------------------------------------------------------------------
  // The search for a supporting triple
  // ---------------------------------------------------------------------------

  /** The chosen columns of a matrix. */
  function Columns(L: Matrix, n: nat, indices: seq<nat>): (C: Matrix)
    requires IsMatrix(L, |L|, n) && forall k :: 0 <= k < |indices| ==> indices[k] < n
    ensures IsMatrix(C, |L|, |indices|)
  {
    seq(|L|, r requires 0 <= r < |L| => seq(|indices|, k requires 0 <= k < |indices| => L[r][indices[k]]))
  }

  /**
   * One triple: the LES constructor rejects a system with fewer than three
   * equations (Refused); otherwise the system is solved on the shared
   * right-hand side, which the elimination leaves changed (Solved, with the
   * forces when the solution is unique).
   */
  datatype Attempt = Refused | Solved(forces: Option<ReactionForces>, rhs: seq<real>)

  /** The outcome of solving the triple's columns against the shared right-hand side. */
  function TripleOutcome(L: Matrix, b: seq<real>, n: nat, c1: nat, c2: nat, i: nat): (o: Outcome)
    requires IsMatrix(L, |b|, n) && c1 < n && c2 < n && i < n && WellSized(|b|, 3, |b|)
    ensures |o.echelon.rhs| == |b|
    ensures o.solubility == UniqueSolution ==> o.solution.Some? && |o.solution.value| == 3
  {
    var C := Columns(L, n, [c1, c2, i]);
    var o := Solve(C, b, Thresholds(C, 3), ToleranceOf(b));
    if o.solubility == UniqueSolution then
      UniqueSolutionSolvesReducedSystem(C, b, Thresholds(C, 3), ToleranceOf(b), 0);
      o
    else o
  }

  function TryTriple(L: Matrix, b: seq<real>, pts: seq<ReactionPoint>, c1: nat, c2: nat, i: nat): (a: Attempt)
    requires IsMatrix(L, |b|, |pts|) && c1 < |pts| && c2 < |pts| && i < |pts|
    ensures a.Refused? <==> !WellSized(|b|, 3, |b|)
    ensures a.Solved? ==> a.rhs == TripleOutcome(L, b, |pts|, c1, c2, i).echelon.rhs
    ensures a.Solved? ==> (a.forces.Some? <==> TripleOutcome(L, b, |pts|, c1, c2, i).solubility == UniqueSolution)
  {
    if !WellSized(|b|, 3, |b|) then Refused
    else
      var o := TripleOutcome(L, b, |pts|, c1, c2, i);
      if o.solubility == UniqueSolution then
        Solved(Some(ReadForces([pts[c1], pts[c2], pts[i]], o.solution.value)), o.echelon.rhs)
      else Solved(None, o.echelon.rhs)
  }

  /** Every item a distribution loads is below one of the three points. */
  predicate LoadsOnly(f: ReactionForces, pts: seq<ReactionPoint>, c1: nat, c2: nat, i: nat)
    requires c1 < |pts| && c2 < |pts| && i < |pts|
  {
    forall l :: l in f ==> l in {pts[c1].item.itemLabel, pts[c2].item.itemLabel, pts[i].item.itemLabel}
  }

  /** The forces read for three points load only the items below them. */
  lemma ThreePointsLoadOnlyTheirItems(x: ReactionPoint, y: ReactionPoint, z: ReactionPoint, sol: seq<real>)
    requires |sol| >= 3
    ensures forall l :: l in ReadForces([x, y, z], sol) ==> l in {x.item.itemLabel, y.item.itemLabel, z.item.itemLabel}
  {
    var three := [x, y, z];
    forall l | l in ReadForces(three, sol) ensures l in {x.item.itemLabel, y.item.itemLabel, z.item.itemLabel} {
      ReadForcesGroupsByLabel(three, sol, l);
      var k :| 0 <= k < 3 && three[k].item.itemLabel == l;
    }
  }

  /** A distribution found for a triple loads only the items below its three points. */
  lemma TripleLoadsOnlyItsPoints(L: Matrix, b: seq<real>, pts: seq<ReactionPoint>, c1: nat, c2: nat, i: nat)
    requires IsMatrix(L, |b|, |pts|) && c1 < |pts| && c2 < |pts| && i < |pts|
    requires TryTriple(L, b, pts, c1, c2, i).Solved? && TryTriple(L, b, pts, c1, c2, i).forces.Some?
    ensures LoadsOnly(TryTriple(L, b, pts, c1, c2, i).forces.value, pts, c1, c2, i)
    ensures Pushes(TryTriple(L, b, pts, c1, c2, i).forces.value)
  {
    var C := Columns(L, |pts|, [c1, c2, i]);
    UniqueSolutionSolvesReducedSystem(C, b, Thresholds(C, 3), ToleranceOf(b), 0);
    var sol := TripleOutcome(L, b, |pts|, c1, c2, i).solution.value;
    ThreePointsLoadOnlyTheirItems(pts[c1], pts[c2], pts[i], sol);
    ReadForcesPush([pts[c1], pts[c2], pts[i]], sol);
  }

  predicate PairwiseDistinct(q: seq<int>, c1: nat, c2: nat, i: nat)
    requires c1 < |q| && c2 < |q| && i < |q|
  {
    q[c1] != q[i] && q[c2] != q[i] && q[c2] != q[c1]
  }

  /** The state (i', c1', c2') comes at or after (i, c1, c2) in the order of the three nested loops. */
  predicate NotBefore(i: nat, c1: nat, c2: nat, i': nat, c1': nat, c2': nat) {
    i < i' || (i == i' && (c1 < c1' || (c1 == c1' && c2 <= c2')))
  }

  /** A combination c1 < c2 < i whose points lie in three different quadrants. */
  predicate Candidate(q: seq<int>, i: nat, c1: nat, c2: nat) {
    c1 < c2 < i < |q| && PairwiseDistinct(q, c1, c2, i)
  }

  /**
   * The loops of handleIndeterminateSystem from the state (i, c1, c2) on,
   * with every skipped combination stepped over: the first combination the
   * loops try, if any.
   */
  function NextCandidate(q: seq<int>, i: nat, c1: nat, c2: nat): (r: Option<(nat, nat, nat)>)
    requires c1 < c2
    ensures r.Some? ==>
      Candidate(q, r.value.0, r.value.1, r.value.2) && NotBefore(i, c1, c2, r.value.0, r.value.1, r.value.2)
    decreases |q| - i, i - c1, i - c2
  {
    if i >= |q| then None
    else if c1 >= i then NextCandidate(q, i + 1, 0, 1)
    else if q[c1] == q[i] || c2 >= i then NextCandidate(q, i, c1 + 1, c1 + 2)
    else if q[c2] == q[i] || q[c2] == q[c1] then NextCandidate(q, i, c1, c2 + 1)
    else Some((i, c1, c2))
  }

  /** The loops skip no combination: when they try none, no combination from the state on is a candidate. */
  lemma {:induction false} NextCandidateMissesNone(q: seq<int>, i: nat, c1: nat, c2: nat, i': nat, c1': nat, c2': nat)
    requires c1 < c2
    requires Candidate(q, i', c1', c2') && NotBefore(i, c1, c2, i', c1', c2')
    ensures NextCandidate(q, i, c1, c2).Some?
    decreases |q| - i, i - c1, i - c2
  {
    if i >= |q| {
    } else if c1 >= i {
      NextCandidateMissesNone(q, i + 1, 0, 1, i', c1', c2');
    } else if q[c1] == q[i] || c2 >= i {
      NextCandidateMissesNone(q, i, c1 + 1, c1 + 2, i', c1', c2');
    } else if q[c2] == q[i] || q[c2] == q[c1] {
      NextCandidateMissesNone(q, i, c1, c2 + 1, i', c1', c2');
    }
  }

  /**
   * How a triple (c1, c2, i) is tried on the current right-hand side b:
   * TryTriple for the search of handleIndeterminateSystem, and a parameter
   * of the search itself, which is all the search needs of it.
   */
  type TripleSolver = (seq<real>, nat, nat, nat) -> Attempt

  /** The triples of the reduced system L of the points pts, each solved by TryTriple. */
  function SolverOf(L: Matrix, pts: seq<ReactionPoint>): TripleSolver {
    (b: seq<real>, c1: nat, c2: nat, i: nat) =>
      if IsMatrix(L, |b|, |pts|) && c1 < |pts| && c2 < |pts| && i < |pts| then TryTriple(L, b, pts, c1, c2, i)
      else Refused
  }

  lemma SolverOfTries(L: Matrix, pts: seq<ReactionPoint>, b: seq<real>, c1: nat, c2: nat, i: nat)
    requires IsMatrix(L, |b|, |pts|) && c1 < |pts| && c2 < |pts| && i < |pts|
    ensures SolverOf(L, pts)(b, c1, c2, i) == TryTriple(L, b, pts, c1, c2, i)
  {
  }

  /**
   * What the search needs of a triple solver on right-hand sides of the
   * given length: it keeps the length, refuses only fewer than three
   * equations, and a distribution it finds for three points in different
   * quadrants loads only the items below them and none of its forces pulls.
   */
  ghost predicate SoundSolver(t: TripleSolver, q: seq<int>, pts: seq<ReactionPoint>, rows: nat)
    requires |q| == |pts|
  {
    forall b: seq<real>, c1: nat, c2: nat, i: nat ::
      |b| == rows && Candidate(q, i, c1, c2) ==>
        (t(b, c1, c2, i).Refused? ==> rows < 3) &&
        (t(b, c1, c2, i).Solved? ==> |t(b, c1, c2, i).rhs| == rows) &&
        (t(b, c1, c2, i).Solved? && t(b, c1, c2, i).forces.Some? ==>
           LoadsOnly(t(b, c1, c2, i).forces.value, pts, c1, c2, i) && Pushes(t(b, c1, c2, i).forces.value))
  }

  /** TryTriple on the reduced system is such a solver. */
  lemma SolverOfIsSound(L: Matrix, pts: seq<ReactionPoint>, q: seq<int>)
    requires IsMatrix(L, |L|, |pts|) && |q| == |pts|
    ensures SoundSolver(SolverOf(L, pts), q, pts, |L|)
  {
    forall b: seq<real>, c1: nat, c2: nat, i: nat | |b| == |L| && Candidate(q, i, c1, c2)
      ensures var a := SolverOf(L, pts)(b, c1, c2, i);
        (a.Refused? ==> |L| < 3) && (a.Solved? ==> |a.rhs| == |L|) &&
        (a.Solved? && a.forces.Some? ==> LoadsOnly(a.forces.value, pts, c1, c2, i) && Pushes(a.forces.value))
    {
      SolverOfTries(L, pts, b, c1, c2, i);
      if TryTriple(L, b, pts, c1, c2, i).Solved? && TryTriple(L, b, pts, c1, c2, i).forces.Some? {
        TripleLoadsOnlyItsPoints(L, b, pts, c1, c2, i);
      }
    }
  }

  /**
   * The outcome of the search, the shared right-hand side it leaves behind
   * and the combination (i, c1, c2) whose solution ended it.
   */
  datatype Searched = Searched(result: Result<Option<ReactionForces>>, rhs: seq<real>, found: Option<(nat, nat, nat)>)

  /**
   * handleIndeterminateSystem from the state (i, c1, c2) on: each candidate
   * combination is solved by t on the right-hand side the previous ones left;
   * the first unique solution ends the search, and so does a refused system.
   */
  function Search(t: TripleSolver, q: seq<int>, b: seq<real>, i: nat, c1: nat, c2: nat): Searched
    requires c1 < c2
    decreases |q| - i, i - c1, i - c2, 1
  {
    match NextCandidate(q, i, c1, c2)
    case None => Searched(Success(None), b, None)
    case Some((i', c1', c2')) => SearchOn(t, q, b, i', c1', c2')
  }

  /** The search at the candidate (i, c1, c2): that triple is solved first. */
  function SearchOn(t: TripleSolver, q: seq<int>, b: seq<real>, i: nat, c1: nat, c2: nat): Searched
    requires Candidate(q, i, c1, c2)
    decreases |q| - i, i - c1, i - c2, 0
  {
    match t(b, c1, c2, i)
    case Refused => Searched(Failure(IllegalArgument), b, None)
    case Solved(Some(f), b1) => Searched(Success(Some(f)), b1, Some((i, c1, c2)))
    case Solved(None, b1) => Search(t, q, b1, i, c1, c2 + 1)
  }

  /** What a search ends with, from a loop state or from a candidate. */
  predicate SearchEndsWell(r: Searched, q: seq<int>, pts: seq<ReactionPoint>, b: seq<real>)
    requires |q| == |pts|
  {
    |r.rhs| == |b| &&
    (r.result.Failure? ==> r.result.error == IllegalArgument && |b| < 3) &&
    (r.result.Success? && r.result.value.Some? ==>
      r.found.Some? && Candidate(q, r.found.value.0, r.found.value.1, r.found.value.2) &&
      LoadsOnly(r.result.value.value, pts, r.found.value.1, r.found.value.2, r.found.value.0) &&
      Pushes(r.result.value.value))
  }

  /**
   * With a sound solver, a distribution the search finds loads only the
   * items below three points in three different quadrants and none of its
   * forces pulls, the search fails
   * only when the system has fewer than three equations, and the
   * right-hand side keeps its length.
   */
  lemma {:induction false} SearchFindsDistinctQuadrants(t: TripleSolver, q: seq<int>, pts: seq<ReactionPoint>, b: seq<real>,
                                                        i: nat, c1: nat, c2: nat)
    requires |q| == |pts| && c1 < c2 && SoundSolver(t, q, pts, |b|)
    ensures SearchEndsWell(Search(t, q, b, i, c1, c2), q, pts, b)
    decreases |q| - i, i - c1, i - c2, 1
  {
    match NextCandidate(q, i, c1, c2)
    case None =>
    case Some((i', c1', c2')) => SearchOnFindsDistinctQuadrants(t, q, pts, b, i', c1', c2');
  }

  lemma {:induction false} SearchOnFindsDistinctQuadrants(t: TripleSolver, q: seq<int>, pts: seq<ReactionPoint>, b: seq<real>,
                                                          i: nat, c1: nat, c2: nat)
    requires |q| == |pts| && Candidate(q, i, c1, c2) && SoundSolver(t, q, pts, |b|)
    ensures SearchEndsWell(SearchOn(t, q, b, i, c1, c2), q, pts, b)
    decreases |q| - i, i - c1, i - c2, 0
  {
    match t(b, c1, c2, i)
    case Refused =>
    case Solved(Some(f), b1) =>
    case Solved(None, b1) => SearchFindsDistinctQuadrants(t, q, pts, b1, i, c1, c2 + 1);
  }

  /** Without a triple in three different quadrants the search tries nothing: no distribution, and the right-hand side untouched. */
  lemma NoCandidateMeansNoDistribution(t: TripleSolver, q: seq<int>, b: seq<real>, i: nat, c1: nat, c2: nat)
    requires c1 < c2
    requires forall i', c1', c2' :: NotBefore(i, c1, c2, i', c1', c2') ==> !Candidate(q, i', c1', c2')
    ensures Search(t, q, b, i, c1, c2) == Searched(Success(None), b, None)
  {
  }

  lemma ThreeElements<T>(s: seq<T>, x: T, y: T, z: T)
    requires |s| == 3 && s[0] == x && s[1] == y && s[2] == z
    ensures s == [x, y, z]
  {
  }

  /**
   * The first half of tryCalculatingReactionForcesForTriple: the sub-system
   * of the three columns, on the large system's reduced right-hand side
   * array itself, is built and solved.
   */
  method SolveTriple(pts: seq<ReactionPoint>, c1: nat, c2: nat, i: nat, lesLarge: LinearEquationSystem)
    returns (res: Result<Solubility>, lesTriple: LinearEquationSystem?)
    requires lesLarge.lhsReduced != null && lesLarge.rhsReduced != null
    requires lesLarge.lhsReduced.Length0 == lesLarge.rhsReduced.Length && lesLarge.lhsReduced.Length1 == |pts|
    requires c1 < |pts| && c2 < |pts| && i < |pts|
    modifies lesLarge.rhsReduced
    ensures var b := old(lesLarge.rhsReduced[..]);
      (res.Failure? <==> !WellSized(|b|, 3, |b|)) &&
      (res.Failure? ==> res.error == IllegalArgument && lesLarge.rhsReduced[..] == b)
    ensures res.Success? ==>
      var o := TripleOutcome(old(Rows(lesLarge.lhsReduced)), old(lesLarge.rhsReduced[..]), |pts|, c1, c2, i);
      res.value == o.solubility && lesLarge.rhsReduced[..] == o.echelon.rhs &&
      (res.value == UniqueSolution ==>
        lesTriple != null && lesTriple.solution != null && lesTriple.solution[..] == o.solution.value)
  {
    ghost var L := Rows(lesLarge.lhsReduced);
    ghost var b := lesLarge.rhsReduced[..];
    var cols := lesLarge.GetSpecificColumnsOfLhs([c1, c2, i]);
    RowsAre(cols, Columns(L, |pts|, [c1, c2, i]));
    var created := LinearEquationSystem.Create(cols, lesLarge.rhsReduced);
    if created.Failure? {
      return Failure(IllegalArgument), null;
    }
    lesTriple := created.value;
    ghost var C := Columns(L, |pts|, [c1, c2, i]);
    assert Rows(lesTriple.lhs) == C && lesTriple.rhs[..] == b;
    ghost var thr := lesTriple.lhsThresholds;
    ghost var rthr := lesTriple.rhsThreshold;
    var solubility := lesTriple.SolveLesAsPossible();
    assert Solve(C, b, thr, rthr) == TripleOutcome(L, b, |pts|, c1, c2, i);
    return Success(solubility), lesTriple;
  }

  /** tryCalculatingReactionForcesForTriple: the sub-system shares the large system's reduced right-hand side array. */
  method TryCalculatingReactionForcesForTriple(pts: seq<ReactionPoint>, c1: nat, c2: nat, i: nat,
                                               lesLarge: LinearEquationSystem)
    returns (res: Result<Option<ReactionForces>>)
    requires lesLarge.lhsReduced != null && lesLarge.rhsReduced != null
    requires lesLarge.lhsReduced.Length0 == lesLarge.rhsReduced.Length && lesLarge.lhsReduced.Length1 == |pts|
    requires c1 < |pts| && c2 < |pts| && i < |pts|
    modifies lesLarge.rhsReduced
    ensures var a := TryTriple(old(Rows(lesLarge.lhsReduced)), old(lesLarge.rhsReduced[..]), pts, c1, c2, i);
      (a.Refused? ==> res == Failure(IllegalArgument) && lesLarge.rhsReduced[..] == old(lesLarge.rhsReduced[..])) &&
      (a.Solved? ==> res == Success(a.forces) && lesLarge.rhsReduced[..] == a.rhs)
  {
    ghost var L := Rows(lesLarge.lhsReduced);
    ghost var b := lesLarge.rhsReduced[..];
    var solved, lesTriple := SolveTriple(pts, c1, c2, i, lesLarge);
    if solved.Failure? {
      return Failure(IllegalArgument);
    }
    if solved.value == UniqueSolution {
      var specific := GetSpecificReactionPoints(pts, [c1, c2, i]);
      ThreeElements(specific, pts[c1], pts[c2], pts[i]);
      var forces := ReadReactionForcesFromLes(lesTriple, specific);
      ghost var o := TripleOutcome(L, b, |pts|, c1, c2, i);
      assert TryTriple(L, b, pts, c1, c2, i) == Solved(Some(forces), o.echelon.rhs);
      return Success(Some(forces));
    }
    return Success(None);
  }

  /** Two loop states from which the loops reach the same first candidate lead to the same search. */
  lemma SearchSkips(t: TripleSolver, q: seq<int>, b: seq<real>, i: nat, c1: nat, c2: nat, i': nat, c1': nat, c2': nat)
    requires c1 < c2 && c1' < c2'
    requires NextCandidate(q, i, c1, c2) == NextCandidate(q, i', c1', c2')
    ensures Search(t, q, b, i, c1, c2) == Search(t, q, b, i', c1', c2')
  {
  }

  /** The three ways a tried candidate continues the search. */
  lemma SearchTries(t: TripleSolver, q: seq<int>, b: seq<real>, i: nat, c1: nat, c2: nat)
    requires Candidate(q, i, c1, c2)
    ensures var a := t(b, c1, c2, i);
      var r := Search(t, q, b, i, c1, c2);
      (a.Refused? ==> r.result == Failure(IllegalArgument) && r.rhs == b) &&
      (a.Solved? && a.forces.Some? ==> r.result == Success(a.forces) && r.rhs == a.rhs) &&
      (a.Solved? && a.forces.None? ==> r == Search(t, q, a.rhs, i, c1, c2 + 1))
  {
    assert NextCandidate(q, i, c1, c2) == Some((i, c1, c2));
  }

  /** The requirements every step of the search loops shares: the reduced system of the points and their quadrants. */
  predicate SearchState(les: LinearEquationSystem, pts: seq<ReactionPoint>, quadrants: array<int>)
    reads les, quadrants
  {
    les.lhsReduced != null && les.rhsReduced != null &&
    les.lhsReduced.Length0 == les.rhsReduced.Length && les.lhsReduced.Length1 == |pts| &&
    quadrants.Length == |pts|
  }

  /**
   * One pass of the innermost loop: the combination (i, c1, c2) is tried
   * unless c2 shares a quadrant with c1 or i. Either the search ends here
   * (ended, with its result), or it goes on from c2 + 1.
   */
  method TrySecondPartner(les: LinearEquationSystem, pts: seq<ReactionPoint>, quadrants: array<int>, i: nat, c1: nat, c2: nat)
    returns (ended: bool, res: Result<Option<ReactionForces>>)
    requires SearchState(les, pts, quadrants) && c1 < c2 < i < |pts| && quadrants[c1] != quadrants[i]
    modifies les.rhsReduced
    ensures var t := SolverOf(old(Rows(les.lhsReduced)), pts);
      var r := Search(t, quadrants[..], old(les.rhsReduced[..]), i, c1, c2);
      (ended ==> res == r.result && les.rhsReduced[..] == r.rhs) &&
      (!ended ==> r == Search(t, quadrants[..], les.rhsReduced[..], i, c1, c2 + 1))
  {
    ghost var t := SolverOf(Rows(les.lhsReduced), pts);
    ghost var q := quadrants[..];
    ghost var b := les.rhsReduced[..];
    if quadrants[c2] == quadrants[i] || quadrants[c2] == quadrants[c1] {
      SearchSkips(t, q, b, i, c1, c2, i, c1, c2 + 1);
      return false, Success(None);
    }
    SearchTries(t, q, b, i, c1, c2);
    SolverOfTries(Rows(les.lhsReduced), pts, b, c1, c2, i);
    res := TryCalculatingReactionForcesForTriple(pts, c1, c2, i, les);
    ended := res.Failure? || res.value.Some?;
  }

  /**
   * The innermost loop of handleIndeterminateSystem: the partners c2 of c1
   * and i. Either the search ends here (ended, with its result), or it goes
   * on from the next c1 on the right-hand side the tried triples left.
   */
  method SearchSecondPartners(les: LinearEquationSystem, pts: seq<ReactionPoint>, quadrants: array<int>, i: nat, c1: nat)
    returns (ended: bool, res: Result<Option<ReactionForces>>)
    requires SearchState(les, pts, quadrants) && c1 < i < |pts| && quadrants[c1] != quadrants[i]
    modifies les.rhsReduced
    ensures var t := SolverOf(old(Rows(les.lhsReduced)), pts);
      var r := Search(t, quadrants[..], old(les.rhsReduced[..]), i, c1, c1 + 1);
      (ended ==> res == r.result && les.rhsReduced[..] == r.rhs) &&
      (!ended ==> r == Search(t, quadrants[..], les.rhsReduced[..], i, c1 + 1, c1 + 2))
  {
    ghost var t := SolverOf(Rows(les.lhsReduced), pts);
    ghost var q := quadrants[..];
    ghost var goal := Search(t, q, les.rhsReduced[..], i, c1, c1 + 1);
    var c2 := c1 + 1;
    while c2 < i
      invariant c1 < c2 <= i
      invariant SolverOf(Rows(les.lhsReduced), pts) == t && quadrants[..] == q
      invariant Search(t, q, les.rhsReduced[..], i, c1, c2) == goal
    {
      ended, res := TrySecondPartner(les, pts, quadrants, i, c1, c2);
      if ended {
        return;
      }
      c2 := c2 + 1;
    }
    SearchSkips(t, q, les.rhsReduced[..], i, c1, c2, i, c1 + 1, c1 + 2);
    return false, Success(None);
  }

  /**
   * One pass of the middle loop: the partners of c1 and i are searched
   * unless c1 shares i's quadrant. Either the search ends here (ended, with
   * its result), or it goes on from c1 + 1.
   */
  method TryFirstPartner(les: LinearEquationSystem, pts: seq<ReactionPoint>, quadrants: array<int>, i: nat, c1: nat)
    returns (ended: bool, res: Result<Option<ReactionForces>>)
    requires SearchState(les, pts, quadrants) && c1 < i < |pts|
    modifies les.rhsReduced
    ensures var t := SolverOf(old(Rows(les.lhsReduced)), pts);
      var r := Search(t, quadrants[..], old(les.rhsReduced[..]), i, c1, c1 + 1);
      (ended ==> res == r.result && les.rhsReduced[..] == r.rhs) &&
      (!ended ==> r == Search(t, quadrants[..], les.rhsReduced[..], i, c1 + 1, c1 + 2))
  {
    if quadrants[c1] == quadrants[i] {
      SearchSkips(SolverOf(Rows(les.lhsReduced), pts), quadrants[..], les.rhsReduced[..], i, c1, c1 + 1, i, c1 + 1, c1 + 2);
      return false, Success(None);
    }
    ended, res := SearchSecondPartners(les, pts, quadrants, i, c1);
  }

  /** The middle loop: the first partners c1 of i, skipping those in i's quadrant. */
  method SearchFirstPartners(les: LinearEquationSystem, pts: seq<ReactionPoint>, quadrants: array<int>, i: nat)
    returns (ended: bool, res: Result<Option<ReactionForces>>)
    requires SearchState(les, pts, quadrants) && i < |pts|
    modifies les.rhsReduced
    ensures var t := SolverOf(old(Rows(les.lhsReduced)), pts);
      var r := Search(t, quadrants[..], old(les.rhsReduced[..]), i, 0, 1);
      (ended ==> res == r.result && les.rhsReduced[..] == r.rhs) &&
      (!ended ==> r == Search(t, quadrants[..], les.rhsReduced[..], i + 1, 0, 1))
  {
    ghost var t := SolverOf(Rows(les.lhsReduced), pts);
    ghost var q := quadrants[..];
    ghost var goal := Search(t, q, les.rhsReduced[..], i, 0, 1);
    var c1 := 0;
    while c1 < i
      invariant c1 <= i
      invariant SolverOf(Rows(les.lhsReduced), pts) == t && quadrants[..] == q
      invariant Search(t, q, les.rhsReduced[..], i, c1, c1 + 1) == goal
    {
      ended, res := TryFirstPartner(les, pts, quadrants, i, c1);
      if ended {
        return;
      }
      c1 := c1 + 1;
    }
    SearchSkips(t, q, les.rhsReduced[..], i, c1, c1 + 1, i + 1, 0, 1);
    return false, Success(None);
  }

  /** handleIndeterminateSystem: the outer loop over i, from the third point on. */
  method HandleIndeterminateSystem(les: LinearEquationSystem, pts: seq<ReactionPoint>, resultant: Force)
    returns (res: Result<Option<ReactionForces>>)
    requires les.lhsReduced != null && les.rhsReduced != null
    requires les.lhsReduced.Length0 == les.rhsReduced.Length && les.lhsReduced.Length1 == |pts|
    modifies les.rhsReduced
    ensures var r := Search(SolverOf(old(Rows(les.lhsReduced)), pts), Quadrants(pts, resultant.point),
                            old(les.rhsReduced[..]), 2, 0, 1);
      res == r.result && les.rhsReduced[..] == r.rhs
  {
    var quadrants := DeriveQuadrantsOfReactionPoints(pts, resultant);
    ghost var t := SolverOf(Rows(les.lhsReduced), pts);
    ghost var q := quadrants[..];
    ghost var goal := Search(t, q, les.rhsReduced[..], 2, 0, 1);
    var i := 2;
    while i < |pts|
      invariant 2 <= i && (i == 2 || i <= |pts|)
      invariant SolverOf(Rows(les.lhsReduced), pts) == t && quadrants[..] == q
      invariant Search(t, q, les.rhsReduced[..], i, 0, 1) == goal
    {
      var ended;
      ended, res := SearchFirstPartners(les, pts, quadrants, i);
      if ended {
        return;
      }
      i := i + 1;
    }
    assert NextCandidate(q, i, 0, 1) == None;
    return Success(None);
  }

  // ---------------------------------------------------------------------------
  // One sequence step
  // ---------------------------------------------------------------------------

  /** The moment system of the sorted points at step s, solved as far as possible. */
  function LesOutcome(s: int, sorted: seq<ReactionPoint>, resultant: Force): Outcome
    requires |sorted| > 0
  {
    var M := LesMatrix(s, sorted);
    var b := LesRhs(s, sorted, resultant);
    Solve(M, b, Thresholds(M, |sorted|), ToleranceOf(b))
  }

  /**
   * The distribution of the resultant onto the sorted points at step s
   * (Success(None) for the source's null): a unique solution is read over
   * all points, infinitely many solutions start the triple search on the
   * reduced system, and no solution is null.
   */
  function Distribution(s: int, sorted: seq<ReactionPoint>, resultant: Force): Result<Option<ReactionForces>>
    requires |sorted| > 0
  {
    var M := LesMatrix(s, sorted);
    var b := LesRhs(s, sorted, resultant);
    var o := LesOutcome(s, sorted, resultant);
    match o.solubility
    case UniqueSolution =>
      UniqueSolutionSolvesReducedSystem(M, b, Thresholds(M, |sorted|), ToleranceOf(b), 0);
      Success(Some(ReadForces(sorted, o.solution.value)))
    case InfiniteSolutions =>
      InfiniteSolutionsLeaveReducedSystem(M, b, Thresholds(M, |sorted|), ToleranceOf(b));
      Search(SolverOf(o.lhsReduced.value, sorted), Quadrants(sorted, resultant.point), o.rhsReduced.value, 2, 0, 1).result
    case NoSolution => Success(None)
  }

  /**
   * calculateReactionForcesForSequence: the points in the order the step
   * sorts them into, and their distribution. Without points nothing is
   * sorted and the result is null.
   */
  function ForSequence(s: int, pts: seq<ReactionPoint>, resultant: Force): (seq<ReactionPoint>, Result<Option<ReactionForces>>)
  {
    if |pts| == 0 then (pts, Success(None))
    else
      var sorted := SortByDistance(pts, resultant.point);
      (sorted, Distribution(s, sorted, resultant))
  }

  /** The item labels below a list of reaction points. */
  function Labels(pts: seq<ReactionPoint>): set<string> {
    set rp | rp in pts :: rp.item.itemLabel
  }

  /** Reordering the points keeps their labels. */
  lemma PermutedLabels(a: seq<ReactionPoint>, b: seq<ReactionPoint>)
    requires multiset(a) == multiset(b)
    ensures Labels(a) == Labels(b)
  {
    forall rp ensures rp in a <==> rp in b {
      assert rp in a <==> rp in multiset(a);
      assert rp in b <==> rp in multiset(b);
    }
  }

  /** With a unique solution every force pushes and loads an item below one of the points. */
  lemma UniqueDistributionIsSound(s: int, sorted: seq<ReactionPoint>, resultant: Force)
    requires |sorted| > 0 && LesOutcome(s, sorted, resultant).solubility == UniqueSolution
    ensures var res := Distribution(s, sorted, resultant);
      res.Success? && res.value.Some? && Pushes(res.value.value) &&
      forall l :: l in res.value.value ==> l in Labels(sorted)
  {
    var M := LesMatrix(s, sorted);
    var b := LesRhs(s, sorted, resultant);
    UniqueSolutionSolvesReducedSystem(M, b, Thresholds(M, |sorted|), ToleranceOf(b), 0);
    var sol := LesOutcome(s, sorted, resultant).solution.value;
    assert Distribution(s, sorted, resultant) == Success(Some(ReadForces(sorted, sol)));
    ReadForcesPush(sorted, sol);
    forall l | l in ReadForces(sorted, sol) ensures l in Labels(sorted) {
      ReadForcesGroupsByLabel(sorted, sol, l);
      var k :| 0 <= k < |sorted| && sorted[k].item.itemLabel == l;
    }
  }

  /**
   * With infinitely many solutions the triple search fails only when the
   * rank is below three; a distribution it finds pushes and loads only
   * items below the points.
   */
  lemma InfiniteDistributionIsSound(s: int, sorted: seq<ReactionPoint>, resultant: Force)
    requires |sorted| > 0 && LesOutcome(s, sorted, resultant).solubility == InfiniteSolutions
    ensures var res := Distribution(s, sorted, resultant);
      (res.Success? && res.value.Some? ==> Pushes(res.value.value) && forall l :: l in res.value.value ==> l in Labels(sorted)) &&
      (res.Failure? ==> res.error == IllegalArgument && LesOutcome(s, sorted, resultant).echelon.rankCoefficient < 3)
  {
    var M := LesMatrix(s, sorted);
    var b := LesRhs(s, sorted, resultant);
    var o := LesOutcome(s, sorted, resultant);
    InfiniteSolutionsLeaveReducedSystem(M, b, Thresholds(M, |sorted|), ToleranceOf(b));
    var L := o.lhsReduced.value;
    var q := Quadrants(sorted, resultant.point);
    SolverOfIsSound(L, sorted, q);
    SearchFindsDistinctQuadrants(SolverOf(L, sorted), q, sorted, o.rhsReduced.value, 2, 0, 1);
    var r := Search(SolverOf(L, sorted), q, o.rhsReduced.value, 2, 0, 1);
    assert Distribution(s, sorted, resultant) == r.result;
  }

  /**
   * A step leaves the points permuted and sorted by distance, loads only
   * items below them and never pulls; it fails only with an
   * IllegalArgumentException, when the moment system has infinitely many
   * solutions and rank below three, so the triple systems are too small.
   */
  lemma ForSequenceDistributes(s: int, pts: seq<ReactionPoint>, resultant: Force)
    ensures var (sorted, res) := ForSequence(s, pts, resultant);
      multiset(sorted) == multiset(pts) && SortedByDistance(sorted, resultant.point) &&
      (res.Success? && res.value.Some? ==> Pushes(res.value.value) && forall l :: l in res.value.value ==> l in Labels(pts)) &&
      (res.Failure? ==>
        res.error == IllegalArgument && |pts| > 0 &&
        LesOutcome(s, sorted, resultant).solubility == InfiniteSolutions &&
        LesOutcome(s, sorted, resultant).echelon.rankCoefficient < 3)
  {
    if |pts| > 0 {
      var sorted := SortByDistance(pts, resultant.point);
      SortByDistanceSorts(pts, resultant.point);
      PermutedLabels(sorted, pts);
      match LesOutcome(s, sorted, resultant).solubility
      case UniqueSolution => UniqueDistributionIsSound(s, sorted, resultant);
      case InfiniteSolutions => InfiniteDistributionIsSound(s, sorted, resultant);
      case NoSolution =>
    }
  }

  /** calculateReactionForcesForSequence: sort, build and solve the moment system, then read or search. */
  method CalculateReactionForcesForSequence(s: int, pts: seq<ReactionPoint>, resultant: Force)
    returns (sorted: seq<ReactionPoint>, res: Result<Option<ReactionForces>>)
    ensures (sorted, res) == ForSequence(s, pts, resultant)
  {
    if |pts| == 0 {
      return pts, Success(None);
    }
    sorted := SortByDistance(pts, resultant.point);
    var les := CreateLes(s, sorted, resultant);
    var solubility := les.SolveLesAsPossible();
    ghost var M := LesMatrix(s, sorted);
    ghost var b := LesRhs(s, sorted, resultant);
    match solubility
    case UniqueSolution =>
      UniqueSolutionSolvesReducedSystem(M, b, les.lhsThresholds, les.rhsThreshold, 0);
      var m := ReadReactionForcesFromLes(les, sorted);
      res := Success(Some(m));
    case InfiniteSolutions =>
      InfiniteSolutionsLeaveReducedSystem(M, b, les.lhsThresholds, les.rhsThreshold);
      res := HandleIndeterminateSystem(les, sorted, resultant);
    case NoSolution =>
      res := Success(None);
  }

  // ---------------------------------------------------------------------------
  // All sequence steps
  // ---------------------------------------------------------------------------

  /** One sequence step: the order it leaves the points in and its distribution. */
  type SequenceStep = (int, seq<ReactionPoint>, Force) -> (seq<ReactionPoint>, Result<Option<ReactionForces>>)

  /** calculateReactionForcesForSequence as a step. */
  function StepOfSequence(): SequenceStep {
    (s: int, pts: seq<ReactionPoint>, resultant: Force) => ForSequence(s, pts, resultant)
  }

  lemma StepOfSequenceIsForSequence(s: int, pts: seq<ReactionPoint>, resultant: Force)
    ensures StepOfSequence()(s, pts, resultant) == ForSequence(s, pts, resultant)
  {
  }

  /**
   * calculateReactionForces over the steps start .. j-1. Each step sorts the
   * one shared list of points in place, so a step starts from the order the
   * previous one left; an exception of a step ends the calculation.
   */
  function StepsUpTo(step: SequenceStep, start: int, j: int, pts: seq<ReactionPoint>, resultants: map<int, Force>)
    : (seq<ReactionPoint>, Result<map<int, ReactionForces>>)
    requires start <= j && forall k :: start <= k < j ==> k in resultants
    decreases j - start
  {
    if j == start then (pts, Success(map[]))
    else
      var (order, sofar) := StepsUpTo(step, start, j - 1, pts, resultants);
      if sofar.Failure? then (order, sofar)
      else
        var (order', d) := step(j - 1, order, resultants[j - 1]);
        if d.Failure? then (order', Failure(d.error))
        else if d.value.Some? then (order', Success(sofar.value[j - 1 := d.value.value]))
        else (order', sofar)
  }

  /** The points as step k finds them, and that step's distribution. */
  function StepAt(step: SequenceStep, start: int, k: int, pts: seq<ReactionPoint>, resultants: map<int, Force>)
    : (seq<ReactionPoint>, Result<Option<ReactionForces>>)
    requires start <= k && forall k' :: start <= k' <= k ==> k' in resultants
  {
    step(k, StepsUpTo(step, start, k, pts, resultants).0, resultants[k])
  }

  /** calculateReactionForces: the final order of the points and the distributions per step. */
  function ReactionForcesPerSequence(start: int, max: int, pts: seq<ReactionPoint>, resultants: map<int, Force>)
    : (seq<ReactionPoint>, Result<map<int, ReactionForces>>)
    requires forall k :: start <= k < max ==> k in resultants
  {
    if max <= start then (pts, Success(map[])) else StepsUpTo(StepOfSequence(), start, max, pts, resultants)
  }

  /**
   * What the calculation needs of a step: it permutes the points, fails
   * only with an IllegalArgumentException, and its distributions push and
   * load only items below the points.
   */
  ghost predicate SoundStep(step: SequenceStep) {
    forall s: int, pts: seq<ReactionPoint>, resultant: Force ::
      multiset(step(s, pts, resultant).0) == multiset(pts) &&
      (step(s, pts, resultant).1.Failure? ==> step(s, pts, resultant).1.error == IllegalArgument) &&
      (step(s, pts, resultant).1.Success? && step(s, pts, resultant).1.value.Some? ==>
        Pushes(step(s, pts, resultant).1.value.value) &&
        forall l :: l in step(s, pts, resultant).1.value.value ==> l in Labels(pts))
  }

  lemma StepOfSequenceIsSound()
    ensures SoundStep(StepOfSequence())
  {
    forall s: int, pts: seq<ReactionPoint>, resultant: Force
      ensures var r := StepOfSequence()(s, pts, resultant);
        multiset(r.0) == multiset(pts) && (r.1.Failure? ==> r.1.error == IllegalArgument) &&
        (r.1.Success? && r.1.value.Some? ==> Pushes(r.1.value.value) && forall l :: l in r.1.value.value ==> l in Labels(pts))
    {
      StepOfSequenceIsForSequence(s, pts, resultant);
      ForSequenceDistributes(s, pts, resultant);
    }
  }

  /**
   * With a sound step the points stay a permutation of the input; a failure
   * is an IllegalArgumentException; and every distribution recorded belongs
   * to one of the steps, pushes and loads only items below the points.
   */
  lemma {:induction false} StepsDistribute(step: SequenceStep, start: int, j: int, pts: seq<ReactionPoint>,
                                           resultants: map<int, Force>)
    requires start <= j && forall k :: start <= k < j ==> k in resultants
    requires SoundStep(step)
    ensures var (order, res) := StepsUpTo(step, start, j, pts, resultants);
      multiset(order) == multiset(pts) &&
      (res.Failure? ==> res.error == IllegalArgument) &&
      (res.Success? ==> forall k :: k in res.value ==>
         start <= k < j && Pushes(res.value[k]) && forall l :: l in res.value[k] ==> l in Labels(pts))
    decreases j - start
  {
    if j > start {
      StepsDistribute(step, start, j - 1, pts, resultants);
      var (order, sofar) := StepsUpTo(step, start, j - 1, pts, resultants);
      if sofar.Success? {
        PermutedLabels(order, pts);
      }
    }
  }

  /** When no step fails, a step is a key exactly when its distribution is not null, and maps to that distribution. */
  lemma {:induction false} StepsRecordEachStep(step: SequenceStep, start: int, j: int, pts: seq<ReactionPoint>,
                                               resultants: map<int, Force>)
    requires start <= j && forall k :: start <= k < j ==> k in resultants
    ensures var res := StepsUpTo(step, start, j, pts, resultants).1;
      res.Success? ==>
        (forall k :: k in res.value ==> start <= k < j) &&
        forall k :: start <= k < j ==>
          var d := StepAt(step, start, k, pts, resultants).1;
          d.Success? && (k in res.value <==> d.value.Some?) && (k in res.value ==> res.value[k] == d.value.value)
    decreases j - start
  {
    if j > start {
      StepsRecordEachStep(step, start, j - 1, pts, resultants);
      var (order, sofar) := StepsUpTo(step, start, j - 1, pts, resultants);
      var res := StepsUpTo(step, start, j, pts, resultants).1;
      if res.Success? {
        assert sofar.Success?;
        var d := StepAt(step, start, j - 1, pts, resultants).1;
        assert d == step(j - 1, order, resultants[j - 1]).1;
        assert j - 1 !in sofar.value;
        forall k | start <= k < j
          ensures var d' := StepAt(step, start, k, pts, resultants).1;
            d'.Success? && (k in res.value <==> d'.value.Some?) && (k in res.value ==> res.value[k] == d'.value.value)
        {
          if k < j - 1 {
            assert (k in res.value <==> k in sofar.value) && (k in res.value ==> res.value[k] == sofar.value[k]);
          }
        }
      }
    }
  }

  /** One more step after steps that succeeded, as the loop of calculateReactionForces takes it. */
  lemma StepsUpToNext(step: SequenceStep, start: int, i: int, pts: seq<ReactionPoint>, resultants: map<int, Force>,
                      before: seq<ReactionPoint>, m: map<int, ReactionForces>)
    requires start <= i && forall k :: start <= k <= i ==> k in resultants
    requires StepsUpTo(step, start, i, pts, resultants) == (before, Success(m))
    ensures var (after, d) := step(i, before, resultants[i]);
      StepsUpTo(step, start, i + 1, pts, resultants) ==
        if d.Failure? then (after, Failure(d.error))
        else if d.value.Some? then (after, Success(m[i := d.value.value]))
        else (after, Success(m))
  {
  }

  /** An exception ends the calculation: later steps change neither the order nor the outcome. */
  lemma {:induction false} FailureEndsSteps(step: SequenceStep, start: int, i: int, j: int, pts: seq<ReactionPoint>,
                                            resultants: map<int, Force>)
    requires start <= i <= j && forall k :: start <= k < j ==> k in resultants
    requires StepsUpTo(step, start, i, pts, resultants).1.Failure?
    ensures StepsUpTo(step, start, j, pts, resultants) == StepsUpTo(step, start, i, pts, resultants)
    decreases j - i
  {
    if j > i {
      FailureEndsSteps(step, start, i, j - 1, pts, resultants);
    }
  }

  /** Without reaction points no step of calculateReactionForcesForSequence distributes anything. */
  lemma {:induction false} NoPointsNoForces(start: int, j: int, resultants: map<int, Force>)
    requires start <= j && forall k :: start <= k < j ==> k in resultants
    ensures StepsUpTo(StepOfSequence(), start, j, [], resultants) == ([], Success(map[]))
    decreases j - start
  {
    if j > start {
      NoPointsNoForces(start, j - 1, resultants);
      StepOfSequenceIsForSequence(j - 1, [], resultants[j - 1]);
    }
  }

  /**
   * calculateReactionForces leaves the points a permutation of the input and
   * fails only with an IllegalArgumentException; it records distributions
   * only for steps from start to max, each of which pushes and loads only
   * items below the points; without points it records none.
   */
  lemma ReactionForcesPerSequenceDistribute(start: int, max: int, pts: seq<ReactionPoint>, resultants: map<int, Force>)
    requires forall k :: start <= k < max ==> k in resultants
    ensures var (order, res) := ReactionForcesPerSequence(start, max, pts, resultants);
      multiset(order) == multiset(pts) &&
      (res.Failure? ==> res.error == IllegalArgument) &&
      (res.Success? ==> forall k :: k in res.value ==>
         start <= k < max && Pushes(res.value[k]) && forall l :: l in res.value[k] ==> l in Labels(pts)) &&
      (pts == [] ==> res == Success(map[]))
  {
    if max > start {
      StepOfSequenceIsSound();
      StepsDistribute(StepOfSequence(), start, max, pts, resultants);
      if pts == [] {
        NoPointsNoForces(start, max, resultants);
      }
    }
  }

  /** calculateReactionForces: one step per sequence from start to max, keyed by the steps that distribute. */
  method CalculateReactionForces(start: int, max: int, pts: seq<ReactionPoint>, resultants: map<int, Force>)
    returns (order: seq<ReactionPoint>, res: Result<map<int, ReactionForces>>)
    requires forall k :: start <= k < max ==> k in resultants
    ensures (order, res) == ReactionForcesPerSequence(start, max, pts, resultants)
  {
    var m: map<int, ReactionForces> := map[];
    order := pts;
    ghost var step := StepOfSequence();
    var i := start;
    while i < max
      invariant start <= i && (i <= max || i == start)
      invariant StepsUpTo(step, start, i, pts, resultants) == (order, Success(m))
    {
      var d;
      ghost var before := order;
      StepOfSequenceIsForSequence(i, order, resultants[i]);
      order, d := CalculateReactionForcesForSequence(i, order, resultants[i]);
      StepsUpToNext(step, start, i, pts, resultants, before, m);
      if d.Failure? {
        FailureEndsSteps(step, start, i + 1, max, pts, resultants);
        return order, Failure(d.error);
      }
      if d.value.Some? {
        m := m[i := d.value.value];
      }
      i := i + 1;
    }
    res := Success(m);
  }
}
