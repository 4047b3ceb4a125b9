# Palletizing stability benchmark — verified model of the stability assessors

This project models, in Dafny, the stability assessment core of the
palletizing stability benchmark. A loading unit (ULD) holds placed items
(boxes and other shapes with coordinates, a weight, a centre-of-mass offset
and a place in the packing sequence). The model covers:

- the **Science-of-Static force-balance assessor**:
  - the centre-of-mass requirement check;
  - the gravitation force;
  - the action forces that items on top hand down at each sequence step;
  - the resultant force;
  - the reaction points on the items below;
  - the distribution of the resultant over those points by a 2n×n
    moment-balance linear equation system. The system is solved by
    partial-pivot Gaussian elimination and classified as unique, infinite
    or no solution.
  - the search for three points in distinct quadrants when the system is
    indeterminate;
  - the per-sequence stability array;
  - the force-item repository and manager, which memoise these results
    items-on-top first;
  - the assessment service, which assembles the item × sequence stability
    matrix and maps failures to -1;
- the **support graph**: the below/on-top relations built pairwise over the
  items of a unit, and the neighbour relation;
- the **box-only heuristic criteria**:
  - full and partial base support;
  - Pacquay (three of four footprint corners supported);
  - Ramos (the resultant at each sequence step inside the support polygon);
  - Ramos as implemented by Krebs;
  - Krebs (corridors and level extents);
- the **geometry helpers** of `Box` and `Shape3D`, the `ULD` class, and
  `ULDProperties`, including the random placement rule for solution items.

Each Java file becomes one module. Classes whose fields the Java code
updates in place are classes here:

- the linear equation system over `array2`/`array`;
- the force-item repository and manager;
- the ULD;
- the volume cache;
- the ULD properties;
- the random source and the solution item.

Their methods are proved against specification functions, and the lemmas
beside those functions state what the code promises.

Some of the Java behaviour is modelled in explicit terms:

- Java exceptions become `Result`/`Option` values. These are
  IllegalArgumentException, IllegalStateException, TopologyException,
  NullPointerException, ClassCastException and NoSuchElementException.
- Hash-map iteration order is an explicit parameter.
- `double` arithmetic is modelled on `real`:
  - a division that may yield NaN or an infinity is a `Quotient`;
  - `Math.round(v * 100) / 100.0` and its four-decimal variant are the
    saturating nearest-integer rounding of `Numerics`;
  - 32-bit `int` sums and products wrap around explicitly.
- Queries into code outside the model are function-valued parameters:
  - convex-hull containment and contact points;
  - base-geometry validity and base support geometry;
  - the minimal resting height of one item over another;
  - the side and neighbourhood tests;
  - the random generator.

The support graph is required to be layered: every item below another lies
strictly lower. This holds for every graph the support pass builds from a
sound height query, and it is what makes the recursive criteria and the
manager's recursion terminate. On a cyclic graph the Java code would
overflow its stack.

Two orderings in the code are not antisymmetric, and the model states
this:

- `PlacedItem.compareTo` never answers 0, so two items of the same
  sequence step each compare as the smaller one.
- `Box.compareTo` answers -1 both ways for two different boxes of equal
  volume.

The sort of placed items is modelled as an insertion by sequence number.

## Model

| member | source | states |
|---|---|---|
| GravitationForceCalculator.CalculateGravitationForce | 03_stability_approaches/staticStability/assessment/sme/ForceLogic/ForceCalculation/GravitationForceCalculator.java:22-28 | the force acts at (x, z) of the centre of mass, and its magnitude is weight times 9.81 rounded to two decimals |
| GravitationForceCalculator.MagnitudeIsCloseToWeightForce | 03_stability_approaches/staticStability/assessment/sme/ForceLogic/ForceCalculation/GravitationForceCalculator.java:24-25 | the rounded magnitude lies within half a hundredth of weight times 9.81 |
| GravitationForceCalculator.ZeroWeightHasZeroForce | 03_stability_approaches/staticStability/assessment/sme/ForceLogic/ForceCalculation/GravitationForceCalculator.java:25 | a weight of 0 gives a magnitude of 0 |
| GravitationForceCalculator.HeightIsIgnored | 03_stability_approaches/staticStability/assessment/sme/ForceLogic/ForceCalculation/GravitationForceCalculator.java:27 | the y of the centre of mass has no effect on the force |
| GravitationForceCalculator.MagnitudeIsMonotone | 03_stability_approaches/staticStability/assessment/sme/ForceLogic/ForceCalculation/GravitationForceCalculator.java:24-25 | a heavier item never gets a smaller magnitude |
| RequirementCheck.IntAbs | 03_stability_approaches/staticStability/assessment/sme/ForceLogic/ForceCalculation/RequierementCheckService.java:8-10 | Java's Math.abs on an int: the magnitude, except that the most negative int maps to itself |
| RequirementCheck.AssertComIsCorrect | 03_stability_approaches/staticStability/assessment/sme/ForceLogic/ForceCalculation/RequierementCheckService.java:6-17 | succeeds iff each offset is at most half of the absolute extent on its axis; every other case is an IllegalArgumentException |
| RequirementCheck.HalfExtentIsAccepted | 03_stability_approaches/staticStability/assessment/sme/ForceLogic/ForceCalculation/RequierementCheckService.java:8-13 | offsets of exactly half an extent pass, in either direction, because the comparison is strict |
| RequirementCheck.BeyondHalfWidthIsRejected | 03_stability_approaches/staticStability/assessment/sme/ForceLogic/ForceCalculation/RequierementCheckService.java:8-16 | an x offset beyond half the width throws IllegalArgumentException, whatever the other axes hold |
| RequirementCheck.CentredMassPasses | 03_stability_approaches/staticStability/assessment/sme/ForceLogic/ForceCalculation/RequierementCheckService.java:7-16 | a zero offset passes for any extent other than the most negative int |
| RequirementCheck.MostNegativeExtentRejectsAll | 03_stability_approaches/staticStability/assessment/sme/ForceLogic/ForceCalculation/RequierementCheckService.java:8 | a width of Integer.MIN_VALUE rejects every offset, even zero |
| ItemStabilityAssessor.StabilityRow | 03_stability_approaches/staticStability/assessment/sme/ForceLogic/ItemStabilityAssessor.java:27-35 | the row has length maxSequence |
| ItemStabilityAssessor.GetStabilityFromReactionForcesPerSequence | 03_stability_approaches/staticStability/assessment/sme/ForceLogic/ItemStabilityAssessor.java:27-35 | a fresh array of length maxSequence whose contents are the stability row of the keys of the reaction-force map |
| ItemStabilityAssessor.StabilityRowEntries | 03_stability_approaches/staticStability/assessment/sme/ForceLogic/ItemStabilityAssessor.java:29-33 | entries before startSequence are null; from there on an entry is true iff the map has that step, and false iff it does not |
| ItemStabilityAssessor.OnlyStepsInRangeMatter | 03_stability_approaches/staticStability/assessment/sme/ForceLogic/ItemStabilityAssessor.java:31-33 | two maps that agree on [start, max) give the same row |
| ActionForceGatherer.ReactionForceFor | 03_stability_approaches/staticStability/assessment/sme/ForceLogic/ForceCalculation/ActionForceGatherer.java:56-63 | the upper item's forces on this label at step s; empty when the step or the label is missing |
| ActionForceGatherer.GatherRelatedActionForcesFromTopItems | 03_stability_approaches/staticStability/assessment/sme/ForceLogic/ForceCalculation/ActionForceGatherer.java:26-45 | the nested loops build exactly the per-step map of the concatenated upper forces |
| ActionForceGatherer.ActionForcesKeys | 03_stability_approaches/staticStability/assessment/sme/ForceLogic/ForceCalculation/ActionForceGatherer.java:28-43 | without items on top the map is empty; otherwise its keys are exactly [startSequence, maxSequence) |
| ActionForceGatherer.GatheredFromUpperItems | 03_stability_approaches/staticStability/assessment/sme/ForceLogic/ForceCalculation/ActionForceGatherer.java:36-62 | a force is gathered at step s iff some upper item exerts it on this label at s |
| ActionForceGatherer.GatheredLength | 03_stability_approaches/staticStability/assessment/sme/ForceLogic/ForceCalculation/ActionForceGatherer.java:36-40 | the length of the list at s is the sum of what each upper item contributes |
| ActionForceGatherer.ContributorsArePlacedBefore | 03_stability_approaches/staticStability/assessment/sme/ForceLogic/ForceCalculation/ActionForceGatherer.java:58 | when upper items have reaction forces only from their own step on, every contributor at s has sequence at most s |
| ResultantForceCalculator.CalculateResultantForce | 03_stability_approaches/staticStability/assessment/sme/ForceLogic/ForceCalculation/ResultantForceCalculator.java:52-75 | the accumulating loop yields the summed magnitude, applied at the weighted mean point rounded to two decimals |
| ResultantForceCalculator.CalculateResultantForcesForAllSequences | 03_stability_approaches/staticStability/assessment/sme/ForceLogic/ForceCalculation/ResultantForceCalculator.java:30-41 | the loop fills exactly the map of resultants over [sequence, maxSequence) |
| ResultantForceCalculator.ResultantsForKeys | 03_stability_approaches/staticStability/assessment/sme/ForceLogic/ForceCalculation/ResultantForceCalculator.java:33-40 | the keys are exactly [sequence, maxSequence); a step with no action entry gets the resultant of gravitation alone |
| ResultantForceCalculator.ResultantWithoutActionsIsGravitation | 03_stability_approaches/staticStability/assessment/sme/ForceLogic/ForceCalculation/ResultantForceCalculator.java:55-69 | without action forces the resultant is the gravitation force, its point rounded to two decimals |
| ResultantForceCalculator.WeightlessUnloadedItemResultsAtOrigin | 03_stability_approaches/staticStability/assessment/sme/ForceLogic/ForceCalculation/ResultantForceCalculator.java:66-69 | with no weight and no load, 0/0 is NaN, which rounds to 0: the resultant is the zero force at the origin |
| ResultantForceCalculator.MagnitudeSumAppend | 03_stability_approaches/staticStability/assessment/sme/ForceLogic/ForceCalculation/ResultantForceCalculator.java:61-62 | the magnitude sum of a concatenation is the sum of the parts |
| ResultantForceCalculator.TotalIsAdditive | 03_stability_approaches/staticStability/assessment/sme/ForceLogic/ForceCalculation/ResultantForceCalculator.java:55-62 | the resultant magnitude is the gravitation magnitude plus every action magnitude, unrounded |
| ResultantForceCalculator.MomentXBounded | 03_stability_approaches/staticStability/assessment/sme/ForceLogic/ForceCalculation/ResultantForceCalculator.java:57-64 | for pressing forces within [lo, hi] the x moment lies between lo and hi times the magnitude sum |
| ResultantForceCalculator.MeanXWithinSpan | 03_stability_approaches/staticStability/assessment/sme/ForceLogic/ForceCalculation/ResultantForceCalculator.java:57-69 | for a weighted item and pressing forces within [lo, hi] the total magnitude is positive and the moment-weighted x, before rounding, lies in [lo, hi] |
| ResultantForceCalculator.ResultantWithinSpan | 03_stability_approaches/staticStability/assessment/sme/ForceLogic/ForceCalculation/ResultantForceCalculator.java:57-69 | for a weighted item and pressing forces, the resultant x is the rounded weighted mean and lies within the span of the points, up to the rounding |
| ResultantForceCalculator.ConcentricForcesKeepPoint | 03_stability_approaches/staticStability/assessment/sme/ForceLogic/ForceCalculation/ResultantForceCalculator.java:57-69 | forces that all act at the item's own x keep the resultant there |
| ReactionPointCalculator.Tag | 03_stability_approaches/staticStability/assessment/sme/ForceLogic/ForceCalculation/ReactionPointCalculator.java:58-60 | each contact point is paired, in order, with the item below that produced it |
| ReactionPointCalculator.CalculateReactionPoints | 03_stability_approaches/staticStability/assessment/sme/ForceLogic/ForceCalculation/ReactionPointCalculator.java:26-64 | the two loops build exactly the tagged contact points, in the order of the items below |
| ReactionPointCalculator.ReactionPointsFailIff | 03_stability_approaches/staticStability/assessment/sme/ForceLogic/ForceCalculation/ReactionPointCalculator.java:28-56 | the computation fails, with a TopologyException, iff there is an item below and the item's base is invalid |
| ReactionPointCalculator.ReactionPointsAreTaggedContacts | 03_stability_approaches/staticStability/assessment/sme/ForceLogic/ForceCalculation/ReactionPointCalculator.java:30-60 | on success, a reaction point is listed iff it is a contact point with one of the items below, tagged with that item |
| ReactionPointCalculator.NothingBelowMeansNoReactionPoints | 03_stability_approaches/staticStability/assessment/sme/ForceLogic/ForceCalculation/ReactionPointCalculator.java:28-35 | an empty below-set gives an empty list |
| ReactionPointCalculator.ReactionPointCount | 03_stability_approaches/staticStability/assessment/sme/ForceLogic/ForceCalculation/ReactionPointCalculator.java:28-35 | the number of reaction points is the sum of the contact-point counts |
| ForceItemCalculation.ComCheckComesFirst | 03_stability_approaches/staticStability/assessment/sme/ForceLogic/ForceCalculation/ForceItemCalculation.java:34-37 | an invalid centre of mass makes creation fail with IllegalArgumentException before any force is computed |
| ForceItemCalculation.CreationFailures | 03_stability_approaches/staticStability/assessment/sme/ForceLogic/ForceCalculation/ForceItemCalculation.java:31-67 | creation fails only with IllegalArgumentException, or with TopologyException when there is an item below |
| ForceItemCalculation.CreatedItemSpansItsSteps | 03_stability_approaches/staticStability/assessment/sme/ForceLogic/ForceCalculation/ForceItemCalculation.java:40-66 | the record holds this item's gravitation, resultants for exactly [sequence, maxSequence), reaction forces within that range, a stability row of length maxSequence, and a reordering of the contact points with the items below |
| ForceItemCalculation.NothingBelowIsUnstable | 03_stability_approaches/staticStability/assessment/sme/ForceLogic/ForceCalculation/ForceItemCalculation.java:52-62 | an item with nothing below is unstable at every step from its own on |
| LinearEquationSystems.MaxAbs | 03_stability_approaches/staticStability/assessment/sme/helper/LinearEquationSystem.java:40-58 | the result bounds every magnitude of the vector and is attained by one of them |
| LinearEquationSystems.Column | 03_stability_approaches/staticStability/assessment/sme/helper/LinearEquationSystem.java:40-54 | the column has one entry per row, taken from column c |
| LinearEquationSystems.PivotRow | 03_stability_approaches/staticStability/assessment/sme/helper/LinearEquationSystem.java:117-120 | the pivot of column col lies in [col, rows) |
| LinearEquationSystems.PivotRowIsFirstLargest | 03_stability_approaches/staticStability/assessment/sme/helper/LinearEquationSystem.java:117-120 | the pivot is the first row at or below the diagonal with the column's largest magnitude |
| LinearEquationSystems.SwapRows | 03_stability_approaches/staticStability/assessment/sme/helper/LinearEquationSystem.java:268-291 | rows i and j are exchanged and every other row is kept |
| LinearEquationSystems.EliminateLhs | 03_stability_approaches/staticStability/assessment/sme/helper/LinearEquationSystem.java:147-163 | elimination below pivot row i keeps the matrix shape, the pivot row and every row above it, and the columns left of i, and leaves column i exactly 0 below the pivot |
| LinearEquationSystems.EchelonFrom | 03_stability_approaches/staticStability/assessment/sme/helper/LinearEquationSystem.java:110-176 | elimination keeps the shape of both sides |
| LinearEquationSystems.SkipKeepsEchelon | 03_stability_approaches/staticStability/assessment/sme/helper/LinearEquationSystem.java:123-125 | a column skipped because its largest entry from the diagonal down is negligible is in echelon form, and the earlier columns stay so |
| LinearEquationSystems.EliminationStepKeepsEchelon | 03_stability_approaches/staticStability/assessment/sme/helper/LinearEquationSystem.java:144-163 | swapping in the pivot row and eliminating column i keeps the earlier columns in echelon form and puts column i in it: a non-zero diagonal with exactly 0 below |
| LinearEquationSystems.StopStep | 03_stability_approaches/staticStability/assessment/sme/helper/LinearEquationSystem.java:123-142 | when elimination stops at column i (no column left, or nothing non-zero from the pivot on) the system is kept and the coefficient rank is i |
| LinearEquationSystems.SkipStep | 03_stability_approaches/staticStability/assessment/sme/helper/LinearEquationSystem.java:123-125 | a skipped column hands the system unchanged to the next column |
| LinearEquationSystems.EliminationStep | 03_stability_approaches/staticStability/assessment/sme/helper/LinearEquationSystem.java:117-163 | a column with a non-zero pivot hands the swapped and eliminated system to the next column |
| LinearEquationSystems.EchelonFormFrom | 03_stability_approaches/staticStability/assessment/sme/helper/LinearEquationSystem.java:116-176 | from any column whose predecessors are in echelon form, elimination leaves every column before the coefficient rank in echelon form, with the rank between 0 and the column count |
| LinearEquationSystems.EchelonForm | 03_stability_approaches/staticStability/assessment/sme/helper/LinearEquationSystem.java:109-176 | after elimination every column before the coefficient rank is in echelon form: either its diagonal entry is non-zero and every entry below it is 0, or it was skipped and nothing from the diagonal down is non-zero |
| LinearEquationSystems.EchelonRanks | 03_stability_approaches/staticStability/assessment/sme/helper/LinearEquationSystem.java:127-142 | the coefficient rank is at most the column count, and the augmented rank is the coefficient rank or one more |
| LinearEquationSystems.EchelonInconsistency | 03_stability_approaches/staticStability/assessment/sme/helper/LinearEquationSystem.java:131-175 | the augmented rank exceeds the coefficient rank iff some right-hand side from the rank row on is non-zero |
| LinearEquationSystems.SkippedColumnStillCountsTowardsRank | 03_stability_approaches/staticStability/assessment/sme/helper/LinearEquationSystem.java:124-126 | a concrete matrix of rank 1 whose first column is negligible is reported with coefficient rank 2 and a zero on the diagonal |
| LinearEquationSystems.BackSubstitution | 03_stability_approaches/staticStability/assessment/sme/helper/LinearEquationSystem.java:222-235 | the solution has one entry per row |
| LinearEquationSystems.BackSubstitutionSolvesRows | 03_stability_approaches/staticStability/assessment/sme/helper/LinearEquationSystem.java:226-233 | entry j is the rhs minus the known terms of the later unknowns, divided by the diagonal and rounded to four decimals |
| LinearEquationSystems.BackSubstitutionResidual | 03_stability_approaches/staticStability/assessment/sme/helper/LinearEquationSystem.java:226-233 | up to the rounding, each unknown with a non-zero diagonal satisfies its row within a bound of the diagonal times 0.00005 |
| LinearEquationSystems.RowResidualOfRecurrence | 03_stability_approaches/staticStability/assessment/sme/helper/LinearEquationSystem.java:226-233 | a row that is 0 left of its diagonal, whose unknown follows the back-substitution recurrence, holds in full within its diagonal times 0.00005 of its right-hand side |
| LinearEquationSystems.SolubilityCases | 03_stability_approaches/staticStability/assessment/sme/helper/LinearEquationSystem.java:66-87 | UNIQUE iff the ranks equal the column count and the solution has no negative entry; INFINITE iff the ranks agree below the column count; NO_SOLUTION iff the ranks differ or the solution has a negative entry |
| LinearEquationSystems.UniqueSolutionSolvesReducedSystem | 03_stability_approaches/staticStability/assessment/sme/helper/LinearEquationSystem.java:66-80 | a unique solution has one entry per unknown, none of them negative, and each entry follows the back-substitution recurrence on its row of the reduced system |
| LinearEquationSystems.ReducedRowIsTriangular | 03_stability_approaches/staticStability/assessment/sme/helper/LinearEquationSystem.java:116-176 | for a unique solution with no skipped column, every row of the reduced system is 0 left of its diagonal, so with the recurrence each full row holds up to the rounding |
| LinearEquationSystems.InfiniteSolutionsLeaveReducedSystem | 03_stability_approaches/staticStability/assessment/sme/helper/LinearEquationSystem.java:66-80 | with infinitely many solutions the reduced system keeps rank-many rows, fewer than the unknowns, and no solution is computed |
| LinearEquationSystems.LinearEquationSystem.constructor | 03_stability_approaches/staticStability/assessment/sme/helper/LinearEquationSystem.java:29-38 | the system takes the caller's arrays, and the thresholds are one hundredth of the largest magnitude of the rhs and of each column |
| LinearEquationSystems.LinearEquationSystem.Create | 03_stability_approaches/staticStability/assessment/sme/helper/LinearEquationSystem.java:29-38 | succeeds iff lhs rows equal the rhs length, the rhs is non-empty and 1 <= columns <= rows; otherwise IllegalArgumentException |
| LinearEquationSystems.LinearEquationSystem.ColumnThresholds | 03_stability_approaches/staticStability/assessment/sme/helper/LinearEquationSystem.java:40-54 | the per-column thresholds of the array |
| LinearEquationSystems.LinearEquationSystem.FindPivotRow | 03_stability_approaches/staticStability/assessment/sme/helper/LinearEquationSystem.java:117-120 | the loop finds the pivot row of the specification |
| LinearEquationSystems.LinearEquationSystem.RestOfLhsIsZero | 03_stability_approaches/staticStability/assessment/sme/helper/LinearEquationSystem.java:197-205 | true iff no entry from the start row and column on is non-zero |
| LinearEquationSystems.LinearEquationSystem.RhsNonZeroFromRow | 03_stability_approaches/staticStability/assessment/sme/helper/LinearEquationSystem.java:168-175 | true iff some right-hand side from row k on is non-zero |
| LinearEquationSystems.LinearEquationSystem.SwapLhsRows | 03_stability_approaches/staticStability/assessment/sme/helper/LinearEquationSystem.java:268-276 | the array's rows i and j are exchanged in place |
| LinearEquationSystems.LinearEquationSystem.SwapRhsRows | 03_stability_approaches/staticStability/assessment/sme/helper/LinearEquationSystem.java:285-291 | the rhs entries i and j are exchanged in place |
| LinearEquationSystems.LinearEquationSystem.SubtractPivotRow | 03_stability_approaches/staticStability/assessment/sme/helper/LinearEquationSystem.java:154-158 | row j becomes row j minus factor times the pivot row, from column i on, rounded to four decimals |
| LinearEquationSystems.LinearEquationSystem.EliminateBelow | 03_stability_approaches/staticStability/assessment/sme/helper/LinearEquationSystem.java:147-163 | both arrays become the eliminated system of the specification |
| LinearEquationSystems.LinearEquationSystem.TransformToEchelonForm | 03_stability_approaches/staticStability/assessment/sme/helper/LinearEquationSystem.java:110-176 | the arrays and both rank fields become those of the echelon specification |
| LinearEquationSystems.LinearEquationSystem.ReduceLes | 03_stability_approaches/staticStability/assessment/sme/helper/LinearEquationSystem.java:210-216 | new arrays holding exactly the first rankCoefficient rows of the eliminated LHS and RHS |
| LinearEquationSystems.LinearEquationSystem.SolveMatrixInEchelonForm | 03_stability_approaches/staticStability/assessment/sme/helper/LinearEquationSystem.java:222-235 | fails with IllegalStateException unless the reduced system is square; otherwise a new solution array equal to the back substitution |
| LinearEquationSystems.LinearEquationSystem.HasSolution | 03_stability_approaches/staticStability/assessment/sme/helper/LinearEquationSystem.java:243-249 | IllegalStateException before the ranks are known; otherwise true iff the ranks agree |
| LinearEquationSystems.LinearEquationSystem.HasUniqueSolution | 03_stability_approaches/staticStability/assessment/sme/helper/LinearEquationSystem.java:257-259 | true iff both ranks equal the column count |
| LinearEquationSystems.LinearEquationSystem.IsSolutionInvalid | 03_stability_approaches/staticStability/assessment/sme/helper/LinearEquationSystem.java:82-87 | true iff some solution entry is negative |
| LinearEquationSystems.LinearEquationSystem.SolveLesAsPossible | 03_stability_approaches/staticStability/assessment/sme/helper/LinearEquationSystem.java:66-80 | the verdict, the eliminated arrays, the ranks, the reduced system and the solution are those of the specification Solve |
| LinearEquationSystems.LinearEquationSystem.GetSpecificColumnsOfLhs | 03_stability_approaches/staticStability/assessment/sme/helper/LinearEquationSystem.java:95-104 | a new matrix with the reduced row count whose entry [i][j] is lhsReduced[i][indices[j]] |
| ReactionForceCalculator.SortByDistance | 03_stability_approaches/staticStability/assessment/sme/ForceLogic/ForceCalculation/ReactionForceCalculator.java:88-95 | the sorted list is a permutation of the points |
| ReactionForceCalculator.SortByDistanceSorts | 03_stability_approaches/staticStability/assessment/sme/ForceLogic/ForceCalculation/ReactionForceCalculator.java:88-95 | the points come out in ascending distance to the resultant point, as a permutation of the input |
| ReactionForceCalculator.QuadrantMeansSides | 03_stability_approaches/staticStability/assessment/sme/ForceLogic/ForceCalculation/ReactionForceCalculator.java:269-280 | each value is in 0..3, and two points share one iff they lie on the same sides of the resultant on both axes |
| ReactionForceCalculator.DeriveQuadrantsOfReactionPoints | 03_stability_approaches/staticStability/assessment/sme/ForceLogic/ForceCalculation/ReactionForceCalculator.java:269-280 | a new int array holding the quadrant of each point, in order |
| ReactionForceCalculator.BalancedForcesSatisfyXRows | 03_stability_approaches/staticStability/assessment/sme/ForceLogic/ForceCalculation/ReactionForceCalculator.java:111-143 | forces carrying the resultant's magnitude at its point satisfy the x row of every placed point; the row's rhs is (p_i.x - r.x) times the magnitude, rounded to two decimals |
| ReactionForceCalculator.PlacedRowIsMoment | 03_stability_approaches/staticStability/assessment/sme/ForceLogic/ForceCalculation/ReactionForceCalculator.java:119-126 | row 2i applied to the forces is the moment of the forces about point i |
| ReactionForceCalculator.UnplacedRowsAreZero | 03_stability_approaches/staticStability/assessment/sme/ForceLogic/ForceCalculation/ReactionForceCalculator.java:121-122 | the row pair of a point whose item below is placed after step s stays all zero, rhs included |
| ReactionForceCalculator.CreateLes | 03_stability_approaches/staticStability/assessment/sme/ForceLogic/ForceCalculation/ReactionForceCalculator.java:107-148 | a new system whose arrays are exactly the moment matrix and right-hand side of the specification |
| ReactionForceCalculator.FillPointRows | 03_stability_approaches/staticStability/assessment/sme/ForceLogic/ForceCalculation/ReactionForceCalculator.java:115-140 | one pass of the outer loop fills exactly the row pair of point i |
| ReactionForceCalculator.ReadForcesGroupsByLabel | 03_stability_approaches/staticStability/assessment/sme/ForceLogic/ForceCalculation/ReactionForceCalculator.java:158-173 | the groups are exactly the labels below the points, each pairing point i with solution[i] in index order |
| ReactionForceCalculator.ReadForcesPush | 03_stability_approaches/staticStability/assessment/sme/ForceLogic/ForceCalculation/ReactionForceCalculator.java:158-173 | a non-negative solution gives forces that all push |
| ReactionForceCalculator.ReadReactionForcesFromLes | 03_stability_approaches/staticStability/assessment/sme/ForceLogic/ForceCalculation/ReactionForceCalculator.java:158-173 | the loop builds exactly the grouped forces of the specification |
| ReactionForceCalculator.GetSpecificReactionPoints | 03_stability_approaches/staticStability/assessment/sme/ForceLogic/ForceCalculation/ReactionForceCalculator.java:310-318 | result[k] is points[indices[k]] |
| ReactionForceCalculator.TryTriple | 03_stability_approaches/staticStability/assessment/sme/ForceLogic/ForceCalculation/ReactionForceCalculator.java:290-301 | a triple is refused iff the reduced system has fewer than 3 rows; otherwise it is solved on the shared rhs and yields forces iff the solution is unique |
| ReactionForceCalculator.TripleLoadsOnlyItsPoints | 03_stability_approaches/staticStability/assessment/sme/ForceLogic/ForceCalculation/ReactionForceCalculator.java:290-301 | a distribution found for a triple pushes and loads only the items below its three points |
| ReactionForceCalculator.NextCandidate | 03_stability_approaches/staticStability/assessment/sme/ForceLogic/ForceCalculation/ReactionForceCalculator.java:200-218 | the first combination c1 < c2 < i with pairwise distinct quadrants that the loops reach, in loop order |
| ReactionForceCalculator.NextCandidateMissesNone | 03_stability_approaches/staticStability/assessment/sme/ForceLogic/ForceCalculation/ReactionForceCalculator.java:200-218 | the loops skip no candidate combination |
| ReactionForceCalculator.SolverOfIsSound | 03_stability_approaches/staticStability/assessment/sme/ForceLogic/ForceCalculation/ReactionForceCalculator.java:290-301 | the triple solver keeps the rhs length, refuses only systems of fewer than 3 equations, and its distributions push and load only the triple's items |
| ReactionForceCalculator.SearchFindsDistinctQuadrants | 03_stability_approaches/staticStability/assessment/sme/ForceLogic/ForceCalculation/ReactionForceCalculator.java:200-218 | a distribution the search finds comes from three points in distinct quadrants; the search fails only for fewer than 3 equations |
| ReactionForceCalculator.NoCandidateMeansNoDistribution | 03_stability_approaches/staticStability/assessment/sme/ForceLogic/ForceCalculation/ReactionForceCalculator.java:200-218 | with no triple in three quadrants the search returns null and leaves the rhs untouched |
| ReactionForceCalculator.SolveTriple | 03_stability_approaches/staticStability/assessment/sme/ForceLogic/ForceCalculation/ReactionForceCalculator.java:290-301 | the sub-system of three columns is built on the large system's reduced rhs array and solved |
| ReactionForceCalculator.TryCalculatingReactionForcesForTriple | 03_stability_approaches/staticStability/assessment/sme/ForceLogic/ForceCalculation/ReactionForceCalculator.java:290-301 | the method's outcome and the rhs it leaves behind are those of TryTriple |
| ReactionForceCalculator.SearchTries | 03_stability_approaches/staticStability/assessment/sme/ForceLogic/ForceCalculation/ReactionForceCalculator.java:200-218 | a tried candidate either ends the search with its forces, ends it with the refusal, or the search goes on with the rhs it left |
| ReactionForceCalculator.TrySecondPartner | 03_stability_approaches/staticStability/assessment/sme/ForceLogic/ForceCalculation/ReactionForceCalculator.java:205-216 | one pass of the innermost loop ends the search or goes on from c2 + 1 |
| ReactionForceCalculator.SearchSecondPartners | 03_stability_approaches/staticStability/assessment/sme/ForceLogic/ForceCalculation/ReactionForceCalculator.java:205-216 | the innermost loop ends the search or goes on from the next c1 |
| ReactionForceCalculator.TryFirstPartner | 03_stability_approaches/staticStability/assessment/sme/ForceLogic/ForceCalculation/ReactionForceCalculator.java:203-216 | one pass of the middle loop ends the search or goes on from c1 + 1 |
| ReactionForceCalculator.SearchFirstPartners | 03_stability_approaches/staticStability/assessment/sme/ForceLogic/ForceCalculation/ReactionForceCalculator.java:203-216 | the middle loop over the first partners of i |
| ReactionForceCalculator.HandleIndeterminateSystem | 03_stability_approaches/staticStability/assessment/sme/ForceLogic/ForceCalculation/ReactionForceCalculator.java:183-219 | the three nested loops compute exactly the search of the specification, including the rhs they leave changed |
| ReactionForceCalculator.UniqueDistributionIsSound | 03_stability_approaches/staticStability/assessment/sme/ForceLogic/ForceCalculation/ReactionForceCalculator.java:66-72 | with a unique solution every force pushes and loads an item below one of the points |
| ReactionForceCalculator.InfiniteDistributionIsSound | 03_stability_approaches/staticStability/assessment/sme/ForceLogic/ForceCalculation/ReactionForceCalculator.java:73-76 | with infinitely many solutions the search fails only for rank below 3, and its distribution pushes and loads only items below the points |
| ReactionForceCalculator.ForSequenceDistributes | 03_stability_approaches/staticStability/assessment/sme/ForceLogic/ForceCalculation/ReactionForceCalculator.java:56-80 | a step leaves the points permuted and sorted by distance, never pulls, and fails only with IllegalArgumentException from a too-small triple system |
| ReactionForceCalculator.CalculateReactionForcesForSequence | 03_stability_approaches/staticStability/assessment/sme/ForceLogic/ForceCalculation/ReactionForceCalculator.java:56-80 | sorting in place, building and solving the system, then reading or searching give the specification's order and distribution; no points give null |
| ReactionForceCalculator.StepOfSequenceIsSound | 03_stability_approaches/staticStability/assessment/sme/ForceLogic/ForceCalculation/ReactionForceCalculator.java:56-80 | the per-step calculation is a sound step: it permutes, fails only with IllegalArgumentException, and pushes onto items below |
| ReactionForceCalculator.StepsDistribute | 03_stability_approaches/staticStability/assessment/sme/ForceLogic/ForceCalculation/ReactionForceCalculator.java:29-42 | over the steps the points stay a permutation, failures are IllegalArgumentException, and every recorded distribution belongs to a step in range |
| ReactionForceCalculator.StepsRecordEachStep | 03_stability_approaches/staticStability/assessment/sme/ForceLogic/ForceCalculation/ReactionForceCalculator.java:31-41 | when no step fails, step s is a key iff its distribution is not null, and maps to it |
| ReactionForceCalculator.FailureEndsSteps | 03_stability_approaches/staticStability/assessment/sme/ForceLogic/ForceCalculation/ReactionForceCalculator.java:29-42 | an exception ends the calculation; later steps change nothing |
| ReactionForceCalculator.NoPointsNoForces | 03_stability_approaches/staticStability/assessment/sme/ForceLogic/ForceCalculation/ReactionForceCalculator.java:58-60 | without reaction points no step distributes anything |
| ReactionForceCalculator.ReactionForcesPerSequenceDistribute | 03_stability_approaches/staticStability/assessment/sme/ForceLogic/ForceCalculation/ReactionForceCalculator.java:29-42 | keys lie in [startSequence, maxSequence); the points stay a permutation; every distribution pushes onto items below the points |
| ReactionForceCalculator.CalculateReactionForces | 03_stability_approaches/staticStability/assessment/sme/ForceLogic/ForceCalculation/ReactionForceCalculator.java:29-42 | the loop gives exactly the specification's final point order and per-step map |
| ForceItemRepositories.ForceItemsOnTopLooksUpEach | 03_stability_approaches/staticStability/assessment/sme/ForceLogic/ForceItemRepository.java:41-53 | the lookup succeeds iff every item on top has a record, and then returns exactly those records in order; otherwise it throws IllegalStateException |
| ForceItemRepositories.ForceItemsOnTopReadsOnlyThose | 03_stability_approaches/staticStability/assessment/sme/ForceLogic/ForceItemRepository.java:41-53 | the result depends only on the records of the items asked for |
| ForceItemRepositories.FailureStaysFailure | 03_stability_approaches/staticStability/assessment/sme/ForceLogic/ForceItemRepository.java:44-50 | the first item without a record decides the exception; later items do not change it |
| ForceItemRepositories.ForceItemRepository.constructor | 03_stability_approaches/staticStability/assessment/sme/ForceLogic/ForceItemRepository.java:24-26 | the repository starts empty |
| ForceItemRepositories.ForceItemRepository.AddForceItem | 03_stability_approaches/staticStability/assessment/sme/ForceLogic/ForceItemRepository.java:32-34 | the record is stored under its own item, replacing any earlier record, and nothing else changes |
| ForceItemRepositories.ForceItemRepository.GetForceItemsOnTop | 03_stability_approaches/staticStability/assessment/sme/ForceLogic/ForceItemRepository.java:41-53 | the loop returns exactly the lookup of the items on top in relation order, and its exception |
| ForceItemRepositories.ForceItemRepository.AddedRecordIsFound | 03_stability_approaches/staticStability/assessment/sme/ForceLogic/ForceItemRepository.java:61-67 | after an add, exists holds and get returns the record; every other item keeps what get returned before |
| ForceItemManagers.ForceCalculationIsSound | 03_stability_approaches/staticStability/assessment/sme/ForceLogic/ForceItemManager.java:77-81 | createForceItem throws only IllegalArgumentException or TopologyException, and a record it returns belongs to its item and spans the horizon |
| ForceItemManagers.CreationOfIsSound | 03_stability_approaches/staticStability/assessment/sme/ForceLogic/ForceItemManager.java:77-81 | createRelatedForceItem over a sound calculation throws only those exceptions, returns records of p at the horizon, and reads only the records on top of p |
| ForceItemManagers.AddKeepsFaithful | 03_stability_approaches/staticStability/assessment/sme/ForceLogic/ForceItemManager.java:63-70 | adding the record computed for an item whose items on top are stored keeps every stored record equal to what the calculation gives for it |
| ForceItemManagers.CreateAndSaveGrows | 03_stability_approaches/staticStability/assessment/sme/ForceLogic/ForceItemManager.java:63-70 | createAndSave keeps stored records, adds records only for p and items above it at the current horizon, never throws the missing-record IllegalStateException, and on success stores p |
| ForceItemManagers.AssureOnTopGrows | 03_stability_approaches/staticStability/assessment/sme/ForceLogic/ForceItemManager.java:51-57 | the loop keeps stored records, adds only items strictly above p, and on success leaves every item on top of p with a record |
| ForceItemManagers.CreateAndSaveKeepsFaithful | 03_stability_approaches/staticStability/assessment/sme/ForceLogic/ForceItemManager.java:63-70 | createAndSave keeps all records faithful to the calculation |
| ForceItemManagers.AssureOnTopKeepsFaithful | 03_stability_approaches/staticStability/assessment/sme/ForceLogic/ForceItemManager.java:51-57 | the assure loop keeps all records faithful |
| ForceItemManagers.CreatingOnTopKeepsFaithful | 03_stability_approaches/staticStability/assessment/sme/ForceLogic/ForceItemManager.java:52-55 | the loop turn that creates a missing record on top keeps all records faithful |
| ForceItemManagers.AssureOnTopStep | 03_stability_approaches/staticStability/assessment/sme/ForceLogic/ForceItemManager.java:52-55 | a stored item on top is skipped; a missing one is created and saved first |
| ForceItemManagers.GetOrCreateKeepsRecords | 03_stability_approaches/staticStability/assessment/sme/ForceLogic/ForceItemManager.java:34-44 | getOrCreate keeps stored records and their faithfulness, creates only at the current horizon, throws only creation exceptions, and otherwise leaves p with a record |
| ForceItemManagers.GetOrCreateFindsFaithfulRecord | 03_stability_approaches/staticStability/assessment/sme/ForceLogic/ForceItemManager.java:34-44 | with the force calculation, getOrCreate returns a record of p that equals createRelatedForceItem's result from the records on top; a new one spans the current horizon |
| ForceItemManagers.ForceItemManager.constructor | 03_stability_approaches/staticStability/assessment/sme/ForceLogic/ForceItemManager.java:22-26 | the horizon is maxSequence and the repository is new and empty |
| ForceItemManagers.ForceItemManager.GetOrCreateForceItemFromPlacedItem | 03_stability_approaches/staticStability/assessment/sme/ForceLogic/ForceItemManager.java:34-44 | a stored record is returned as is; otherwise it is created depth first and then read back; the repository ends as the specification's store |
| ForceItemManagers.ForceItemManager.AssureForceItemsOnTopAlreadyExist | 03_stability_approaches/staticStability/assessment/sme/ForceLogic/ForceItemManager.java:51-57 | the loop over the items on top leaves exactly the records and exception of the specification |
| ForceItemManagers.ForceItemManager.CreateAndSaveRelatedForceItem | 03_stability_approaches/staticStability/assessment/sme/ForceLogic/ForceItemManager.java:63-70 | the records on top are assured first, then p's record is created and added |
| ForceItemManagers.ForceItemManager.CreateRelatedForceItem | 03_stability_approaches/staticStability/assessment/sme/ForceLogic/ForceItemManager.java:77-81 | the calculation applied to the records on top of p at the current horizon, or the lookup's IllegalStateException |
| ForceItemManagers.ForceItemManager.SetMaxSequence | 03_stability_approaches/staticStability/assessment/sme/ForceLogic/ForceItemManager.java:87-89 | the horizon becomes the given value |
| ScienceOfStaticAssessment.RowsStopAtFailure | 03_stability_approaches/staticStability/assessment/sme/ScienceOfStaticAssessmentService.java:29-44 | the first exception ends the loop; later items are not assessed |
| ScienceOfStaticAssessment.TurnKeepsRecords | 03_stability_approaches/staticStability/assessment/sme/ScienceOfStaticAssessmentService.java:30-37 | one turn of the loop keeps the rows matching the faithful records |
| ScienceOfStaticAssessment.RecordRowKeepsRecords | 03_stability_approaches/staticStability/assessment/sme/ScienceOfStaticAssessmentService.java:66-68 | an upper item's row is the stability row of its own record |
| ScienceOfStaticAssessment.RowsAreRecords | 03_stability_approaches/staticStability/assessment/sme/ScienceOfStaticAssessmentService.java:30-37 | after k turns there is one row per item; a bottom item's row is all true; any other item's row is its record's; without optimization every row spans all items |
| ScienceOfStaticAssessment.AssessmentNeverThrows | 03_stability_approaches/staticStability/assessment/sme/ScienceOfStaticAssessmentService.java:22-48 | over the force calculation no exception escapes: the result is -1 iff a turn threw, and otherwise the scorer's score of one row per item, each row that of createRelatedForceItem's record |
| ScienceOfStaticAssessment.TestItemsStability | 03_stability_approaches/staticStability/assessment/sme/ScienceOfStaticAssessmentService.java:58-69 | a bottom item is stable at every step of the horizon; any other item gets its record's row, created on demand |
| ScienceOfStaticAssessment.RowsUpToNext | 03_stability_approaches/staticStability/assessment/sme/ScienceOfStaticAssessmentService.java:30-37 | one more turn of the loop |
| ScienceOfStaticAssessment.FillStabilityMatrix | 03_stability_approaches/staticStability/assessment/sme/ScienceOfStaticAssessmentService.java:29-37 | the loop fills the matrix with exactly the specification's rows, or stops with its exception |
| ScienceOfStaticAssessment.AssessmentOfLoop | 03_stability_approaches/staticStability/assessment/sme/ScienceOfStaticAssessmentService.java:38-46 | TopologyException and IllegalArgumentException give -1; otherwise the matrix is scored |
| ScienceOfStaticAssessment.AssesItemList | 03_stability_approaches/staticStability/assessment/sme/ScienceOfStaticAssessmentService.java:22-48 | the method returns exactly the specification's assessment |
| PlacedItems.CompareTo | 03_stability_approaches/model/PlacedItem.java:93-95 | 1 exactly when this item comes later in the sequence, -1 exactly otherwise; never 0 |
| PlacedItems.CompareToOnTiesIsNotAntisymmetric | 03_stability_approaches/model/PlacedItem.java:93-95 | two items at the same step each compare as the smaller one, so the order is not antisymmetric |
| PlacedItems.AbsoluteCenterOfMass | 03_stability_approaches/model/PlacedItem.java:170-173 | the point differs from the geometric centre by exactly the centre-of-mass offset, per axis |
| PlacedItems.AddIfAbsent | 03_stability_approaches/model/PlacedItem.java:150-163 | the relation list gains the item iff it was not listed, and keeps all earlier entries in order |
| PlacedItems.DecideSupport | 03_stability_approaches/model/PlacedItem.java:138-164 | no relation iff the other item's min-y is 0 or neither item rests on its min-y; the other item is on top iff its min-y is non-zero and equals its y; otherwise this item is on top iff its own min-y equals its y |
| PlacedItems.SupportStepRecordsMatchedPair | 03_stability_approaches/model/PlacedItem.java:138-164 | one call records at most one matched pair (below on the upper item, on-top on the lower); no other item's relations and no neighbour lists change |
| PlacedItems.LayeredRelationsOf | 03_stability_approaches/model/PlacedItem.java:150-163 | in a layered graph the items below an item are lower and the items on top are higher and within the top bound |
| PlacedItems.LayeredBelowIsLower | 03_stability_approaches/model/PlacedItem.java:150-163 | a layered graph lists only lower items below |
| PlacedItems.BelowHasSmallerLevel | 03_stability_approaches/model/PlacedItem.java:150-163 | an item listed below another has a strictly smaller level, so walks downwards end |
| PlacedItems.SupportStepKeepsLayered | 03_stability_approaches/model/PlacedItem.java:138-164 | with a sound min-y oracle, recording a support relation keeps the graph layered |
| PlacedItems.FloorSupport | 03_stability_approaches/model/PlacedItem.java:179-182 | the floor's share fails iff the item's bounding box has a negative width or depth, as the Box constructor rejects it |
| PlacedItems.Offset | 03_stability_approaches/model/PlacedItem.java:186-186 | the int difference of two coordinates wrapped into the 32-bit range: congruent to the exact difference modulo 2^32, and equal to it when it fits |
| PlacedItems.OffsetWrapsAround | 03_stability_approaches/model/PlacedItem.java:186-186 | an item at x = 2^31 - 1 below one at x = -1 is handed the offset -2^31 |
| PlacedItems.GetBaseSupportFactor | 03_stability_approaches/model/PlacedItem.java:175-191 | the loop computes exactly the floor's share for y = 0 plus the share of every item below that comes earlier in the sequence, at offsets subtracted with 32-bit wrap-around |
| PlacedItems.SupportSumIgnoresLaterItems | 03_stability_approaches/model/PlacedItem.java:184-189 | items below that come later in the sequence add nothing |
| PlacedItems.BaseSupportComesFromFloorAndEarlierItems | 03_stability_approaches/model/PlacedItem.java:175-191 | without earlier items below, an item above the floor has factor 0 and an item on the floor exactly the floor's share |
| PlacedItems.SupportSumAppend | 03_stability_approaches/model/PlacedItem.java:184-189 | appending an earlier item below adds its factor; a later one changes nothing |
| Boxes.NewBox | 03_stability_approaches/model/Box.java:45-53 | construction succeeds iff no dimension is negative, else IllegalArgumentException; the box keeps the given dimensions |
| Boxes.VolumeOfValidBox | 03_stability_approaches/model/Box.java:82-84 | base area and volume are non-negative, and the volume is width times height times depth |
| Boxes.Corners | 03_stability_approaches/model/Box.java:87-98 | eight points, each of whose coordinates is 0 or the box's extent on that axis |
| Boxes.CornersCoverAllCombinations | 03_stability_approaches/model/Box.java:87-98 | every combination of 0 and the extent per axis is a corner |
| Boxes.CornersDistinct | 03_stability_approaches/model/Box.java:87-98 | with positive dimensions the eight corners are distinct |
| Boxes.GetBoundingBox | 03_stability_approaches/model/Box.java:101-103 | the bounding box has the box's dimensions |
| Boxes.CompareBoxes | 03_stability_approaches/model/Box.java:116-128 | 0 iff the dimensions are equal; otherwise 1 iff the volume is strictly larger, else -1 |
| Boxes.CompareBoxesAntisymmetric | 03_stability_approaches/model/Box.java:116-128 | boxes of different volume compare antisymmetrically |
| Boxes.EqualVolumeCompareIsNotAntisymmetric | 03_stability_approaches/model/Box.java:116-128 | two different boxes of equal volume each compare as the smaller one |
| Boxes.TopCoverageArea | 03_stability_approaches/model/Box.java:153-158 | the covered area is 0 unless the shape sits exactly on this box's top, and is then the intersection area |
| Shapes.CompareTo | 03_stability_approaches/model/Box.java:116-128 | a box compares with a box by its dimensions and volume; against any other shape it throws IllegalArgumentException |
| Shapes.Equals | 03_stability_approaches/model/Shape3D.java:210-216 | IllegalArgumentException for an object that is not a shape; otherwise true iff compareTo gives 0, and compareTo's exception otherwise |
| Shapes.BoxEqualityIsDimensionEquality | 03_stability_approaches/model/Shape3D.java:210-216 | two boxes are equal iff their dimensions agree (rotation state ignored), and equality is symmetric |
| Shapes.RoundedPoints | 03_stability_approaches/model/Shape3D.java:222-229 | one point per coordinate, in order, each rounded to two decimals |
| Shapes.TransformCoordinatesToPoints | 03_stability_approaches/model/Shape3D.java:222-229 | the loop yields exactly the rounded points, one per coordinate in order |
| Shapes.Round2IsHundredths | 03_stability_approaches/model/Shape3D.java:225-226 | Math.round(v*100)/100.0 is a whole number of hundredths |
| Shapes.RoundedPointsAreOnGrid | 03_stability_approaches/model/Shape3D.java:222-229 | every rounded point lies on the hundredths grid within 0.005 of its coordinate on both axes |
| Shapes.ContactPointsWithBottomShape | 03_stability_approaches/model/Shape3D.java:249-257 | TopologyException iff the own base at its (x, z) is not a valid geometry |
| Shapes.ContactWithBoxBelow | 03_stability_approaches/model/Box.java:131-145 | against a box below the contact is empty unless the own y is the box's y plus its height, and is then the rounded intersection hull, on the hundredths grid |
| Shapes.BoxOnBoxSupportFactor | 03_stability_approaches/model/Box.java:148-158 | a box on a box has factor 0 unless the lower top meets its base, and then the covered share of its base area |
| Shapes.VolumeCache.constructor | 03_stability_approaches/model/Shape3D.java:61-61 | the cache starts empty |
| Shapes.VolumeCache.GetVolume | 03_stability_approaches/model/Shape3D.java:112-125 | the volume is computed once and stored before it is checked: a negative volume throws IllegalStateException on the first call and is returned later; a valid box never throws |
| Shapes.TracksStep | 03_stability_approaches/model/Shape3D.java:273-289 | one loop turn keeps each slot the first coordinate that beats the running extreme |
| Shapes.TracksComplete | 03_stability_approaches/model/Shape3D.java:264-294 | at the end of the loop each slot holds the first extreme coordinate |
| Shapes.ReduceToMinMaxPoints | 03_stability_approaches/model/Shape3D.java:264-294 | at most four coordinates come back unchanged; otherwise the four slots hold the first coordinate of smallest x, smallest y, largest x and largest y, with the maxima starting at Double.MIN_VALUE |
| Shapes.NoPositiveXLeavesMaxSlotEmpty | 03_stability_approaches/model/Shape3D.java:268-289 | with no positive x coordinate the largest-x slot stays null |
| ULDs.InsertBySequence | 03_stability_approaches/model/ULD.java:58-58 | the list gains exactly the inserted item |
| ULDs.InsertKeepsSorted | 03_stability_approaches/model/ULD.java:58-58 | inserting into a list sorted by sequence keeps it sorted |
| ULDs.SortBySequence | 03_stability_approaches/model/ULD.java:58-58 | the result is a permutation of the items, sorted ascending by sequence |
| ULDs.InsertLastComesLast | 03_stability_approaches/model/ULD.java:58-58 | an item after all items of a sorted list is appended at its end |
| ULDs.IncreasingSplits | 03_stability_approaches/model/ULD.java:58-58 | a strictly increasing list without its last item stays strictly increasing, and the last item comes after the others |
| ULDs.SortKeepsIncreasingList | 03_stability_approaches/model/ULD.java:58-58 | a list already strictly increasing by sequence is left unchanged |
| ULDs.TiesComeOutReversed | 03_stability_approaches/model/ULD.java:58-58 | two items sharing a sequence number come out in reverse input order, because compareTo never answers 0 |
| ULDs.MapOfEntries | 03_stability_approaches/model/ULD.java:59-60 | every item's label is a key, and each key maps to an item of the list carrying that label |
| ULDs.MapOfHoldsLastWithLabel | 03_stability_approaches/model/ULD.java:59-60 | every label maps to the last item of the list carrying it |
| ULDs.MapOfDistinctLabels | 03_stability_approaches/model/ULD.java:59-60 | with distinct labels the map holds one entry per item |
| ULDs.PutStep | 03_stability_approaches/model/ULD.java:59-60 | one loop turn puts the item under its label |
| ULDs.PutByLabel | 03_stability_approaches/model/ULD.java:59-60 | the loop builds exactly the label map of the list |
| ULDs.SortedItemsOnOrAboveFloor | 03_stability_approaches/model/ULD.java:55-63 | sorting keeps the items, so the sorted list and its map stay between the floor and the top |
| ULDs.ValuesInOrder | 03_stability_approaches/model/ULD.java:69-69 | the map's values in the iteration order of its keys, one per key |
| ULDs.TopLevel | 03_stability_approaches/model/ULD.java:55-63 | every item lies no higher than the unit's top level, which is at least 0 |
| ULDs.SideOf | 03_stability_approaches/model/ULD.java:182-191 | the one side an item supports, in the priority right, left, back, front, each iff the earlier tests fail and its own holds |
| ULDs.SidesOf | 03_stability_approaches/model/ULD.java:178-195 | a side is in the set iff some item of the list supports exactly it |
| ULDs.AtMostFourSides | 03_stability_approaches/model/ULD.java:178-195 | at most four sides can be supported |
| ULDs.InnerPairs | 03_stability_approaches/model/ULD.java:203-205 | one inner run visits pairs (i, k) with i < k < j |
| ULDs.LoopPairs | 03_stability_approaches/model/ULD.java:202-206 | the first i outer runs visit only pairs (a, b) with a < i and a < b < n |
| ULDs.InnerPairsCover | 03_stability_approaches/model/ULD.java:203-205 | one inner run visits every later position once, in increasing order |
| ULDs.LoopPairsCover | 03_stability_approaches/model/ULD.java:202-206 | the first i outer runs visit every pair (a, b) with a < i and a < b < n |
| ULDs.LoopPairsDistinct | 03_stability_approaches/model/ULD.java:202-206 | no pair is visited twice |
| ULDs.EveryPairExactlyOnce | 03_stability_approaches/model/ULD.java:197-207 | the support-structure pass visits each unordered pair of distinct positions exactly once, smaller position first, and no other pair |
| ULDs.ApplyFirstOfPrefix | 03_stability_approaches/model/ULD.java:202-206 | extending the list of pairs does not change the effect of its first k pairs |
| ULDs.ApplyFirstAppend | 03_stability_approaches/model/ULD.java:202-206 | after the pairs of one list, the pairs of the next continue from where it left the relations |
| ULDs.ApplyPairsAppend | 03_stability_approaches/model/ULD.java:202-206 | applying two lists of pairs in turn is applying their concatenation |
| ULDs.InnerRunIsInnerPairs | 03_stability_approaches/model/ULD.java:203-205 | the inner loop applies exactly the pairs (i, k), i < k < j, in order |
| ULDs.OuterPassIsLoopPairs | 03_stability_approaches/model/ULD.java:202-206 | the first i outer runs apply exactly the pairs of LoopPairs(i, n) |
| ULDs.OuterPassStep | 03_stability_approaches/model/ULD.java:202-206 | one outer run continues the pairs of the earlier runs with its inner pairs |
| ULDs.SupportPass | 03_stability_approaches/model/ULD.java:197-207 | the nested loops apply the support step to exactly the loop's pairs of the values, in loop order |
| ULDs.SupportStepIsLocal | 03_stability_approaches/model/ULD.java:204-204 | with a sound min-y oracle the support step keeps the graph layered and changes the relations of its two items only |
| ULDs.ApplyFirstKeeps | 03_stability_approaches/model/ULD.java:202-206 | a step that keeps an invariant keeps it over the whole pass |
| ULDs.ApplyFirstTouchesOnlyItsItems | 03_stability_approaches/model/ULD.java:202-206 | the pass changes the relations of listed items only |
| ULDs.AddBothKeepsSymmetric | 03_stability_approaches/model/ULD.java:217-220 | recording a neighbourhood in both directions keeps it symmetric and irreflexive |
| ULDs.EmptyIsSymmetric | 03_stability_approaches/model/ULD.java:212-225 | no relations at all are a symmetric neighbourhood |
| ULDs.ULD.ValidWithRelations | 03_stability_approaches/model/ULD.java:20-45 | the unit's invariant holds for any layered relations |
| ULDs.ULD.Values | 03_stability_approaches/model/ULD.java:197-198 | the map's values in the iteration order of its keys |
| ULDs.ULD.Empty | 03_stability_approaches/model/ULD.java:47-53 | a unit with no items, no id and no relations |
| ULDs.ULD.FromItems | 03_stability_approaches/model/ULD.java:55-63 | the items sorted ascending by sequence, and each label mapped to the last sorted item carrying it |
| ULDs.ULD.FromUnderConstruction | 03_stability_approaches/model/ULD.java:66-72 | the given map as it is, and its values sorted ascending by sequence |
| ULDs.ULD.FromDto | 03_stability_approaches/model/ULD.java:75-96 | a valid unit with the transfer object's id and the given properties, and its items in the object's own order, not sorted; each label mapped to its last item; no relations yet |
| ULDs.ULD.Restore | 03_stability_approaches/model/ULD.java:75-96 | fails with NoSuchElement exactly when the properties' side contour has no floor point; otherwise a fresh valid unit with the object's id, properties of the kind it names and its dimensions, and its items in order |
| ULDs.ULD.GetItem | 03_stability_approaches/model/ULD.java:112-114 | some item iff the label is a key, and then the item under it |
| ULDs.ULD.GetItemCount | 03_stability_approaches/model/ULD.java:116-118 | the length of the sorted list |
| ULDs.ULD.IsEmpty | 03_stability_approaches/model/ULD.java:120-122 | true iff the sorted list has no items |
| ULDs.ULD.GetPlacedItemsSortedTopDown | 03_stability_approaches/model/ULD.java:131-137 | the items in reverse order, and the unit's own list is reversed too, since the view shares it |
| ULDs.ULD.GetNumberOfSupportedSides | 03_stability_approaches/model/ULD.java:178-195 | the number of distinct sides supported by some item of the unit, at most 4 |
| ULDs.ULD.CalculateItemSupportStructure | 03_stability_approaches/model/ULD.java:197-207 | the support relation of every pair of positions i < j of the map's values, in loop order; the graph stays layered |
| ULDs.ULD.CalculateNeighbors | 03_stability_approaches/model/ULD.java:212-225 | every pair of distinct sorted items accepted by the test is recorded as neighbours both ways; earlier neighbours are kept; nothing else changes |
| ULDs.NeighborPass | 03_stability_approaches/model/ULD.java:212-225 | the nested loops compute exactly the neighbour relations of the specification, which stay layered and symmetric |
| ULDs.AddBothGrows | 03_stability_approaches/model/ULD.java:217-220 | recording a pair keeps what was recorded and adds the pair |
| ULDs.NeighborInnerSymmetric | 03_stability_approaches/model/ULD.java:214-222 | one inner run keeps the neighbourhood symmetric |
| ULDs.NeighborInnerOnlyAmong | 03_stability_approaches/model/ULD.java:214-222 | one inner run changes only neighbourhoods of listed items |
| ULDs.NeighborInnerRecords | 03_stability_approaches/model/ULD.java:214-222 | one inner run keeps earlier neighbours and records each pair it tests successfully |
| ULDs.NeighborInnerGrows | 03_stability_approaches/model/ULD.java:214-222 | a whole inner run keeps every earlier neighbourhood |
| ULDs.NeighborOuterSymmetric | 03_stability_approaches/model/ULD.java:213-224 | the outer runs keep the neighbourhood symmetric |
| ULDs.NeighborOuterOnlyAmong | 03_stability_approaches/model/ULD.java:213-224 | the outer runs change only neighbourhoods of listed items |
| ULDs.NeighborOuterRecords | 03_stability_approaches/model/ULD.java:213-224 | the outer runs keep earlier neighbours and record every pair they test successfully |
| ULDs.NeighborPassFacts | 03_stability_approaches/model/ULD.java:212-225 | the whole pass keeps the graph layered and the neighbourhood symmetric, and records each accepted pair |
| ULDs.RecordNeighborsStep | 03_stability_approaches/model/ULD.java:217-220 | one recorded pair changes only neighbourhoods of listed items |
| ULDs.AddNeighborKeepsSupport | 03_stability_approaches/model/ULD.java:217-220 | recording neighbours changes no support relation and no third item |
| ULDs.SameSupportKeepsLayered | 03_stability_approaches/model/ULD.java:212-225 | layering depends only on the support relations |
| ULDs.Reversed | 03_stability_approaches/model/ULD.java:131-137 | element i of the result is element n-1-i of the input |
| ULDs.ReversedAppend | 03_stability_approaches/model/ULD.java:131-137 | reversing a list with one more item puts that item first |
| ULDs.ReversedHasSameItems | 03_stability_approaches/model/ULD.java:131-137 | the reversed list has the same items |
| ULDs.ReversedTwice | 03_stability_approaches/model/ULD.java:131-137 | reversing twice restores the order, so calling getPlacedItemsSortedTopDown twice restores the unit's list |
| ULDs.DeepEqualsFromIff | 03_stability_approaches/model/ULD.java:167-176 | deepEquals holds iff every item of the first unit has an item under its label in the second with the same position and rotation |
| ULDs.DeepEqualsIgnoresExtraItems | 03_stability_approaches/model/ULD.java:167-176 | items of the second unit not named by the first do not change the verdict |
| ULDs.DeepEqualsReflexive | 03_stability_approaches/model/ULD.java:167-176 | a unit is deep-equal to itself |
| UldProperties.KindOf | 03_stability_approaches/model/ULDProperties.java:170-188 | cuboid, pallet-with-contour and container objects keep their kind; any other kind becomes a cuboid |
| UldProperties.CuboidVolume | 03_stability_approaches/model/ULDProperties.java:307-307 | width * depth * maxHeight in 32-bit int arithmetic, equal to the exact product when no step overflows |
| UldProperties.MaxVolume | 03_stability_approaches/model/ULDProperties.java:306-312 | the cuboid volume for a cuboid unit or a missing or empty contour; otherwise the contour's hull volume |
| UldProperties.CuboidVolumeIsExactProduct | 03_stability_approaches/model/ULDProperties.java:307-307 | with width and depth between 0 and 10000 and maxHeight between 0 and 20 (so the product is at most 2·10^9 < 2^31) the int product equals the exact product |
| UldProperties.ForCalculation | 03_stability_approaches/model/ULDProperties.java:190-214 | a contour point keeps its x, and its y is lowered by 0.1 iff it lies below the maximum height |
| UldProperties.InnerMinZ | 03_stability_approaches/model/ULDProperties.java:122-122 | absent exactly when no side-contour point has y == 0; otherwise the x of such a point, no greater than the x of any other such point |
| UldProperties.InnerMaxZ | 03_stability_approaches/model/ULDProperties.java:123-123 | absent exactly when no side-contour point has y == 0; otherwise the x of such a point, no less than the x of any other such point |
| UldProperties.InnerRangeIsOrdered | 03_stability_approaches/model/ULDProperties.java:122-123 | when a floor point exists, horizontal_inner_min_z <= horizontal_inner_max_z |
| UldProperties.GhostItemList.constructor | 03_stability_approaches/model/ULDProperties.java:296-300 | a new ghost-item list is empty |
| UldProperties.ULDProperties.constructor | 03_stability_approaches/model/ULDProperties.java:99-130 | dimensions and contour come from the transfer object; horizontal_inner_min_z and horizontal_inner_max_z are the least and greatest x of the side-contour points with y == 0; the volume is calculateMaxVolume's; both calculation arrays are fresh and hold one adjusted point per contour point |
| UldProperties.ULDProperties.Create | 03_stability_approaches/model/ULDProperties.java:99-130 | fails with NoSuchElement exactly when no side-contour point lies on the floor (y == 0); otherwise new properties of the kind the object names (a cuboid for an unknown kind), with its dimensions, contours, inner z range and maximum volume, both calculation arrays fresh with one adjusted point per contour point, and no ghost-item list yet |
| UldProperties.ULDProperties.ContourForCalculation | 03_stability_approaches/model/ULDProperties.java:190-214 | a fresh array with one adjusted point per contour point, in order |
| UldProperties.ULDProperties.GetGhostItems | 03_stability_approaches/model/ULDProperties.java:296-300 | the list is created empty on the first request and is the same list on every later one |
| UldProperties.ULDProperties.DetermineXZValuesForSolutionItem | 03_stability_approaches/model/ULDProperties.java:375-399 | x and then z follow the per-axis placement rule with 32-bit sums: kept when no new value is asked for and x + size (wrapped) < extent; otherwise redrawn with bound extent - size + 1 (wrapped) when size < extent, else the item is marked unused; a non-positive bound throws IllegalArgument, leaving the x already set and z unchanged |
| UldProperties.RedrawnCoordinateFits | 03_stability_approaches/model/ULDProperties.java:380-388 | a coordinate that is redrawn without an exception lies between 0 and width - w |
| UldProperties.KeptCoordinateImpliesFit | 03_stability_approaches/model/ULDProperties.java:380-388 | a kept non-negative coordinate whose sum x + w does not overflow implies the item fits: w < width and x + w < width |
| UldProperties.DrawBound | 03_stability_approaches/model/ULDProperties.java:384-384 | the 32-bit bound width - w + 1 is an int; for a smaller item it is positive exactly when width - w < 2^31 - 1, and then equals width - w + 1 |
| UldProperties.AxisRule | 03_stability_approaches/model/ULDProperties.java:378-388 | the placement rule of one axis: throws IllegalArgument exactly when a redraw is due and its bound wraps to zero or below; the item fits exactly when its coordinate is kept or it is smaller than the extent; a kept or unfit coordinate is unchanged with no draw, a redrawn one is the next draw below the bound |
| UldProperties.RedrawThrowsOnlyOnWrap | 03_stability_approaches/model/ULDProperties.java:384-384 | the rule throws exactly when a redraw is due, the item is smaller than the unit and width - w >= 2^31 - 1 |
| UldProperties.OverflowKeepsUnfitCoordinate | 03_stability_approaches/model/ULDProperties.java:380-381 | x = 1, w = 2^31 - 1, width = 100 keeps x because x + w wraps negative, although the item does not fit |
| UldProperties.FullWidthRedrawThrows | 03_stability_approaches/model/ULDProperties.java:384-384 | a redraw with width = 2^31 - 1 and w = 0 throws IllegalArgument, since the bound wraps to -2^31 |
| UldProperties.Draw | 03_stability_approaches/model/ULDProperties.java:384-384 | random.nextInt(bound) lies in [0, bound) |
| UldProperties.RandomSource.constructor | 03_stability_approaches/model/ULDProperties.java:375-375 | the source starts before its first draw |
| UldProperties.RandomSource.NextInt | 03_stability_approaches/model/ULDProperties.java:384-384 | a non-positive bound throws IllegalArgument without a draw; otherwise the next draw of the source, in [0, bound), counted as one call |
| UldProperties.SolutionItem.constructor | 03_stability_approaches/model/ULDProperties.java:375-375 | the solution item holds the given shape, coordinates and used flag |
| SupportPolygons.ContactSupportFromWithValidBase | 03_stability_approaches/staticStability/assessment/baseSupport/PacquayCriterion.java:126-156 | for an item with a valid base the point test never throws: from any item below on, it is true exactly when the point lies in the footprint of one of those items or in the hull of everything collected plus their contact points |
| SupportPolygons.ContactSupportWithValidBase | 03_stability_approaches/staticStability/assessment/baseSupport/PacquayCriterion.java:126-156 | for a valid base, isPointSupported is true exactly when the point lies in some footprint below or in the convex hull of all contact points with the items below |
| SupportPolygons.ContactSupportWithInvalidBase | 03_stability_approaches/staticStability/assessment/baseSupport/PacquayCriterion.java:126-156 | for a base that is not a valid geometry, with no item below the point is not supported; otherwise the first item below decides: a footprint hit answers true and anything else throws the TopologyException of the contact query |
| SupportPolygons.NothingBelowSupportsNothing | 03_stability_approaches/staticStability/assessment/baseSupport/PacquayCriterion.java:147-155 | with no item below the hull is built from no coordinates, is empty and contains no point, so the test answers false |
| SupportPolygons.NonFiniteIsNeverSupported | 03_stability_approaches/staticStability/assessment/sme/CriteriasToCompare/ScienceOfStaticRamosCriterion.java:124-163 | a resultant with NaN or infinite coordinates is never supported; the only other outcome is the TopologyException of a contact query |
| SupportPolygons.IsPointSupported | 03_stability_approaches/staticStability/assessment/baseSupport/PacquayCriterion.java:126-156 | the loop that answers true at the first footprint holding the point and otherwise collects contact points and asks their hull computes exactly the point-support test above |
| SupportPolygons.ForcePoint | 03_stability_approaches/staticStability/assessment/sme/CriteriasToCompare/ScienceOfStaticRamosCriterion.java:192-195 | the resultant point of a force pair is non-finite exactly when the total force is zero, and otherwise its coordinates times the total force give back the weighted sums |
| StablePrefixes.PrefixFromIsFirstUnstable | 03_stability_approaches/staticStability/assessment/baseSupport/PacquayCriterion.java:78-85 | the counting walk stops at the first item that is not stable, every item before it being stable, or lets through the exception of the first stability test that throws |
| StablePrefixes.PrefixFromEndsAt | 03_stability_approaches/staticStability/assessment/baseSupport/PacquayCriterion.java:78-85 | conversely, any position that ends a run of stable items followed by an unstable one (or the end) is exactly what the walk counts |
| StablePrefixes.PrefixScoreBounds | 03_stability_approaches/staticStability/assessment/baseSupport/PacquayCriterion.java:78-85 | the share of the stable prefix lies in [0, 1]; it is 1 exactly when every item is stable and 0 exactly when the first item is not |
| StablePrefixes.CountStablePrefix | 03_stability_approaches/staticStability/assessment/baseSupport/PacquayCriterion.java:78-84 | the counting loop returns the length of the stable prefix: every counted item is stable and the next one, if any, is not |
| StablePrefixes.BoxOnlyScoreRange | 03_stability_approaches/staticStability/assessment/baseSupport/PacquayCriterion.java:73-85 | the score of a non-empty unit is -1 exactly when some item is not a box, and otherwise a share in [0, 1] |
| StablePrefixes.ScoreBoxesByPrefix | 03_stability_approaches/staticStability/assessment/baseSupport/PacquayCriterion.java:73-85 | the box check loop followed by the counting loop computes the box-only score: -1 for a non-box item, else stable prefix divided by item count |
| FullBaseSupport.NewFullBaseSupport | 03_stability_approaches/staticStability/assessment/baseSupport/FullBaseSupportCriterion.java:30-33 | the public constructor keeps the weight and demands a base support factor of 1 |
| FullBaseSupport.AssureULDSupportStructureHasBeenCalculated | 03_stability_approaches/staticStability/assessment/baseSupport/FullBaseSupportCriterion.java:74-82 | the unit's relations become those of the ensure step: untouched on an empty unit, the support pass run only when the first value has nothing below and nothing on top; the support graph stays layered |
| FullBaseSupport.EnsureSkipsRecordedStructure | 03_stability_approaches/staticStability/assessment/baseSupport/FullBaseSupportCriterion.java:74-82 | on an empty unit, or when the first value already has items below or on top, the ensure step leaves the relations unchanged |
| FullBaseSupport.CalculateULDSupportStructure | 03_stability_approaches/staticStability/assessment/baseSupport/PacquayCriterion.java:87-94 | the private ensure step of the other criteria throws NoSuchElementException exactly on an empty map of placed items, leaving the relations alone, and otherwise acts as the public ensure step |
| FullBaseSupport.PassesIff | 03_stability_approaches/staticStability/assessment/baseSupport/FullBaseSupportCriterion.java:68-69 | a factor passes exactly when it is finite and at least the threshold minus EPSILON, or NaN, or +Infinity |
| FullBaseSupport.LowerThresholdPasses | 03_stability_approaches/staticStability/assessment/baseSupport/FullBaseSupportCriterion.java:68-69 | a factor that passes a threshold passes every lower one |
| FullBaseSupport.FirstFailingFrom | 03_stability_approaches/staticStability/assessment/baseSupport/FullBaseSupportCriterion.java:66-70 | a failing position found by the scan lies within the items scanned |
| FullBaseSupport.FirstFailingFromMeaning | 03_stability_approaches/staticStability/assessment/baseSupport/FullBaseSupportCriterion.java:66-71 | the scan finds no position exactly when every item from k on passes; a found position is preceded by passing items and its factor fails; an exception is that of the first factor that throws after passing items |
| FullBaseSupport.CleanScanAtLowerThreshold | 03_stability_approaches/staticStability/assessment/baseSupport/FullBaseSupportCriterion.java:66-71 | a scan in which every item passes at one threshold passes every item at any lower threshold |
| FullBaseSupport.FirstFailingIsPrefix | 03_stability_approaches/staticStability/assessment/baseSupport/FullBaseSupportCriterion.java:66-71 | the threshold scan and the stable-prefix walk with the pass rule stop at the same item and throw the same exceptions |
| FullBaseSupport.ThresholdScoreIsPrefixScore | 03_stability_approaches/staticStability/assessment/baseSupport/FullBaseSupportCriterion.java:59-72 | when the sorted items' sequence numbers are their positions, the threshold score equals the stable-prefix share used by the other heuristic criteria |
| FullBaseSupport.ScanSorted | 03_stability_approaches/staticStability/assessment/baseSupport/FullBaseSupportCriterion.java:64-71 | the loop over the sorted items returns 1 when all pass, the first failing item's sequence divided by the item count otherwise, and the exception of a factor that throws |
| FullBaseSupport.AssessUld | 03_stability_approaches/staticStability/assessment/baseSupport/FullBaseSupportCriterion.java:59-72 | assessUld runs the ensure step, then returns the threshold score of the sorted items under the relations it leaves |
| PartialBaseSupport.NewPartialBaseSupport | 03_stability_approaches/staticStability/assessment/baseSupport/PartialBaseSupportCriterion.java:14-20 | the constructor keeps weight and alpha and makes alpha the threshold of the inherited scan |
| PartialBaseSupport.Copy | 03_stability_approaches/staticStability/assessment/baseSupport/PartialBaseSupportCriterion.java:22-25 | a copy has the same weight and alpha with alpha as its threshold, and equals a constructed original |
| PartialBaseSupport.GetType | 03_stability_approaches/staticStability/assessment/baseSupport/PartialBaseSupportCriterion.java:27-30 | the criterion reports PARTIAL_BASE_SUPPORT, not the kind of the class it extends |
| PartialBaseSupport.AssessUld | 03_stability_approaches/staticStability/assessment/baseSupport/FullBaseSupportCriterion.java:59-72 | the inherited assessUld runs the ensure step and scores the sorted items against alpha |
| PartialBaseSupport.FullSupportImpliesPartialSupport | 03_stability_approaches/staticStability/assessment/baseSupport/PartialBaseSupportCriterion.java:12-20 | with alpha at most 1, items that all pass full base support all pass partial support, which then scores 1 |
| Pacquay.FootprintCorners | 03_stability_approaches/staticStability/assessment/baseSupport/PacquayCriterion.java:106-111 | the four footprint corners: the origin and the ends of width and depth, summed with 32-bit wrap-around |
| Pacquay.PacquayVerdict | 03_stability_approaches/staticStability/assessment/baseSupport/PacquayCriterion.java:102-125 | the stability test ignores the sequence number it is given |
| Pacquay.SupportedCornersWithValidBase | 03_stability_approaches/staticStability/assessment/baseSupport/PacquayCriterion.java:113-123 | with a valid base the corner count never throws and is the number of corners in a footprint below or in the contact hull |
| Pacquay.PacquayStableWithValidBase | 03_stability_approaches/staticStability/assessment/baseSupport/PacquayCriterion.java:102-125 | an item off the floor with a valid base is stable exactly when at least three corners are supported, and the test never throws |
| Pacquay.NoCornerSupportedWithNothingBelow | 03_stability_approaches/staticStability/assessment/baseSupport/PacquayCriterion.java:113-125 | with no item below none of the corners is counted as supported, and the count never throws |
| Pacquay.NothingBelowIsUnstable | 03_stability_approaches/staticStability/assessment/baseSupport/PacquayCriterion.java:102-125 | an item off the floor with nothing below it is not stable |
| Pacquay.SupportedCornersWithInvalidBase | 03_stability_approaches/staticStability/assessment/baseSupport/PacquayCriterion.java:113-156 | with an invalid base the count is the number of corners left when all lie in the first footprint below, and otherwise throws TopologyException |
| Pacquay.PacquayStableWithInvalidBase | 03_stability_approaches/staticStability/assessment/baseSupport/PacquayCriterion.java:102-156 | with an invalid base and items below, an item off the floor is stable or the test throws TopologyException; it is never judged unstable |
| Pacquay.CornersInFootprints | 03_stability_approaches/staticStability/assessment/baseSupport/PacquayCriterion.java:113-156 | corners that each lie in a footprint below (in the first one unless the base is valid) are all supported |
| Pacquay.FootprintHitShortCircuits | 03_stability_approaches/staticStability/assessment/baseSupport/PacquayCriterion.java:126-156 | a point in the footprint of some item below is supported whatever the contact queries would have answered, provided none before it throws |
| Pacquay.StableOnWiderItem | 03_stability_approaches/staticStability/assessment/baseSupport/PacquayCriterion.java:102-156 | an item whose footprint lies inside the footprint of an item below it (the first one, or any when the base is valid) is stable |
| Pacquay.IsStableWithItemAtSequence | 03_stability_approaches/staticStability/assessment/baseSupport/PacquayCriterion.java:102-125 | the four corner tests in order compute exactly the criterion's stability verdict, exceptions included |
| Pacquay.AssessUld | 03_stability_approaches/staticStability/assessment/baseSupport/PacquayCriterion.java:66-86 | 1 for an empty unit; NoSuchElementException when the sorted list is non-empty but the map is empty; otherwise the ensure step and the box-only stable-prefix score |
| Ramos.Contributors | 03_stability_approaches/staticStability/assessment/sme/CriteriasToCompare/ScienceOfStaticRamosCriterion.java:181-190 | the contributors at step s are exactly the items of the list placed at s or earlier |
| Ramos.FoldAllAppend | 03_stability_approaches/staticStability/assessment/sme/CriteriasToCompare/ScienceOfStaticRamosCriterion.java:204-216 | adding one more item to the fold adds its force pair to the running pair, or throws its cast exception |
| Ramos.FoldOnTopIsFoldOfContributors | 03_stability_approaches/staticStability/assessment/sme/CriteriasToCompare/ScienceOfStaticRamosCriterion.java:171-196 | the resultant fold at step s is the fold over the items on top placed by then; later items have no influence |
| Ramos.ResultantOfLoneItem | 03_stability_approaches/staticStability/assessment/sme/CriteriasToCompare/ScienceOfStaticRamosCriterion.java:171-240 | a box with non-zero weight and nothing placed on top by step s has its absolute centre of mass as its resultant point |
| Ramos.BelowStableMeaning | 03_stability_approaches/staticStability/assessment/sme/CriteriasToCompare/ScienceOfStaticRamosCriterion.java:112-122 | the test of the items below passes exactly when each item below is stable and passes the same test in turn |
| Ramos.BelowStableReachesDown | 03_stability_approaches/staticStability/assessment/sme/CriteriasToCompare/ScienceOfStaticRamosCriterion.java:89-122 | passing the test of the items below makes every item reachable downwards stable at the same step |
| Ramos.RamosStableMeaning | 03_stability_approaches/staticStability/assessment/sme/CriteriasToCompare/ScienceOfStaticRamosCriterion.java:89-122 | a stable item off the floor has a supported resultant point, and every item reachable downwards is stable at that step |
| Ramos.ZeroForceIsNeverStable | 03_stability_approaches/staticStability/assessment/sme/CriteriasToCompare/ScienceOfStaticRamosCriterion.java:89-196 | an item off the floor whose contributing forces sum to zero is never stable |
| Ramos.NothingBelowIsUnstable | 03_stability_approaches/staticStability/assessment/sme/CriteriasToCompare/ScienceOfStaticRamosCriterion.java:89-163 | an item off the floor with nothing below it is not stable; only the resultant's own exception comes first |
| Ramos.GetResultantForcePointRegardingSequenceStep | 03_stability_approaches/staticStability/assessment/sme/CriteriasToCompare/ScienceOfStaticRamosCriterion.java:171-196 | the loop over the items on top computes the resultant point of the fold over the items placed by the step |
| Ramos.FoldFailureStays | 03_stability_approaches/staticStability/assessment/sme/CriteriasToCompare/ScienceOfStaticRamosCriterion.java:181-190 | once the fold over a prefix of the items on top throws, the whole fold throws the same exception |
| Ramos.AssessUld | 03_stability_approaches/staticStability/assessment/sme/CriteriasToCompare/ScienceOfStaticRamosCriterion.java:51-71 | 1 for an empty unit; NoSuchElementException when the map is empty; otherwise the ensure step and the box-only stable-prefix score with the item at position i checked at step i |
| RamosByKrebs.FoldAgreesWithRamos | 03_stability_approaches/staticStability/assessment/sme/CriteriasToCompare/ScienceOfStaticRamosCriterionByKrebs.java:153-163 | without centre-of-mass offsets and with every item on top already placed, this fold equals the Ramos fold |
| RamosByKrebs.AgreesWithRamosOnceAllPlaced | 03_stability_approaches/staticStability/assessment/sme/CriteriasToCompare/ScienceOfStaticRamosCriterionByKrebs.java:138-151 | under the same conditions this resultant point is the one the Ramos criterion computes at that step |
| RamosByKrebs.OverlapCorners | 03_stability_approaches/staticStability/assessment/sme/CriteriasToCompare/ScienceOfStaticRamosCriterionByKrebs.java:111-122 | every item below contributes exactly four overlap corners |
| RamosByKrebs.OverlapCornersLieInBothFootprints | 03_stability_approaches/staticStability/assessment/sme/CriteriasToCompare/ScienceOfStaticRamosCriterionByKrebs.java:111-122 | when the footprints overlap, every overlap corner lies in both footprints |
| RamosByKrebs.OverlapSupportMeaning | 03_stability_approaches/staticStability/assessment/sme/CriteriasToCompare/ScienceOfStaticRamosCriterionByKrebs.java:102-136 | the point is supported exactly when it lies in some footprint below or in the hull of all overlap corners; the test never throws |
| RamosByKrebs.KrebsRamosVerdict | 03_stability_approaches/staticStability/assessment/sme/CriteriasToCompare/ScienceOfStaticRamosCriterionByKrebs.java:84-100 | the stability test ignores the position it is given |
| RamosByKrebs.AllBelowStableMeaning | 03_stability_approaches/staticStability/assessment/sme/CriteriasToCompare/ScienceOfStaticRamosCriterionByKrebs.java:94-96 | the loop over the items below passes exactly when every item below is stable |
| RamosByKrebs.StableReachesDown | 03_stability_approaches/staticStability/assessment/sme/CriteriasToCompare/ScienceOfStaticRamosCriterionByKrebs.java:84-100 | every item on a downward path from a stable item is stable, and those off the floor have supported resultant points |
| RamosByKrebs.ZeroForceIsUnstable | 03_stability_approaches/staticStability/assessment/sme/CriteriasToCompare/ScienceOfStaticRamosCriterionByKrebs.java:84-151 | an item off the floor whose forces sum to zero is judged unstable |
| RamosByKrebs.NothingBelowIsUnstable | 03_stability_approaches/staticStability/assessment/sme/CriteriasToCompare/ScienceOfStaticRamosCriterionByKrebs.java:84-136 | an item off the floor with nothing below it is not stable; only the resultant's own exception comes first |
| RamosByKrebs.IsResultantForcePointSupported | 03_stability_approaches/staticStability/assessment/sme/CriteriasToCompare/ScienceOfStaticRamosCriterionByKrebs.java:102-136 | the loop collecting overlap corners with the footprint short-circuit computes exactly the overlap support test |
| RamosByKrebs.GetResultantForcePoint | 03_stability_approaches/staticStability/assessment/sme/CriteriasToCompare/ScienceOfStaticRamosCriterionByKrebs.java:138-151 | the loop over all items on top computes the resultant point of the fold |
| RamosByKrebs.FoldFailureStays | 03_stability_approaches/staticStability/assessment/sme/CriteriasToCompare/ScienceOfStaticRamosCriterionByKrebs.java:144-146 | once the fold over a prefix throws, the whole fold throws the same exception |
| RamosByKrebs.AssessUld | 03_stability_approaches/staticStability/assessment/sme/CriteriasToCompare/ScienceOfStaticRamosCriterionByKrebs.java:53-71 | 1 for an empty unit; NoSuchElementException when the map is empty; otherwise the ensure step and the box-only stable-prefix score |
| Krebs.Append | 03_stability_approaches/staticStability/assessment/sme/CriteriasToCompare/ScienceOfStaticKrebsCriterion.java:111-113 | adding an item to a label's list appends it at the end and leaves every other label's list alone |
| Krebs.NothingPendingPastEnd | 03_stability_approaches/staticStability/assessment/sme/CriteriasToCompare/ScienceOfStaticKrebsCriterion.java:92-93 | past the last row of the double loop no pair is left to record anything |
| Krebs.PendingAtRowEnd | 03_stability_approaches/staticStability/assessment/sme/CriteriasToCompare/ScienceOfStaticKrebsCriterion.java:92-93 | at the end of a row the pairs left are those of the next row on |
| Krebs.PendingAtPair | 03_stability_approaches/staticStability/assessment/sme/CriteriasToCompare/ScienceOfStaticKrebsCriterion.java:92-93 | inside a row the pairs left are the current pair and those after it |
| Krebs.CorridorStepMeaning | 03_stability_approaches/staticStability/assessment/sme/CriteriasToCompare/ScienceOfStaticKrebsCriterion.java:98-130 | one pair adds to a label's list exactly the entry it records, and nothing else |
| Krebs.CorridorsFromMeaning | 03_stability_approaches/staticStability/assessment/sme/CriteriasToCompare/ScienceOfStaticKrebsCriterion.java:92-132 | the double loop from a pair on adds to each list exactly the entries of the pairs still to come |
| Krebs.CorridorsMeaning | 03_stability_approaches/staticStability/assessment/sme/CriteriasToCompare/ScienceOfStaticKrebsCriterion.java:87-135 | an item is listed in the corridor of a label exactly when some pair of distinct positions records it there |
| Krebs.CorridorEntryIsLower | 03_stability_approaches/staticStability/assessment/sme/CriteriasToCompare/ScienceOfStaticKrebsCriterion.java:98-130 | an entry names the upper item of the pair by its label and the other item as the one below; that item lies strictly lower and the footprints meet |
| Krebs.CalculateItemsInCorridor | 03_stability_approaches/staticStability/assessment/sme/CriteriasToCompare/ScienceOfStaticKrebsCriterion.java:87-135 | the double loop over pairs of values builds exactly the corridor map described above |
| Krebs.ExtentUpToIsBoundingBox | 03_stability_approaches/staticStability/assessment/sme/CriteriasToCompare/ScienceOfStaticKrebsCriterion.java:183-195 | the inner loop's extent holds the start and every item of the level, and each of its bounds is attained by one of them |
| Krebs.LevelExtentIsBoundingBox | 03_stability_approaches/staticStability/assessment/sme/CriteriasToCompare/ScienceOfStaticKrebsCriterion.java:177-195 | the level extent is the bounding box of the item and the items of its level |
| Krebs.LoneItemNeedsCentreOnIt | 03_stability_approaches/staticStability/assessment/sme/CriteriasToCompare/ScienceOfStaticKrebsCriterion.java:174-203 | with one item in the list the centre must lie strictly inside its footprint |
| Krebs.IsolatedItemNeedsCentreOnIt | 03_stability_approaches/staticStability/assessment/sme/CriteriasToCompare/ScienceOfStaticKrebsCriterion.java:174-203 | for an item with no other item in its level, the levels hold only when the centre lies strictly inside its own footprint |
| Krebs.IsolatedExtent | 03_stability_approaches/staticStability/assessment/sme/CriteriasToCompare/ScienceOfStaticKrebsCriterion.java:183-195 | an item with no other item in its level keeps its own footprint as its extent |
| Krebs.ConstructLevelsAndControlStability | 03_stability_approaches/staticStability/assessment/sme/CriteriasToCompare/ScienceOfStaticKrebsCriterion.java:174-203 | the loop returns true exactly when the centre lies strictly inside the level extent of every item of the list |
| Krebs.KrebsVerdict | 03_stability_approaches/staticStability/assessment/sme/CriteriasToCompare/ScienceOfStaticKrebsCriterion.java:137-149 | the stability test ignores the position it is given |
| Krebs.StableImpliesPartialSupport | 03_stability_approaches/staticStability/assessment/sme/CriteriasToCompare/ScienceOfStaticKrebsCriterion.java:137-172 | a stable item off the floor passes the base support test with 0.75 and has its centre strictly inside the level extent of each item directly below it |
| Krebs.PartialSupportAndLevelsImplyStable | 03_stability_approaches/staticStability/assessment/sme/CriteriasToCompare/ScienceOfStaticKrebsCriterion.java:137-172 | conversely, a box off the floor with its centre inside every level extent and a passing factor is stable |
| Krebs.AssessUld | 03_stability_approaches/staticStability/assessment/sme/CriteriasToCompare/ScienceOfStaticKrebsCriterion.java:49-69 | 1 for an empty unit; -1 as soon as an item is not a box; then NoSuchElementException on an empty map, or the ensure step, the corridors and the stable-prefix share |

## Left out

- Rigid-body physics criteria, visualisation and the Python/ADAMS benchmark drivers: these are simulation engines, I/O and foreign APIs, not logic of the assessors.
- Convex-hull containment, the polygon intersection behind contact points, base-geometry validity, base-support-factor geometry, the minimal resting height query, `ItemCoordinates`, the side and neighbourhood tests, and `ULD.getHull`: these are foreign geometry code (JTS, QuickHull, EnvironmentRelationService, GeometryHelperForULDs). Each is a function-valued parameter, with only the soundness conditions the callers need.
- The hull volume in `ULDProperties.calculateMaxVolume` (its determinant branch) is a parameter. The face and rectangle helpers of `ULDProperties` are given values, not computed.
- Floating-point rounding error: doubles are reals. `Math.round` is exact nearest-integer rounding, saturated to the `long` range. NaN and the infinities appear only where a division by zero can produce them (`Quotient`, resultant points).
- NaN and infinite resultant points are one non-finite point, which no footprint or hull contains. The model does not say which IEEE value arises.
- FullBaseSupport.PassesIff: a NaN base support factor passes the threshold test, because no comparison with NaN holds in Java. The model keeps this; it does not treat it as a flaw.
- Thread-safety of the double-checked `synchronized` caches (`getVolume`, `getPoints`, `getBaseShape`, `getBoundingBox`, `getHull`): the caches are plain compute-once fields.
- Object identity: Java `==`/`equals` on placed items and the identity-keyed relation objects are value equality. Items of a unit are assumed to have distinct labels.
- `AbstractAssessmentCriterion.assess` and the scorers (`LowestSequenceScoring`, `AssessmentScorer`): their code is not part of this model. The assessment service takes the scorer as a parameter.
- `copy`, `getType` and the constructors of the criteria other than partial and full base support are persistence and JSON boilerplate. So are annotations, DTO conversion (`toDTO`) and the Hibernate constructors.
- `preProcessing` of the criteria: every one of them has an empty body.
- `ULDProperties.printDebugInfo` and the `printVertexList*` helpers: logging only.
- PlacedItem's delegations to `PackingSequenceItem` and `EnvironmentRelationService` (`hasXSupport` and the like): foreign code, not part of this model.
- `reactionPointsBelongToOneItem` and `distributeForceEqually` in the reaction force calculator: they are never called.
- Pacquay.StableOnWiderItem: stated only for items whose `x + width` and `z + depth` do not overflow 32 bits. The corner sums themselves wrap around as in Java.
- ReactionForceCalculator.SortByDistance: the library sort is a stable insertion by squared distance. Distances are compared squared, since the square root is monotone.
- ULDs.SortBySequence: the Java sort of placed items uses a `compareTo` that never answers 0. It is modelled as inserting each item before the first item of equal or larger sequence. For distinct sequence numbers this is the one sorted order. Items sharing a sequence number end up in reverse input order, and the model does not claim this matches the Java library sort.
- The aliasing of the reduced right-hand side in the triple search is modelled: each trial solve mutates the shared array, and later trials see the result. Aliasing between other arrays and lists, such as the reaction-point list that is sorted in place and stored in the force item, is threaded through the model as values.
- The recursion of the Science-of-Static manager and of the Ramos-style criteria over the support graph assumes a layered graph. Cyclic relations, on which the Java code would overflow its stack, are not modelled.
- PlacedItems.AddIfAbsent: the relation lists belong to `EnvironmentRelations`, whose code is not part of this model. The model assumes they behave as insertion-ordered lists without duplicates: an item already listed is not added again. This matters because the support pass runs again after each ensure step, and a list that kept duplicates would count an item below twice in `getBaseSupportFactor` (PlacedItem.java:179-188).
- UldProperties.ULDProperties.constructor: a Dafny constructor cannot throw, so it requires a side-contour point on the floor. The `NoSuchElementException` of `orElseThrow` (ULDProperties.java:122-123) is raised by `ULDProperties.Create` and `ULD.Restore` before any constructor runs.
- UldProperties.KeptCoordinateImpliesFit: stated only when `x + w` does not overflow 32 bits. OverflowKeepsUnfitCoordinate shows the wrapped case, where a coordinate is kept for an item that does not fit.
- PlacedItems.PlacedItem: the sequence number is a `nat`, while PlacedItem.java:24 declares an `int`. Negative sequence numbers are not modelled; the per-step maps and loops of the force calculation and the criteria are indexed by natural numbers.
- ULDs.ULD.Valid: every item of a unit lies at `y >= 0`, and so the constructors `ULDs.ULD.FromItems`, `ULDs.ULD.FromUnderConstruction`, `ULDs.ULD.FromDto` and `ULDs.ULD.Restore` require their items on or above the floor. The Java `ULD` accepts any `y`. The bound gives the support graph its levels, measured from the floor, on which the recursive criteria terminate.
- Shapes.Equals: the argument is a shape or some other object, never null. Java's `equals(null)` throws a `NullPointerException` from `object.getClass()` while building the message (Shape3D.java:212-213), not the `IllegalArgumentException` the model returns for a non-shape.
