/**
 * The validation of an item's centre of mass: its offset from the
 * geometric centre may not exceed half of the item's integer extent on
 * any axis.
 */
module RequirementCheck {
  import opened Numerics
  import opened Wrappers
  import opened Points

  /** Math.abs on a Java int: the magnitude, except that the most negative int is its own absolute value. */
  function IntAbs(v: int): (r: int)
    ensures v != INT_MIN ==> r >= 0 && (r == v || r == -v)
    ensures v == INT_MIN ==> r == INT_MIN
  {
    if v == INT_MIN then INT_MIN else if v < 0 then -v else v
  }

  /** The offset lies within half the extent on one axis; a value exactly on the half extent is inside. */
  predicate WithinHalf(extent: int, offset: real) {
    !(IntAbs(extent) as real / 2.0 < Abs(offset))
  }

  /**
   * asserCOMIsCorrect: nothing happens when the centre of mass lies
   * within half of width, height and depth (x, y and z); otherwise an
   * IllegalArgumentException.
   */
  function AssertComIsCorrect(itemLabel: string, width: int, height: int, depth: int, centerOfMass: Point3D): (r: Result<()>)
    ensures r.Success? <==>
      WithinHalf(width, centerOfMass.x) && WithinHalf(height, centerOfMass.y) && WithinHalf(depth, centerOfMass.z)
    ensures r.Failure? ==> r.error == IllegalArgument
  {
    var correct :=
      if IntAbs(width) as real / 2.0 < Abs(centerOfMass.x) then false
      else if IntAbs(height) as real / 2.0 < Abs(centerOfMass.y) then false
      else if IntAbs(depth) as real / 2.0 < Abs(centerOfMass.z) then false
      else true;
    if !correct then Failure(IllegalArgument) else Success(())
  }

  /** The bounds are closed: an offset of exactly half of each extent, in either direction, is accepted. */
  lemma HalfExtentIsAccepted(itemLabel: string, width: nat, height: nat, depth: nat, sx: bool, sy: bool, sz: bool)
    requires width <= INT_MAX && height <= INT_MAX && depth <= INT_MAX
    ensures var c := Point3D(if sx then width as real / 2.0 else -(width as real) / 2.0,
                             if sy then height as real / 2.0 else -(height as real) / 2.0,
                             if sz then depth as real / 2.0 else -(depth as real) / 2.0);
      AssertComIsCorrect(itemLabel, width, height, depth, c).Success?
  {
  }

  /** Just beyond half of the width on x is rejected, whatever the other axes hold. */
  lemma BeyondHalfWidthIsRejected(itemLabel: string, width: nat, height: int, depth: int, c: Point3D)
    requires width <= INT_MAX
    requires Abs(c.x) > width as real / 2.0
    ensures AssertComIsCorrect(itemLabel, width, height, depth, c) == Failure(IllegalArgument)
  {
  }

  /** A centre of mass at the geometric centre passes for any extents. */
  lemma CentredMassPasses(itemLabel: string, width: int, height: int, depth: int)
    requires INT_MIN < width && INT_MIN < height && INT_MIN < depth
    ensures AssertComIsCorrect(itemLabel, width, height, depth, Point3D(0.0, 0.0, 0.0)).Success?
  {
  }

  /**
   * Java's Math.abs(Integer.MIN_VALUE) is negative, so an extent of the
   * most negative int rejects every offset, even zero.
   */
  lemma MostNegativeExtentRejectsAll(itemLabel: string, height: int, depth: int, c: Point3D)
    ensures AssertComIsCorrect(itemLabel, INT_MIN, height, depth, c) == Failure(IllegalArgument)
  {
  }
}
