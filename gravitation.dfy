/** The gravitation force of an item: its weight times g, acting at the centre of mass projected onto the x-z plane. */
module GravitationForceCalculator {
  import opened Numerics
  import opened Points
  import opened Forces

  const G: real := 9.81

  /**
   * calculateGravitationForce: the magnitude is weight * 9.81 rounded to
   * two decimals; the acting point is (x, z) of the centre of mass, its
   * height ignored.
   */
  function CalculateGravitationForce(com: Point3D, weight: real): (f: Force)
    ensures f.point.x == com.x && f.point.y == com.z
    ensures f.magnitude == Round2(weight * G)
  {
    var force := MathRound(weight * G * 100.0) as real / 100.0;
    Force(Point2D(com.x, com.z), force)
  }

  /** The magnitude is within half a hundredth of the exact weight force. */
  lemma MagnitudeIsCloseToWeightForce(com: Point3D, weight: real)
    requires -1.0e14 <= weight <= 1.0e14
    ensures var f := CalculateGravitationForce(com, weight);
      weight * G - 0.005 < f.magnitude <= weight * G + 0.005
  {
    Round2IsClose(weight * G);
  }

  /** A weightless item has no gravitation force. */
  lemma ZeroWeightHasZeroForce(com: Point3D)
    ensures CalculateGravitationForce(com, 0.0).magnitude == 0.0
  {
  }

  /** The height of the centre of mass does not matter. */
  lemma HeightIsIgnored(com: Point3D, y: real, weight: real)
    ensures CalculateGravitationForce(com, weight) == CalculateGravitationForce(com.(y := y), weight)
  {
  }

  /** A heavier item never gets a smaller gravitation force. */
  lemma MagnitudeIsMonotone(com: Point3D, w1: real, w2: real)
    requires w1 <= w2
    ensures CalculateGravitationForce(com, w1).magnitude <= CalculateGravitationForce(com, w2).magnitude
  {
    assert w1 * G * 100.0 <= w2 * G * 100.0;
    assert (w1 * G * 100.0 + 0.5).Floor <= (w2 * G * 100.0 + 0.5).Floor;
  }
}
