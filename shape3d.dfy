/**
 * Three-dimensional shapes. A shape is a box or one of the other shape
 * types; what the other types compute (their contact points, coverage,
 * volume and ordering) and what the geometry library computes (validity
 * and intersection of base polygons) come from a GeometryOracle.
 */
module Shapes {
  import opened Numerics
  import opened Wrappers
  import opened Points
  import opened Boxes

  datatype ShapeKind = Cylinder | PolygonPrism | LShape

  datatype Shape3D =
    | BoxShape(box: Box)
    | OtherShape(kind: ShapeKind, rotationState: int, bounds: BoundingBox)

  /** An argument of equals: a shape or some other object. */
  datatype ObjectArg = ShapeObject(shape: Shape3D) | NonShapeObject

  /**
   * What the model does not compute itself. intersectionHull gives the
   * unique coordinates of the convex hull of the intersection of the first
   * shape's base (placed at the first origin) with the second shape's base
   * (placed at the second origin); intersectionArea the area that the first
   * shape's base shares with the second's base shifted by the offset;
   * hullContains whether the convex hull of the coordinates contains the
   * point. The other* entries are the implementations of the non-box shapes.
   */
  datatype GeometryOracle = GeometryOracle(
    baseValid: (Shape3D, Point2D) -> bool,
    intersectionHull: (Shape3D, Point2D, Shape3D, Point2D) -> seq<Point2D>,
    intersectionArea: (Shape3D, Shape3D, Point2D) -> real,
    hullContains: (seq<Point2D>, Point2D) -> bool,
    otherContact: (Shape3D, Shape3D, Point2D, real, Point3D) -> seq<Point2D>,
    otherBaseSupportFactor: (Shape3D, Shape3D, real, real, real) -> Quotient,
    otherTopCoverage: (Shape3D, Shape3D, real, real, real) -> real,
    otherVolume: Shape3D -> real,
    otherCompare: (Shape3D, Shape3D) -> int)

  function RotationState(s: Shape3D): int {
    match s
    case BoxShape(b) => b.rotationState
    case OtherShape(_, r, _) => r
  }

  function Bounds(s: Shape3D): BoundingBox {
    match s
    case BoxShape(b) => GetBoundingBox(b)
    case OtherShape(_, _, bb) => bb
  }

  /** getWidth, getHeight and getDepth: the bounding box's extents as ints (truncated). */
  function Width(s: Shape3D): int { Bounds(s).width.Floor }
  function Height(s: Shape3D): int { Bounds(s).height.Floor }
  function Depth(s: Shape3D): int { Bounds(s).depth.Floor }

  predicate IsBox(s: Shape3D) { s.BoxShape? }

  /**
   * compareTo: a box compares with a box by CompareBoxes and refuses any
   * other shape with an IllegalArgumentException.
   */
  function CompareTo(s: Shape3D, o: Shape3D, g: GeometryOracle): (r: Result<int>)
    ensures s.BoxShape? && o.BoxShape? ==> r == Success(CompareBoxes(s.box, o.box))
    ensures s.BoxShape? && !o.BoxShape? ==> r == Failure(IllegalArgument)
  {
    match s
    case BoxShape(b) =>
      if o.BoxShape? then Success(CompareBoxes(b, o.box)) else Failure(IllegalArgument)
    case OtherShape(_, _, _) => Success(g.otherCompare(s, o))
  }

  /** equals: an IllegalArgumentException for an object that is not a shape, otherwise compareTo == 0. */
  function Equals(s: Shape3D, obj: ObjectArg, g: GeometryOracle): (r: Result<bool>)
    ensures obj.NonShapeObject? ==> r == Failure(IllegalArgument)
    ensures obj.ShapeObject? ==>
      (r.Success? <==> CompareTo(s, obj.shape, g).Success?) &&
      (r.Success? ==> (r.value <==> CompareTo(s, obj.shape, g).value == 0))
  {
    match obj
    case NonShapeObject => Failure(IllegalArgument)
    case ShapeObject(o) =>
      match CompareTo(s, o, g)
      case Failure(e) => Failure(e)
      case Success(c) => Success(c == 0)
  }

  /** Two boxes are equal exactly when their dimensions agree; the rotation state plays no part. */
  lemma BoxEqualityIsDimensionEquality(b: Box, c: Box, g: GeometryOracle)
    ensures Equals(BoxShape(b), ShapeObject(BoxShape(c)), g) == Success(SameDimensions(b, c))
    ensures Equals(BoxShape(b), ShapeObject(BoxShape(c)), g) ==
      Equals(BoxShape(c), ShapeObject(BoxShape(b)), g)
  {
  }

  /** A coordinate rounded to two decimals: a whole number of hundredths. */
  predicate IsHundredths(v: real) {
    (v * 100.0).Floor as real == v * 100.0
  }

  function RoundedPoint(c: Point2D): Point2D {
    Point2D(Round2(c.x), Round2(c.y))
  }

  /** transformCoordinatesToPoints as a value: one rounded point per coordinate, in order. */
  function RoundedPoints(cors: seq<Point2D>): (pts: seq<Point2D>)
    ensures |pts| == |cors|
    ensures forall i :: 0 <= i < |cors| ==> pts[i] == RoundedPoint(cors[i])
  {
    seq(|cors|, i requires 0 <= i < |cors| => RoundedPoint(cors[i]))
  }

  /** transformCoordinatesToPoints: copies the coordinates in order, each rounded to two decimals. */
  method TransformCoordinatesToPoints(cors: seq<Point2D>) returns (pts: seq<Point2D>)
    ensures |pts| == |cors|
    ensures forall i :: 0 <= i < |cors| ==>
      pts[i].x == Round2(cors[i].x) && pts[i].y == Round2(cors[i].y)
    ensures pts == RoundedPoints(cors)
  {
    pts := [];
    for k := 0 to |cors|
      invariant pts == RoundedPoints(cors[..k])
    {
      assert cors[..k + 1] == cors[..k] + [cors[k]];
      pts := pts + [Point2D(Round2(cors[k].x), Round2(cors[k].y))];
    }
    assert cors[..|cors|] == cors;
  }

  lemma Round2IsHundredths(v: real)
    ensures IsHundredths(Round2(v))
  {
    var n := MathRound(v * 100.0) as real;
    var r := n / 100.0;
    assert r * 100.0 == n;
    assert n.Floor as real == n;
  }

  /** Every rounded point lies on the hundredths grid, within half a hundredth of its coordinate. */
  lemma RoundedPointsAreOnGrid(cors: seq<Point2D>, i: nat)
    requires i < |cors|
    requires -1.0e16 <= cors[i].x <= 1.0e16 && -1.0e16 <= cors[i].y <= 1.0e16
    ensures IsHundredths(RoundedPoints(cors)[i].x) && IsHundredths(RoundedPoints(cors)[i].y)
    ensures Abs(RoundedPoints(cors)[i].x - cors[i].x) <= 0.005
    ensures Abs(RoundedPoints(cors)[i].y - cors[i].y) <= 0.005
  {
    Round2IsHundredths(cors[i].x);
    Round2IsHundredths(cors[i].y);
    Round2IsClose(cors[i].x);
    Round2IsClose(cors[i].y);
  }

  /**
   * getContactShapeWithOther2dGeometryFromTop of the lower shape: for a box
   * nothing unless the upper base lies exactly on its top, otherwise the
   * rounded hull of the intersection of the two bases.
   */
  function ContactFromTop(lower: Shape3D, upper: Shape3D, upperOrigin: Point2D, upperY: real,
                          lowerOffset: Point3D, g: GeometryOracle): seq<Point2D>
  {
    match lower
    case BoxShape(b) =>
      if !SupportsAt(b, upperY, lowerOffset.y) then []
      else RoundedPoints(g.intersectionHull(lower, Point2D(lowerOffset.x, lowerOffset.z), upper, upperOrigin))
    case OtherShape(_, _, _) => g.otherContact(lower, upper, upperOrigin, upperY, lowerOffset)
  }

  /**
   * getContactPointsWithBottomShape: a TopologyException when the own base,
   * placed at the own (x, z), is not a valid geometry; otherwise the lower
   * shape's contact with it.
   */
  function ContactPointsWithBottomShape(own: Shape3D, other: Shape3D, ownOffset: Point3D, otherOffset: Point3D,
                                        g: GeometryOracle): (r: Result<seq<Point2D>>)
    ensures r.Failure? <==> !g.baseValid(own, Point2D(ownOffset.x, ownOffset.z))
    ensures r.Failure? ==> r.error == Topology
  {
    var origin := Point2D(ownOffset.x, ownOffset.z);
    if !g.baseValid(own, origin) then Failure(Topology)
    else Success(ContactFromTop(other, own, origin, ownOffset.y, otherOffset, g))
  }

  /**
   * Against a box below, the contact is empty unless the own y equals the
   * box's y plus its height; then it is the rounded intersection hull, whose
   * points lie on the hundredths grid.
   */
  lemma ContactWithBoxBelow(own: Shape3D, b: Box, ownOffset: Point3D, otherOffset: Point3D, g: GeometryOracle)
    requires g.baseValid(own, Point2D(ownOffset.x, ownOffset.z))
    ensures var r := ContactPointsWithBottomShape(own, BoxShape(b), ownOffset, otherOffset, g);
      r.Success? &&
      (ownOffset.y != otherOffset.y + b.height ==> r.value == []) &&
      (ownOffset.y == otherOffset.y + b.height ==>
        r.value == RoundedPoints(g.intersectionHull(BoxShape(b), Point2D(otherOffset.x, otherOffset.z),
                                                    own, Point2D(ownOffset.x, ownOffset.z))))
    ensures forall i :: 0 <= i < |ContactPointsWithBottomShape(own, BoxShape(b), ownOffset, otherOffset, g).value| ==>
      IsHundredths(ContactPointsWithBottomShape(own, BoxShape(b), ownOffset, otherOffset, g).value[i].x)
  {
    var r := ContactPointsWithBottomShape(own, BoxShape(b), ownOffset, otherOffset, g);
    forall i | 0 <= i < |r.value| ensures IsHundredths(r.value[i].x) {
      var raw := g.intersectionHull(BoxShape(b), Point2D(otherOffset.x, otherOffset.z), own, Point2D(ownOffset.x, ownOffset.z));
      assert r.value == RoundedPoints(raw);
      Round2IsHundredths(raw[i].x);
    }
  }

  /** getTopCoverageArea of the lower shape for an upper base shifted by the offsets. */
  function TopCoverage(lower: Shape3D, upper: Shape3D, offsetX: real, offsetY: real, offsetZ: real,
                       g: GeometryOracle): real
  {
    match lower
    case BoxShape(b) => TopCoverageArea(b, offsetY, g.intersectionArea(upper, lower, Point2D(-offsetX, -offsetZ)))
    case OtherShape(_, _, _) => g.otherTopCoverage(lower, upper, offsetX, offsetY, offsetZ)
  }

  /**
   * getBaseSupportFactor: for a box, the area of its base covered by the
   * other shape's top divided by its own base area; the division is the
   * double one, so a base of area zero gives NaN or an infinity.
   */
  function BaseSupportFactor(own: Shape3D, other: Shape3D, offsetX: real, offsetY: real, offsetZ: real,
                             g: GeometryOracle): Quotient
  {
    match own
    case BoxShape(b) => Divide(TopCoverage(other, own, -offsetX, -offsetY, -offsetZ, g), BaseArea(b))
    case OtherShape(_, _, _) => g.otherBaseSupportFactor(own, other, offsetX, offsetY, offsetZ)
  }

  /**
   * A box resting on a box: the factor is zero unless the lower box's top is
   * exactly at the upper box's base (offsetY = -height of the lower box),
   * and then it is the covered share of the upper base.
   */
  lemma BoxOnBoxSupportFactor(b: Box, c: Box, offsetX: real, offsetY: real, offsetZ: real, g: GeometryOracle)
    requires BaseArea(b) != 0.0
    ensures var f := BaseSupportFactor(BoxShape(b), BoxShape(c), offsetX, offsetY, offsetZ, g);
      f.Finite? &&
      (-offsetY != c.height ==> f.value == 0.0) &&
      (-offsetY == c.height ==>
        f.value == g.intersectionArea(BoxShape(b), BoxShape(c), Point2D(offsetX, offsetZ)) / BaseArea(b))
  {
  }

  /** The volume a shape computes for its cache. */
  function ComputedVolume(s: Shape3D, g: GeometryOracle): real {
    match s
    case BoxShape(b) => Volume(b)
    case OtherShape(_, _, _) => g.otherVolume(s)
  }

  /**
   * The compute-once volume cache of a shape. The value is stored before it
   * is checked, so a negative volume throws on the first call and is
   * returned by every later one.
   */
  class VolumeCache {
    const shape: Shape3D
    var volume: Option<real>

    constructor (shape: Shape3D)
      ensures this.shape == shape && volume == None
    {
      this.shape := shape;
      volume := None;
    }

    method GetVolume(g: GeometryOracle) returns (r: Result<real>)
      modifies this
      ensures old(volume).Some? ==> volume == old(volume) && r == Success(old(volume).value)
      ensures old(volume).None? ==> volume == Some(ComputedVolume(shape, g))
      ensures old(volume).None? ==>
        (r.Failure? <==> ComputedVolume(shape, g) < 0.0) &&
        (r.Failure? ==> r.error == IllegalState) &&
        (r.Success? ==> r.value == ComputedVolume(shape, g))
      ensures shape.BoxShape? && ValidBox(shape.box) && old(volume).None? ==> r.Success?
    {
      if volume.None? {
        volume := Some(ComputedVolume(shape, g));
        if shape.BoxShape? && ValidBox(shape.box) {
          VolumeOfValidBox(shape.box);
        }
        if volume.value < 0.0 {
          return Failure(IllegalState);
        }
      }
      return Success(volume.value);
    }
  }

  datatype Axis = X | Y
  datatype Direction = Minimum | Maximum

  function Key(c: Point2D, axis: Axis): real {
    if axis == X then c.x else c.y
  }

  predicate Beats(a: real, b: real, dir: Direction) {
    if dir == Minimum then a < b else a > b
  }

  /**
   * slot holds the first coordinate of s whose key beats every earlier key
   * and the start value and is not beaten by any later key; it stays empty
   * when no key beats the start value.
   */
  predicate FirstExtreme(s: seq<Point2D>, axis: Axis, dir: Direction, start: real, slot: Option<Point2D>) {
    match slot
    case None => forall j :: 0 <= j < |s| ==> !Beats(Key(s[j], axis), start, dir)
    case Some(c) => exists i :: 0 <= i < |s| && s[i] == c && IsFirstExtremeAt(s, axis, dir, start, i)
  }

  predicate IsFirstExtremeAt(s: seq<Point2D>, axis: Axis, dir: Direction, start: real, i: nat)
    requires i < |s|
  {
    Beats(Key(s[i], axis), start, dir) &&
    (forall j :: 0 <= j < i ==> Beats(Key(s[i], axis), Key(s[j], axis), dir)) &&
    (forall j :: i < j < |s| ==> !Beats(Key(s[j], axis), Key(s[i], axis), dir))
  }

  /** The tracker of one slot after a prefix: the slot, the running value and where it came from. */
  ghost predicate Tracks(s: seq<Point2D>, n: nat, axis: Axis, dir: Direction, start: real,
                         slot: Option<Point2D>, value: real, at: int)
    requires n <= |s|
  {
    (slot.None? ==> value == start && forall j :: 0 <= j < n ==> !Beats(Key(s[j], axis), start, dir)) &&
    (slot.Some? ==>
       0 <= at < n && slot.value == s[at] && value == Key(s[at], axis) &&
       IsFirstExtremeAt(s[..n], axis, dir, start, at))
  }

  lemma {:induction false} TracksStep(s: seq<Point2D>, n: nat, axis: Axis, dir: Direction, start: real,
                                      slot: Option<Point2D>, value: real, at: int)
    requires n < |s|
    requires Tracks(s, n, axis, dir, start, slot, value, at)
    ensures Beats(Key(s[n], axis), value, dir) ==>
      Tracks(s, n + 1, axis, dir, start, Some(s[n]), Key(s[n], axis), n)
    ensures !Beats(Key(s[n], axis), value, dir) ==>
      Tracks(s, n + 1, axis, dir, start, slot, value, at)
  {
    var u, t := s[..n], s[..n + 1];
    assert forall j :: 0 <= j < n ==> t[j] == u[j];
    if Beats(Key(s[n], axis), value, dir) {
      forall j | 0 <= j < n ensures Beats(Key(t[n], axis), Key(t[j], axis), dir) {
        if slot.Some? && j != at {
          assert j < at ==> Beats(Key(u[at], axis), Key(u[j], axis), dir);
          assert j > at ==> !Beats(Key(u[j], axis), Key(u[at], axis), dir);
        }
      }
    }
  }

  lemma TracksComplete(s: seq<Point2D>, axis: Axis, dir: Direction, start: real,
                       slot: Option<Point2D>, value: real, at: int)
    requires Tracks(s, |s|, axis, dir, start, slot, value, at)
    ensures FirstExtreme(s, axis, dir, start, slot)
  {
    assert s[..|s|] == s;
  }

  /**
   * reduceToMinMaxPoints: at most four coordinates come back unchanged;
   * otherwise four slots hold the first coordinate of smallest x, of
   * smallest y, of largest x and of largest y. The maximum trackers start
   * at Double.MIN_VALUE, the smallest positive double, so a slot for a
   * maximum stays empty (null) when no coordinate is positive on that axis.
   */
  method ReduceToMinMaxPoints(cors: array<Point2D>) returns (reduced: seq<Option<Point2D>>)
    ensures cors.Length <= 4 ==>
      |reduced| == cors.Length && forall i :: 0 <= i < cors.Length ==> reduced[i] == Some(cors[i])
    ensures cors.Length > 4 ==>
      (|reduced| == 4 &&
       FirstExtreme(cors[..], X, Minimum, DOUBLE_MAX, reduced[0]) &&
       FirstExtreme(cors[..], Y, Minimum, DOUBLE_MAX, reduced[1]) &&
       FirstExtreme(cors[..], X, Maximum, DOUBLE_MIN_VALUE, reduced[2]) &&
       FirstExtreme(cors[..], Y, Maximum, DOUBLE_MIN_VALUE, reduced[3]))
    ensures cors.Length > 4 && (forall j :: 0 <= j < cors.Length ==> cors[j].x <= 0.0) ==> reduced[2].None?
  {
    if cors.Length <= 4 {
      return seq(cors.Length, i requires 0 <= i < cors.Length reads cors => Some(cors[i]));
    }
    var r0, r1, r2, r3: Option<Point2D> := None, None, None, None;
    var xMin, zMin, xMax, zMax := DOUBLE_MAX, DOUBLE_MAX, DOUBLE_MIN_VALUE, DOUBLE_MIN_VALUE;
    ghost var a0, a1, a2, a3 := -1, -1, -1, -1;
    ghost var s := cors[..];
    var n := 0;
    while n < cors.Length
      invariant 0 <= n <= cors.Length && s == cors[..]
      invariant Tracks(s, n, X, Minimum, DOUBLE_MAX, r0, xMin, a0)
      invariant Tracks(s, n, Y, Minimum, DOUBLE_MAX, r1, zMin, a1)
      invariant Tracks(s, n, X, Maximum, DOUBLE_MIN_VALUE, r2, xMax, a2)
      invariant Tracks(s, n, Y, Maximum, DOUBLE_MIN_VALUE, r3, zMax, a3)
    {
      var c := cors[n];
      assert c == s[n];
      TracksStep(s, n, X, Minimum, DOUBLE_MAX, r0, xMin, a0);
      TracksStep(s, n, Y, Minimum, DOUBLE_MAX, r1, zMin, a1);
      TracksStep(s, n, X, Maximum, DOUBLE_MIN_VALUE, r2, xMax, a2);
      TracksStep(s, n, Y, Maximum, DOUBLE_MIN_VALUE, r3, zMax, a3);
      if c.x < xMin {
        xMin, r0, a0 := c.x, Some(c), n;
      }
      if c.y < zMin {
        zMin, r1, a1 := c.y, Some(c), n;
      }
      if c.x > xMax {
        xMax, r2, a2 := c.x, Some(c), n;
      }
      if c.y > zMax {
        zMax, r3, a3 := c.y, Some(c), n;
      }
      n := n + 1;
    }
    TracksComplete(s, X, Minimum, DOUBLE_MAX, r0, xMin, a0);
    TracksComplete(s, Y, Minimum, DOUBLE_MAX, r1, zMin, a1);
    TracksComplete(s, X, Maximum, DOUBLE_MIN_VALUE, r2, xMax, a2);
    TracksComplete(s, Y, Maximum, DOUBLE_MIN_VALUE, r3, zMax, a3);
    reduced := [r0, r1, r2, r3];
    if forall j :: 0 <= j < cors.Length ==> cors[j].x <= 0.0 {
      NoPositiveXLeavesMaxSlotEmpty(s, reduced[2]);
    }
  }

  /** With no positive x coordinate, the slot for the largest x stays empty. */
  lemma NoPositiveXLeavesMaxSlotEmpty(s: seq<Point2D>, slot: Option<Point2D>)
    requires FirstExtreme(s, X, Maximum, DOUBLE_MIN_VALUE, slot)
    requires forall j :: 0 <= j < |s| ==> s[j].x <= 0.0
    ensures slot.None?
  {
  }
}
