/**
 * The cuboid shape: three non-negative double dimensions (width along x,
 * height along y, depth along z) and its rotation state. Everything here
 * speaks about boxes only; what a box does against an arbitrary shape is
 * in the module Shapes.
 */
module Boxes {
  import opened Wrappers
  import opened Points

  datatype Box = Box(width: real, height: real, depth: real, rotationState: int)

  /** The smallest axis-aligned cuboid enclosing a shape. */
  datatype BoundingBox = BoundingBox(width: real, height: real, depth: real)

  predicate ValidBox(b: Box) {
    b.width >= 0.0 && b.height >= 0.0 && b.depth >= 0.0
  }

  /** The constructor rejects a negative dimension with an IllegalArgumentException. */
  function NewBox(width: real, height: real, depth: real, rotationState: int): (r: Result<Box>)
    ensures r.Success? <==> width >= 0.0 && height >= 0.0 && depth >= 0.0
    ensures r.Failure? ==> r.error == IllegalArgument
    ensures r.Success? ==> r.value == Box(width, height, depth, rotationState) && ValidBox(r.value)
  {
    if width < 0.0 || height < 0.0 || depth < 0.0 then Failure(IllegalArgument)
    else Success(Box(width, height, depth, rotationState))
  }

  /** The area of the base rectangle (width by depth). */
  function BaseArea(b: Box): real {
    b.width * b.depth
  }

  /** The volume: base area times height. */
  function Volume(b: Box): real {
    BaseArea(b) * b.height
  }

  lemma VolumeOfValidBox(b: Box)
    requires ValidBox(b)
    ensures BaseArea(b) >= 0.0 && Volume(b) >= 0.0
    ensures Volume(b) == b.width * b.height * b.depth
  {
  }

  /** The eight corners, in the order the point cache lists them. */
  function Corners(b: Box): (pts: seq<Point3D>)
    ensures |pts| == 8
    ensures forall k :: 0 <= k < 8 ==>
      (pts[k].x == 0.0 || pts[k].x == b.width) &&
      (pts[k].y == 0.0 || pts[k].y == b.height) &&
      (pts[k].z == 0.0 || pts[k].z == b.depth)
  {
    [Point3D(0.0, 0.0, 0.0), Point3D(0.0, 0.0, b.depth), Point3D(0.0, b.height, b.depth),
     Point3D(0.0, b.height, 0.0), Point3D(b.width, b.height, 0.0), Point3D(b.width, 0.0, 0.0),
     Point3D(b.width, 0.0, b.depth), Point3D(b.width, b.height, b.depth)]
  }

  /** Every combination of the two values per axis is one of the corners. */
  lemma CornersCoverAllCombinations(b: Box, x: real, y: real, z: real)
    requires x == 0.0 || x == b.width
    requires y == 0.0 || y == b.height
    requires z == 0.0 || z == b.depth
    ensures Point3D(x, y, z) in Corners(b)
  {
    var c := Corners(b);
    if x == 0.0 {
      if y == 0.0 {
        if z == 0.0 { assert c[0] == Point3D(x, y, z); } else { assert c[1] == Point3D(x, y, z); }
      } else {
        if z == 0.0 { assert c[3] == Point3D(x, y, z); } else { assert c[2] == Point3D(x, y, z); }
      }
    } else {
      if y == 0.0 {
        if z == 0.0 { assert c[5] == Point3D(x, y, z); } else { assert c[6] == Point3D(x, y, z); }
      } else {
        if z == 0.0 { assert c[4] == Point3D(x, y, z); } else { assert c[7] == Point3D(x, y, z); }
      }
    }
  }

  /** A box with positive dimensions has eight distinct corners. */
  lemma CornersDistinct(b: Box)
    requires b.width > 0.0 && b.height > 0.0 && b.depth > 0.0
    ensures forall i, j :: 0 <= i < j < 8 ==> Corners(b)[i] != Corners(b)[j]
  {
  }

  function GetBoundingBox(b: Box): (bb: BoundingBox)
    ensures bb.width == b.width && bb.height == b.height && bb.depth == b.depth
  {
    BoundingBox(b.width, b.height, b.depth)
  }

  predicate SameDimensions(b: Box, o: Box) {
    b.width == o.width && b.height == o.height && b.depth == o.depth
  }

  /**
   * Box against box: 0 for equal dimensions, otherwise 1 when this box has
   * the strictly larger volume and -1 when it has not.
   */
  function CompareBoxes(b: Box, o: Box): (r: int)
    ensures r == 0 <==> SameDimensions(b, o)
    ensures r == 1 <==> !SameDimensions(b, o) && b.width * b.height * b.depth > o.width * o.height * o.depth
    ensures r == -1 <==> !SameDimensions(b, o) && b.width * b.height * b.depth <= o.width * o.height * o.depth
  {
    if SameDimensions(b, o) then 0
    else if b.width * b.height * b.depth > o.width * o.height * o.depth then 1
    else -1
  }

  /** Strictly different volumes compare antisymmetrically. */
  lemma CompareBoxesAntisymmetric(b: Box, o: Box)
    requires b.width * b.height * b.depth != o.width * o.height * o.depth
    ensures CompareBoxes(b, o) == -CompareBoxes(o, b)
  {
  }

  /** Two different boxes of equal volume are each "smaller" than the other. */
  lemma EqualVolumeCompareIsNotAntisymmetric()
    ensures CompareBoxes(Box(1.0, 2.0, 1.0, 0), Box(2.0, 1.0, 1.0, 0)) == -1
    ensures CompareBoxes(Box(2.0, 1.0, 1.0, 0), Box(1.0, 2.0, 1.0, 0)) == -1
  {
  }

  /** The y-gate of a contact from above: the upper shape must sit exactly on this box's top. */
  predicate SupportsAt(b: Box, upperY: real, ownY: real) {
    upperY == ownY + b.height
  }

  /** The y-gate of the top coverage: the covering shape must be exactly height above this box's base. */
  function TopCoverageArea(b: Box, offsetY: real, intersectionArea: real): (area: real)
    ensures offsetY != b.height ==> area == 0.0
    ensures offsetY == b.height ==> area == intersectionArea
  {
    if offsetY != b.height then 0.0 else intersectionArea
  }
}
