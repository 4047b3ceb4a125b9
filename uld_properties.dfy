/**
 * The loading unit's metadata: kind (cuboid, pallet with contour or
 * container), integer width, depth and maximum height, the loadable contour
 * and the derived data the placement code uses, and the integer placement
 * rule that proposes x and z for an item of a candidate solution.
 */
module UldProperties {
  import opened Numerics
  import opened Wrappers
  import opened Points
  import opened Boxes
  import opened Shapes

  datatype UldKind = Cuboid | PalletWithContour | Container

  /** The kind of transfer object a loading unit's properties arrive in. */
  datatype DtoKind = CuboidDto | PalletWithContourDto | ContainerDto | OtherDto

  /**
   * The transfer object. Its front and side faces are the projections of
   * the loadable contour that the geometry helpers compute; they arrive
   * here already computed.
   */
  datatype PropertiesDto = PropertiesDto(
    kind: DtoKind,
    width: int, depth: int, maxHeight: int,
    loadableContour: Option<seq<Point3D>>,
    contourFront: seq<Point2D>,
    contourSide: seq<Point2D>)

  /** create: cuboid, pallet and container objects keep their kind, anything else becomes a cuboid. */
  function KindOf(d: DtoKind): (k: UldKind)
    ensures d == PalletWithContourDto <==> k == PalletWithContour
    ensures d == ContainerDto <==> k == Container
    ensures (d == CuboidDto || d == OtherDto) <==> k == Cuboid
  {
    match d
    case CuboidDto => Cuboid
    case PalletWithContourDto => PalletWithContour
    case ContainerDto => Container
    case OtherDto => Cuboid
  }

  /** The cuboid volume: width * depth * maxHeight in 32-bit int arithmetic, widened to long. */
  function CuboidVolume(width: int, depth: int, maxHeight: int): (v: int)
    requires INT_MIN <= width <= INT_MAX && INT_MIN <= depth <= INT_MAX
    ensures INT_MIN <= v <= INT_MAX
    ensures INT_MIN <= width * depth <= INT_MAX && INT_MIN <= width * depth * maxHeight <= INT_MAX ==>
      v == width * depth * maxHeight
  {
    IntTimes(IntTimes(width, depth), maxHeight)
  }

  /**
   * calculateMaxVolume: the cuboid volume for a cuboid unit and for a unit
   * without (or with an empty) loadable contour; otherwise the volume of the
   * contour's convex hull, which the hull computation supplies.
   */
  function MaxVolume(kind: UldKind, width: int, depth: int, maxHeight: int,
                     contour: Option<seq<Point3D>>, hullVolume: int): (v: int)
    requires INT_MIN <= width <= INT_MAX && INT_MIN <= depth <= INT_MAX
    ensures kind == Cuboid || contour.None? || contour.value == [] ==> v == CuboidVolume(width, depth, maxHeight)
    ensures kind != Cuboid && contour.Some? && contour.value != [] ==> v == hullVolume
  {
    if kind == Cuboid then CuboidVolume(width, depth, maxHeight)
    else if contour.None? || contour.value == [] then CuboidVolume(width, depth, maxHeight)
    else hullVolume
  }

  /** A small-sized cuboid volume is the exact product. */
  lemma CuboidVolumeIsExactProduct(width: int, depth: int, maxHeight: int)
    requires 0 <= width <= 10000 && 0 <= depth <= 10000 && 0 <= maxHeight <= 20
    ensures CuboidVolume(width, depth, maxHeight) == width * depth * maxHeight
  {
    MulMonotone(width, depth, 10000, 10000);
    MulMonotone(width * depth, maxHeight, 100000000, 20);
  }

  lemma MulMonotone(a: int, b: int, A: int, B: int)
    requires 0 <= a <= A && 0 <= b <= B
    ensures 0 <= a * b <= A * B
  {
    assert a * b <= A * b;
    assert A * b <= A * B;
  }

  /** The contour point as used in calculations: 0.1 lower when it lies below the maximum height. */
  function ForCalculation(p: Point2D, maxHeight: int): (q: Point2D)
    ensures q.x == p.x
    ensures p.y < maxHeight as real ==> q.y == p.y - 0.1
    ensures p.y >= maxHeight as real ==> q == p
  {
    if p.y < maxHeight as real then Point2D(p.x, p.y - 0.1) else Point2D(p.x, p.y)
  }

  /** A ghost item: a stand-in for the floor below the wings of a contour with gaps. */
  datatype GhostItem = GhostItem(x: int, y: int, z: int, width: int, height: int, depth: int)

  /** The (linked) list of ghost items of a unit, created on first request. */
  class GhostItemList {
    var items: seq<GhostItem>

    constructor ()
      ensures items == []
    {
      items := [];
    }
  }

  /** Some point of the side face lies on the floor, at y == 0. */
  predicate HasFloorPoint(side: seq<Point2D>)
  {
    exists i :: 0 <= i < |side| && side[i].y == 0.0
  }

  /**
   * The smallest x of the side-face points on the floor: the front end of
   * the unit's floor along z. None when no point lies on the floor.
   */
  function InnerMinZ(side: seq<Point2D>): (r: Option<real>)
    ensures r.None? <==> !HasFloorPoint(side)
    ensures r.Some? ==> exists i :: 0 <= i < |side| && side[i].y == 0.0 && side[i].x == r.value
    ensures r.Some? ==> forall i :: 0 <= i < |side| && side[i].y == 0.0 ==> r.value <= side[i].x
  {
    if side == [] then None
    else
      var rest := InnerMinZ(side[1..]);
      FloorPointOfTail(side);
      if side[0].y != 0.0 then rest
      else if rest.None? || side[0].x <= rest.value then Some(side[0].x)
      else rest
  }

  /** The largest x of the side-face points on the floor, None when no point lies on the floor. */
  function InnerMaxZ(side: seq<Point2D>): (r: Option<real>)
    ensures r.None? <==> !HasFloorPoint(side)
    ensures r.Some? ==> exists i :: 0 <= i < |side| && side[i].y == 0.0 && side[i].x == r.value
    ensures r.Some? ==> forall i :: 0 <= i < |side| && side[i].y == 0.0 ==> side[i].x <= r.value
  {
    if side == [] then None
    else
      var rest := InnerMaxZ(side[1..]);
      FloorPointOfTail(side);
      if side[0].y != 0.0 then rest
      else if rest.None? || side[0].x >= rest.value then Some(side[0].x)
      else rest
  }

  /** The points of a non-empty side face are its head and the points of its tail, shifted by one. */
  lemma FloorPointOfTail(side: seq<Point2D>)
    requires side != []
    ensures forall i :: 1 <= i < |side| ==> side[i] == side[1..][i - 1]
    ensures HasFloorPoint(side) <==> side[0].y == 0.0 || HasFloorPoint(side[1..])
  {
    if HasFloorPoint(side[1..]) {
      var j :| 0 <= j < |side[1..]| && side[1..][j].y == 0.0;
      assert side[j + 1].y == 0.0;
    }
  }

  /** The inner z range is never reversed: its front end lies at or before its back end. */
  lemma InnerRangeIsOrdered(side: seq<Point2D>)
    requires HasFloorPoint(side)
    ensures InnerMinZ(side).Some? && InnerMaxZ(side).Some?
    ensures InnerMinZ(side).value <= InnerMaxZ(side).value
  {
    var i :| 0 <= i < |side| && side[i].y == 0.0;
    assert InnerMinZ(side).value <= side[i].x <= InnerMaxZ(side).value;
  }

  class ULDProperties {
    const kind: UldKind
    const width: int
    const depth: int
    const maxHeight: int
    const loadableContour: Option<seq<Point3D>>
    const loadableContourFront: seq<Point2D>
    const loadableContourSide: seq<Point2D>
    /** the z range of the unit's floor: the extreme x of the side-face points at y == 0 */
    const horizontalInnerMinZ: real
    const horizontalInnerMaxZ: real
    const maxVolume: int
    var loadableContourFrontForCalculation: array<Point2D>
    var loadableContourSideForCalculation: array<Point2D>
    var ghostItems: GhostItemList?

    /**
     * The constructor of the properties: the dimensions and contour of the
     * transfer object, the inner z range of the floor, the volume and both
     * contour arrays for calculation. hullVolume is the convex-hull volume
     * of the contour, which the hull computation supplies. A side face
     * without a floor point makes Create fail before this is reached.
     */
    constructor (dto: PropertiesDto, kind: UldKind, hullVolume: int)
      requires INT_MIN <= dto.width <= INT_MAX && INT_MIN <= dto.depth <= INT_MAX
      requires HasFloorPoint(dto.contourSide)
      ensures this.kind == kind && width == dto.width && depth == dto.depth && maxHeight == dto.maxHeight
      ensures loadableContour == dto.loadableContour
      ensures loadableContourFront == dto.contourFront && loadableContourSide == dto.contourSide
      ensures Some(horizontalInnerMinZ) == InnerMinZ(dto.contourSide)
      ensures Some(horizontalInnerMaxZ) == InnerMaxZ(dto.contourSide)
      ensures maxVolume == MaxVolume(kind, dto.width, dto.depth, dto.maxHeight, dto.loadableContour, hullVolume)
      ensures fresh(loadableContourFrontForCalculation) && fresh(loadableContourSideForCalculation)
      ensures loadableContourFrontForCalculation.Length == |dto.contourFront|
      ensures loadableContourSideForCalculation.Length == |dto.contourSide|
      ensures forall i :: 0 <= i < |dto.contourFront| ==>
        loadableContourFrontForCalculation[i] == ForCalculation(dto.contourFront[i], dto.maxHeight)
      ensures forall i :: 0 <= i < |dto.contourSide| ==>
        loadableContourSideForCalculation[i] == ForCalculation(dto.contourSide[i], dto.maxHeight)
      ensures ghostItems == null
    {
      this.kind := kind;
      width := dto.width;
      depth := dto.depth;
      maxHeight := dto.maxHeight;
      loadableContour := dto.loadableContour;
      loadableContourFront := dto.contourFront;
      loadableContourSide := dto.contourSide;
      horizontalInnerMinZ := InnerMinZ(dto.contourSide).value;
      horizontalInnerMaxZ := InnerMaxZ(dto.contourSide).value;
      maxVolume := MaxVolume(kind, dto.width, dto.depth, dto.maxHeight, dto.loadableContour, hullVolume);
      ghostItems := null;
      new;
      loadableContourFrontForCalculation := ContourForCalculation(dto.contourFront, dto.maxHeight);
      loadableContourSideForCalculation := ContourForCalculation(dto.contourSide, dto.maxHeight);
    }

    /**
     * create: the properties of the kind the transfer object names, a
     * cuboid for an unknown one. The constructor's search for the floor
     * points of the side face throws NoSuchElementException when there
     * are none.
     */
    static method Create(dto: PropertiesDto, hullVolume: int) returns (r: Result<ULDProperties>)
      requires INT_MIN <= dto.width <= INT_MAX && INT_MIN <= dto.depth <= INT_MAX
      ensures r.Failure? <==> !HasFloorPoint(dto.contourSide)
      ensures r.Failure? ==> r.error == NoSuchElement
      ensures r.Success? ==> fresh(r.value) && r.value.kind == KindOf(dto.kind)
      ensures r.Success? ==> r.value.width == dto.width && r.value.depth == dto.depth && r.value.maxHeight == dto.maxHeight
      ensures r.Success? ==> Some(r.value.horizontalInnerMinZ) == InnerMinZ(dto.contourSide)
      ensures r.Success? ==> Some(r.value.horizontalInnerMaxZ) == InnerMaxZ(dto.contourSide)
      ensures r.Success? ==>
        r.value.maxVolume == MaxVolume(KindOf(dto.kind), dto.width, dto.depth, dto.maxHeight, dto.loadableContour, hullVolume)
      ensures r.Success? ==> r.value.loadableContour == dto.loadableContour
      ensures r.Success? ==> r.value.loadableContourFront == dto.contourFront && r.value.loadableContourSide == dto.contourSide
      ensures r.Success? ==>
        fresh(r.value.loadableContourFrontForCalculation) && fresh(r.value.loadableContourSideForCalculation)
      ensures r.Success? ==>
        r.value.loadableContourFrontForCalculation.Length == |dto.contourFront| &&
        r.value.loadableContourSideForCalculation.Length == |dto.contourSide|
      ensures r.Success? ==> forall i :: 0 <= i < |dto.contourFront| ==>
        r.value.loadableContourFrontForCalculation[i] == ForCalculation(dto.contourFront[i], dto.maxHeight)
      ensures r.Success? ==> forall i :: 0 <= i < |dto.contourSide| ==>
        r.value.loadableContourSideForCalculation[i] == ForCalculation(dto.contourSide[i], dto.maxHeight)
      ensures r.Success? ==> r.value.ghostItems == null
    {
      if !HasFloorPoint(dto.contourSide) {
        return Failure(NoSuchElement);
      }
      var p;
      if dto.kind == CuboidDto {
        p := new ULDProperties(dto, Cuboid, hullVolume);
      } else if dto.kind == PalletWithContourDto {
        p := new ULDProperties(dto, PalletWithContour, hullVolume);
      } else if dto.kind == ContainerDto {
        p := new ULDProperties(dto, Container, hullVolume);
      } else {
        p := new ULDProperties(dto, Cuboid, hullVolume);
      }
      return Success(p);
    }

    predicate IsCuboid()
    {
      kind == Cuboid
    }

    /**
     * setLoadableContourFrontForCalculation and its side counterpart: one
     * entry per contour point, in order, lowered by 0.1 below the maximum
     * height and copied unchanged otherwise.
     */
    static method ContourForCalculation(contour: seq<Point2D>, maxHeight: int) returns (a: array<Point2D>)
      ensures fresh(a) && a.Length == |contour|
      ensures forall i :: 0 <= i < |contour| ==> a[i] == ForCalculation(contour[i], maxHeight)
    {
      a := new Point2D[|contour|](_ => Point2D(0.0, 0.0));
      var i := 0;
      while i < |contour|
        invariant 0 <= i <= |contour|
        invariant forall k :: 0 <= k < i ==> a[k] == ForCalculation(contour[k], maxHeight)
      {
        var p := contour[i];
        if p.y < maxHeight as real {
          a[i] := Point2D(p.x, p.y - 0.1);
        } else {
          a[i] := Point2D(p.x, p.y);
        }
        i := i + 1;
      }
    }

    /** getGhostItems: the list, created empty on the first request and the same list on every later one. */
    method GetGhostItems() returns (g: GhostItemList)
      modifies this`ghostItems
      ensures old(ghostItems) != null ==> g == old(ghostItems) && ghostItems == g
      ensures old(ghostItems) == null ==> fresh(g) && g.items == [] && ghostItems == g
    {
      if ghostItems == null {
        ghostItems := new GhostItemList();
      }
      return ghostItems;
    }

    /**
     * determineXZValuesForSolutionItem: per axis, the item keeps its
     * coordinate when new values are not asked for and it still fits;
     * otherwise it gets a random coordinate that fits when the item is
     * narrower than the unit, and is marked unused when it is not. Sums
     * and the draw's bound are 32-bit int arithmetic; a bound that wraps
     * to zero or below makes the draw throw, which ends the method with
     * the x axis' changes already made.
     */
    method DetermineXZValuesForSolutionItem(item: SolutionItem, setNewValues: bool, random: RandomSource)
      returns (r: Result<SolutionItem>)
      modifies item, random
      ensures var ax := AxisRule(old(item.x), Width(item.rotatedShape), width, setNewValues, old(random.calls), random.draws);
        ax.Failure? ==>
          r == Failure(ax.error) && random.calls == old(random.calls) &&
          item.x == old(item.x) && item.z == old(item.z) && item.used == old(item.used)
      ensures var ax := AxisRule(old(item.x), Width(item.rotatedShape), width, setNewValues, old(random.calls), random.draws);
        ax.Success? ==>
          var az := AxisRule(old(item.z), Depth(item.rotatedShape), depth, setNewValues, ax.value.calls, random.draws);
          item.x == ax.value.coordinate &&
          (az.Failure? ==>
            r == Failure(az.error) && random.calls == ax.value.calls &&
            item.z == old(item.z) && item.used == (old(item.used) && ax.value.fits)) &&
          (az.Success? ==>
            r == Success(item) && random.calls == az.value.calls &&
            item.z == az.value.coordinate && item.used == (old(item.used) && ax.value.fits && az.value.fits))
    {
      var w := Width(item.rotatedShape);
      var fittingUldDimension := w < width;
      var fittingItemPlacement := !setNewValues && IntPlus(item.x, w) < width;
      if !fittingItemPlacement && fittingUldDimension {
        var v := random.NextInt(IntPlus(IntPlus(width, -w), 1));
        if v.Failure? {
          return Failure(v.error);
        }
        item.x := v.value;
      } else if !fittingItemPlacement && !fittingUldDimension {
        item.used := false;
      }
      var d := Depth(item.rotatedShape);
      fittingUldDimension := d < depth;
      fittingItemPlacement := !setNewValues && IntPlus(item.z, d) < depth;
      if !fittingItemPlacement && fittingUldDimension {
        var v := random.NextInt(IntPlus(IntPlus(depth, -d), 1));
        if v.Failure? {
          return Failure(v.error);
        }
        item.z := v.value;
      } else if !fittingItemPlacement && !fittingUldDimension {
        item.used := false;
      }
      return Success(item);
    }
  }

  /**
   * A placement on one axis is kept when no new value is asked for and the
   * item still ends inside the unit; the end is the 32-bit int sum x + w.
   */
  predicate KeepsX(x: int, w: int, width: int, setNewValues: bool) {
    !setNewValues && IntPlus(x, w) < width
  }

  /** The exclusive bound of a redraw: width - w + 1 in 32-bit int arithmetic. */
  function DrawBound(width: int, w: int): (b: int)
    ensures INT_MIN <= b <= INT_MAX
    ensures INT_MIN <= width <= INT_MAX && INT_MIN <= w <= INT_MAX && w < width ==>
      (b > 0 <==> width - w < INT_MAX) && (b > 0 ==> b == width - w + 1)
  {
    IntPlus(IntPlus(width, -w), 1)
  }

  /** The outcome of the rule on one axis: the coordinate, whether the item still fits, and the draws made so far. */
  datatype AxisOutcome = AxisOutcome(coordinate: int, fits: bool, calls: nat)

  /**
   * The rule on one axis: keep the coordinate, or redraw it below
   * DrawBound when the item is narrower than the unit, or mark the item as
   * not fitting. A redraw whose bound is not positive throws
   * IllegalArgumentException, as Random.nextInt does.
   */
  function AxisRule(x: int, w: int, width: int, setNewValues: bool, calls: nat, draws: nat -> int): (r: Result<AxisOutcome>)
    ensures r.Failure? <==> !KeepsX(x, w, width, setNewValues) && w < width && DrawBound(width, w) <= 0
    ensures r.Failure? ==> r.error == IllegalArgument
    ensures r.Success? ==> (r.value.fits <==> KeepsX(x, w, width, setNewValues) || w < width)
    ensures r.Success? && (KeepsX(x, w, width, setNewValues) || !r.value.fits) ==>
      r.value.coordinate == x && r.value.calls == calls
    ensures r.Success? && !KeepsX(x, w, width, setNewValues) && r.value.fits ==>
      r.value.coordinate == Draw(draws, calls, DrawBound(width, w)) && r.value.calls == calls + 1
  {
    if KeepsX(x, w, width, setNewValues) then Success(AxisOutcome(x, true, calls))
    else if w < width then
      var bound := DrawBound(width, w);
      if bound <= 0 then Failure(IllegalArgument)
      else Success(AxisOutcome(Draw(draws, calls, bound), true, calls + 1))
    else Success(AxisOutcome(x, false, calls))
  }

  /** A coordinate that is redrawn lies between 0 and width - w. */
  lemma RedrawnCoordinateFits(x: int, w: int, width: int, setNewValues: bool, calls: nat, draws: nat -> int)
    requires INT_MIN <= width <= INT_MAX && INT_MIN <= w <= INT_MAX
    requires AxisRule(x, w, width, setNewValues, calls, draws).Success?
    requires !KeepsX(x, w, width, setNewValues) && w < width
    ensures 0 <= AxisRule(x, w, width, setNewValues, calls, draws).value.coordinate <= width - w
  {
  }

  /** A redraw throws exactly when the unit is at least INT_MAX wider than the item, so that width - w + 1 wraps. */
  lemma RedrawThrowsOnlyOnWrap(x: int, w: int, width: int, setNewValues: bool, calls: nat, draws: nat -> int)
    requires INT_MIN <= width <= INT_MAX && INT_MIN <= w <= INT_MAX
    ensures AxisRule(x, w, width, setNewValues, calls, draws).Failure? <==>
      !KeepsX(x, w, width, setNewValues) && width - w >= INT_MAX
  {
    if w < width {
      assert DrawBound(width, w) > 0 <==> width - w < INT_MAX;
    }
  }

  /** A kept coordinate implies the item fits the unit on that axis, for a non-negative coordinate whose sum with w does not overflow. */
  lemma KeptCoordinateImpliesFit(x: int, w: int, width: int, setNewValues: bool)
    requires KeepsX(x, w, width, setNewValues) && 0 <= x
    requires INT_MIN <= w && x + w <= INT_MAX
    ensures w < width && x + w < width
  {
  }

  /** When x + w overflows, the wrapped sum keeps a coordinate although the item is wider than the unit. */
  lemma OverflowKeepsUnfitCoordinate()
    ensures KeepsX(1, INT_MAX, 100, false) && INT_MAX >= 100
    ensures AxisRule(1, INT_MAX, 100, false, 0, k => 0) == Success(AxisOutcome(1, true, 0))
  {
  }

  /** A unit INT_MAX wide makes every redraw of an item of width 0 throw. */
  lemma FullWidthRedrawThrows(x: int)
    ensures AxisRule(x, 0, INT_MAX, true, 0, k => 0) == Failure(IllegalArgument)
  {
  }

  /** The k-th value of the random source below bound. */
  function Draw(draws: nat -> int, k: nat, bound: int): (v: int)
    requires bound > 0
    ensures 0 <= v < bound
  {
    draws(k) % bound
  }

  /** A source of pseudo-random numbers: the values it yields, one per call. */
  class RandomSource {
    const draws: nat -> int
    var calls: nat

    constructor (draws: nat -> int)
      ensures this.draws == draws && calls == 0
    {
      this.draws := draws;
      calls := 0;
    }

    /** nextInt(bound): a value in [0, bound); a bound that is not positive throws IllegalArgumentException. */
    method NextInt(bound: int) returns (r: Result<int>)
      modifies this
      ensures bound <= 0 ==> r == Failure(IllegalArgument) && calls == old(calls)
      ensures bound > 0 ==> r == Success(Draw(draws, old(calls), bound)) && calls == old(calls) + 1
      ensures r.Success? ==> 0 <= r.value < bound
    {
      if bound <= 0 {
        return Failure(IllegalArgument);
      }
      r := Success(Draw(draws, calls, bound));
      calls := calls + 1;
    }
  }

  /** The part of a candidate solution's item that the placement rule reads and writes. */
  class SolutionItem {
    const rotatedShape: Shape3D
    var x: int
    var z: int
    var used: bool

    constructor (rotatedShape: Shape3D, x: int, z: int, used: bool)
      ensures this.rotatedShape == rotatedShape && this.x == x && this.z == z && this.used == used
    {
      this.rotatedShape := rotatedShape;
      this.x := x;
      this.z := z;
      this.used := used;
    }
  }
}
