/**
 * The criterion of Pacquay et al.: an item is stable when at least three
 * of the four corners of its footprint are supported by the items below
 * it. The score is the stable prefix of the sorted items as a share of
 * the item count, and -1 for a unit holding anything but boxes.
 */
module Pacquay {
  import opened Numerics
  import opened Wrappers
  import opened Points
  import opened Shapes
  import opened PlacedItems
  import opened ReactionPointCalculator
  import opened ULDs
  import opened StablePrefixes
  import opened SupportPolygons
  import opened FullBaseSupport

  /** How many of the four corners must be supported. */
  const MIN_SUPPORTED_CORNERS: nat := 3

  /**
   * The four corners of the item's footprint: (x, z), (x + width, z),
   * (x, z + depth) and (x + width, z + depth), the sums taken in 32-bit
   * int arithmetic as the source does.
   */
  function FootprintCorners(item: PlacedItem): (cs: seq<Point2D>)
    ensures |cs| == 4
    ensures cs[0].x == cs[2].x == item.coords.x as real && cs[0].y == cs[1].y == item.coords.z as real
    ensures cs[1].x == cs[3].x == IntPlus(item.coords.x, Width(item.shape)) as real
    ensures cs[2].y == cs[3].y == IntPlus(item.coords.z, Depth(item.shape)) as real
  {
    var x := item.coords.x;
    var z := item.coords.z;
    var xw := IntPlus(x, Width(item.shape));
    var zd := IntPlus(z, Depth(item.shape));
    [Point2D(x as real, z as real), Point2D(xw as real, z as real),
     Point2D(x as real, zd as real), Point2D(xw as real, zd as real)]
  }

  /**
   * The number of supported corners from position k on, the corners
   * checked in order; the exception of the first test that throws ends the
   * count.
   */
  function SupportedCornersFrom(item: PlacedItem, below: seq<PlacedItem>, g: GeometryOracle, corners: seq<Point2D>, k: nat)
    : Result<nat>
    requires k <= |corners|
    decreases |corners| - k
  {
    if k == |corners| then Success(0)
    else
      match ContactSupport(item, below, At(corners[k]), g)
      case Failure(e) => Failure(e)
      case Success(supported) =>
        match SupportedCornersFrom(item, below, g, corners, k + 1)
        case Failure(e) => Failure(e)
        case Success(n) => Success(if supported then n + 1 else n)
  }

  /**
   * isStableWithItemAtSequence: a bottom item is stable; any other item
   * is stable when at least three of its footprint corners are supported.
   */
  function PacquayStable(rels: RelationMap, g: GeometryOracle, item: PlacedItem): Result<bool> {
    if IsBottomItem(item) then Success(true)
    else
      match SupportedCornersFrom(item, ItemsBelow(rels, item), g, FootprintCorners(item), 0)
      case Failure(e) => Failure(e)
      case Success(n) => Success(n >= MIN_SUPPORTED_CORNERS)
  }

  /** The test of the prefix walk: the sequence it is given plays no part. */
  function PacquayVerdict(rels: RelationMap, g: GeometryOracle): (v: Verdict)
    ensures forall p, s1, s2 :: v(p, s1) == v(p, s2)
  {
    (p: PlacedItem, sequence: nat) => PacquayStable(rels, g, p)
  }

  // ---------------------------------------------------------------------------
  // What the verdict means
  // ---------------------------------------------------------------------------

  /** A corner is supported, for an item with a valid base: it lies in some footprint below or in the contact hull. */
  predicate CornerSupported(item: PlacedItem, below: seq<PlacedItem>, g: GeometryOracle, c: Point2D)
    requires BaseIsValid(item, g)
  {
    FootprintHitFrom(below, At(c), 0) || HullContains(ContactsFrom(item, below, g, 0), At(c), g)
  }

  /** The number of supported corners from position k on. */
  function CountSupportedFrom(item: PlacedItem, below: seq<PlacedItem>, g: GeometryOracle, corners: seq<Point2D>, k: nat): nat
    requires BaseIsValid(item, g) && k <= |corners|
    decreases |corners| - k
  {
    if k == |corners| then 0
    else (if CornerSupported(item, below, g, corners[k]) then 1 else 0) + CountSupportedFrom(item, below, g, corners, k + 1)
  }

  lemma {:induction false} SupportedCornersWithValidBase(item: PlacedItem, below: seq<PlacedItem>, g: GeometryOracle,
                                                        corners: seq<Point2D>, k: nat)
    requires BaseIsValid(item, g) && k <= |corners|
    ensures SupportedCornersFrom(item, below, g, corners, k) == Success(CountSupportedFrom(item, below, g, corners, k))
    decreases |corners| - k
  {
    if k < |corners| {
      ContactSupportWithValidBase(item, below, At(corners[k]), g);
      SupportedCornersWithValidBase(item, below, g, corners, k + 1);
    }
  }

  /**
   * For an item off the floor with a valid base the verdict never throws:
   * the item is stable exactly when at least three of its corners lie in a
   * footprint below or in the hull of its contact points.
   */
  lemma PacquayStableWithValidBase(rels: RelationMap, g: GeometryOracle, item: PlacedItem)
    requires !IsBottomItem(item) && BaseIsValid(item, g)
    ensures PacquayStable(rels, g, item) ==
      Success(CountSupportedFrom(item, ItemsBelow(rels, item), g, FootprintCorners(item), 0) >= 3)
  {
    SupportedCornersWithValidBase(item, ItemsBelow(rels, item), g, FootprintCorners(item), 0);
  }

  /** With no item below no corner is supported, however many corners are checked. */
  lemma {:induction false} NoCornerSupportedWithNothingBelow(item: PlacedItem, g: GeometryOracle, corners: seq<Point2D>, k: nat)
    requires k <= |corners|
    ensures SupportedCornersFrom(item, [], g, corners, k) == Success(0)
    decreases |corners| - k
  {
    if k < |corners| {
      NothingBelowSupportsNothing(item, At(corners[k]), g);
      NoCornerSupportedWithNothingBelow(item, g, corners, k + 1);
    }
  }

  /** An item off the floor with nothing below it is not stable. */
  lemma NothingBelowIsUnstable(rels: RelationMap, g: GeometryOracle, item: PlacedItem)
    requires !IsBottomItem(item) && ItemsBelow(rels, item) == []
    ensures PacquayStable(rels, g, item) == Success(false)
  {
    NoCornerSupportedWithNothingBelow(item, g, FootprintCorners(item), 0);
  }

  /** With an invalid base and some corner from k on outside the first footprint below, the count throws. */
  lemma {:induction false} SupportedCornersWithInvalidBase(item: PlacedItem, below: seq<PlacedItem>, g: GeometryOracle,
                                                          corners: seq<Point2D>, k: nat)
    requires !BaseIsValid(item, g) && below != [] && k <= |corners|
    ensures (forall j :: k <= j < |corners| ==> InFootprint(below[0], At(corners[j]))) ==>
      SupportedCornersFrom(item, below, g, corners, k) == Success(|corners| - k)
    ensures (exists j :: k <= j < |corners| && !InFootprint(below[0], At(corners[j]))) ==>
      SupportedCornersFrom(item, below, g, corners, k) == Failure(Topology)
    decreases |corners| - k
  {
    if k < |corners| {
      ContactSupportWithInvalidBase(item, below, At(corners[k]), g);
      SupportedCornersWithInvalidBase(item, below, g, corners, k + 1);
    }
  }

  /**
   * An item off the floor whose base is not a valid geometry, with items
   * below, is stable when all four corners lie in the footprint of the
   * first item below, and otherwise throws a TopologyException: it is
   * never judged unstable.
   */
  lemma PacquayStableWithInvalidBase(rels: RelationMap, g: GeometryOracle, item: PlacedItem)
    requires !IsBottomItem(item) && !BaseIsValid(item, g) && ItemsBelow(rels, item) != []
    ensures PacquayStable(rels, g, item) == Success(true) || PacquayStable(rels, g, item) == Failure(Topology)
  {
    SupportedCornersWithInvalidBase(item, ItemsBelow(rels, item), g, FootprintCorners(item), 0);
  }

  /**
   * All corners from k on lie in footprints below, each in the first
   * footprint or the item's base being valid: every corner is supported.
   */
  lemma {:induction false} CornersInFootprints(item: PlacedItem, below: seq<PlacedItem>, g: GeometryOracle,
                                              corners: seq<Point2D>, k: nat)
    requires k <= |corners|
    requires forall j :: k <= j < |corners| ==>
      exists i :: 0 <= i < |below| && InFootprint(below[i], At(corners[j])) && (i == 0 || BaseIsValid(item, g))
    ensures SupportedCornersFrom(item, below, g, corners, k) == Success(|corners| - k)
    decreases |corners| - k
  {
    if k < |corners| {
      var c := corners[k];
      assert exists i :: 0 <= i < |below| && InFootprint(below[i], At(c)) && (i == 0 || BaseIsValid(item, g));
      var i :| 0 <= i < |below| && InFootprint(below[i], At(c)) && (i == 0 || BaseIsValid(item, g));
      FootprintHitShortCircuits(item, below, At(corners[k]), g, 0, [], i);
      CornersInFootprints(item, below, g, corners, k + 1);
    }
  }

  /** A point in the footprint of the item at position i is supported whatever the contact queries would do. */
  lemma {:induction false} FootprintHitShortCircuits(item: PlacedItem, below: seq<PlacedItem>, t: TestPoint,
                                                    g: GeometryOracle, j: nat, collected: seq<Point2D>, i: nat)
    requires j <= i < |below| && InFootprint(below[i], t)
    ensures ContactSupportFrom(item, below, t, g, j, collected).Success? ==>
      ContactSupportFrom(item, below, t, g, j, collected).value
    ensures (forall k :: j <= k < i ==> InFootprint(below[k], t) || Contacts(item, below[k], g).Success?) ==>
      ContactSupportFrom(item, below, t, g, j, collected) == Success(true)
    decreases i - j
  {
    if j < i && !InFootprint(below[j], t) {
      match Contacts(item, below[j], g)
      case Failure(_) =>
      case Success(cs) => FootprintHitShortCircuits(item, below, t, g, j + 1, collected + cs, i);
    }
  }

  /**
   * An item off the floor whose footprint lies inside the footprint of
   * one item below it is stable, as long as x + width and z + depth do
   * not overflow, when that item is the first below or the item's base is
   * valid (otherwise an earlier contact query throws).
   */
  lemma StableOnWiderItem(rels: RelationMap, g: GeometryOracle, item: PlacedItem, q: PlacedItem)
    requires !IsBottomItem(item) && ItemsBelow(rels, item) != []
    requires q == ItemsBelow(rels, item)[0] || (q in ItemsBelow(rels, item) && BaseIsValid(item, g))
    requires 0 <= Width(item.shape) && 0 <= Depth(item.shape)
    requires INT_MIN <= item.coords.x + Width(item.shape) <= INT_MAX
    requires INT_MIN <= item.coords.z + Depth(item.shape) <= INT_MAX
    requires q.coords.x <= item.coords.x && item.coords.x + Width(item.shape) <= q.coords.maxX
    requires q.coords.z <= item.coords.z && item.coords.z + Depth(item.shape) <= q.coords.maxZ
    ensures PacquayStable(rels, g, item) == Success(true)
  {
    var corners := FootprintCorners(item);
    var below := ItemsBelow(rels, item);
    var i :| 0 <= i < |below| && below[i] == q && (i == 0 || BaseIsValid(item, g));
    assert forall j :: 0 <= j < |corners| ==> InFootprint(below[i], At(corners[j]));
    CornersInFootprints(item, below, g, corners, 0);
  }

  // ---------------------------------------------------------------------------
  // The methods
  // ---------------------------------------------------------------------------

  /** isStableWithItemAtSequence: the four corner tests in order, counting the supported ones. */
  method IsStableWithItemAtSequence(rels: RelationMap, g: GeometryOracle, item: PlacedItem, sequence: nat)
    returns (r: Result<bool>)
    ensures r == PacquayVerdict(rels, g)(item, sequence)
  {
    if IsBottomItem(item) {
      return Success(true);
    }
    var corners := FootprintCorners(item);
    var below := ItemsBelow(rels, item);
    var s1 := IsPointSupported(item, below, At(corners[0]), g);
    if s1.Failure? { return Failure(s1.error); }
    var s2 := IsPointSupported(item, below, At(corners[1]), g);
    if s2.Failure? {
      assert SupportedCornersFrom(item, below, g, corners, 1) == Failure(s2.error);
      return Failure(s2.error);
    }
    var s3 := IsPointSupported(item, below, At(corners[2]), g);
    if s3.Failure? {
      assert SupportedCornersFrom(item, below, g, corners, 2) == Failure(s3.error);
      assert SupportedCornersFrom(item, below, g, corners, 1) == Failure(s3.error);
      return Failure(s3.error);
    }
    var s4 := IsPointSupported(item, below, At(corners[3]), g);
    if s4.Failure? {
      assert SupportedCornersFrom(item, below, g, corners, 3) == Failure(s4.error);
      assert SupportedCornersFrom(item, below, g, corners, 2) == Failure(s4.error);
      assert SupportedCornersFrom(item, below, g, corners, 1) == Failure(s4.error);
      return Failure(s4.error);
    }
    assert SupportedCornersFrom(item, below, g, corners, 3) == Success(if s4.value then 1 else 0);
    assert SupportedCornersFrom(item, below, g, corners, 1) ==
      Success((if s2.value then 1 else 0) + (if s3.value then 1 else 0) + (if s4.value then 1 else 0));
    var supportedNr := 0;
    if s1.value { supportedNr := supportedNr + 1; }
    if s2.value { supportedNr := supportedNr + 1; }
    if s3.value { supportedNr := supportedNr + 1; }
    if s4.value { supportedNr := supportedNr + 1; }
    r := Success(supportedNr >= MIN_SUPPORTED_CORNERS);
  }

  /**
   * assessUld: 1 for a unit with no items; otherwise the ensure step
   * (which throws on an empty map), then -1 for a non-box item or the
   * share of the stable prefix.
   */
  method AssessUld(uld: ULD, minY: MinYOracle, g: GeometryOracle) returns (r: Result<real>)
    requires uld.Valid() && SoundMinY(minY)
    modifies uld`relations
    ensures uld.Valid()
    ensures uld.placedItemsSorted == [] ==> r == Success(1.0) && uld.relations == old(uld.relations)
    ensures uld.placedItemsSorted != [] && |uld.placedItems| == 0 ==>
      r == Failure(NoSuchElement) && uld.relations == old(uld.relations)
    ensures uld.placedItemsSorted != [] && |uld.placedItems| > 0 ==>
      uld.relations == EnsuredRelations(uld.Values(), old(uld.relations), minY) &&
      r == BoxOnlyScore(uld.placedItemsSorted, PacquayVerdict(uld.relations, g))
  {
    if |uld.placedItemsSorted| == 0 {
      return Success(1.0);
    }
    var e := CalculateULDSupportStructure(uld, minY);
    if e.Some? {
      return Failure(e.value);
    }
    r := ScoreBoxesByPrefix(uld.placedItemsSorted, PacquayVerdict(uld.relations, g));
  }
}
