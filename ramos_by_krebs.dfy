/**
 * The Ramos criterion as Krebs implemented it: the resultant of an item
 * takes every item directly on top of it, whatever its place in the
 * sequence, at its geometric centre; the support polygon is spanned by
 * the corners of the overlap rectangles with the items below; and every
 * item below must be stable in turn.
 */
module RamosByKrebs {
  import opened Numerics
  import opened Wrappers
  import opened Points
  import opened Shapes
  import opened PlacedItems
  import opened ULDs
  import opened StablePrefixes
  import opened SupportPolygons
  import opened FullBaseSupport
  import Ramos

  /**
   * The item's weight force, and the x and z of its geometric centre (box
   * corner plus half the box, the centre-of-mass offset ignored) each
   * times that force. The cast to a box throws for any other shape.
   */
  function CentreAndForce(p: PlacedItem): Result<ForcePair> {
    if !p.shape.BoxShape? then Failure(ClassCast)
    else
      var force := p.weight * GRAVITY;
      var centreX := p.coords.x as real + p.shape.box.width * 0.5;
      var centreZ := p.coords.z as real + p.shape.box.depth * 0.5;
      Success(ForcePair(Times(centreX, force), Times(centreZ, force), force))
  }

  /** addItemGravitationalForce: the item's pair added to the running pair. */
  function AddItemForce(p: PlacedItem, acc: ForcePair): Result<ForcePair> {
    match CentreAndForce(p)
    case Failure(e) => Failure(e)
    case Success(c) => Success(ForcePair(acc.sumX + c.sumX, acc.sumZ + c.sumZ, acc.force + c.force))
  }

  /** The fold over all items on top, in order. */
  function FoldOnTop(onTop: seq<PlacedItem>, acc: ForcePair): Result<ForcePair>
    decreases |onTop|
  {
    if onTop == [] then Success(acc)
    else
      match FoldOnTop(onTop[..|onTop| - 1], acc)
      case Failure(e) => Failure(e)
      case Success(prev) => AddItemForce(onTop[|onTop| - 1], prev)
  }

  /** getResultantForcePoint: the item's own pair, every item on top added, the sums divided by the total force. */
  function ResultantPoint(rels: RelationMap, p: PlacedItem): Result<TestPoint> {
    match AddItemForce(p, ForcePair(0.0, 0.0, 0.0))
    case Failure(e) => Failure(e)
    case Success(own) =>
      match FoldOnTop(ItemsOnTop(rels, p), own)
      case Failure(e) => Failure(e)
      case Success(r) => Success(ForcePoint(r))
  }

  /** An item with no centre-of-mass offset in the ground plane. */
  predicate CentredMass(p: PlacedItem) {
    p.centerOfMass.x == 0.0 && p.centerOfMass.z == 0.0
  }

  lemma {:induction false} FoldAgreesWithRamos(onTop: seq<PlacedItem>, s: nat, acc: ForcePair)
    requires forall q :: q in onTop ==> q.sequence <= s && CentredMass(q)
    ensures FoldOnTop(onTop, acc) == Ramos.FoldOnTop(onTop, s, acc)
    decreases |onTop|
  {
    if onTop != [] {
      FoldAgreesWithRamos(onTop[..|onTop| - 1], s, acc);
    }
  }

  /**
   * Once every item on top is placed, and no item involved has a
   * centre-of-mass offset, this resultant point is the one the Ramos
   * criterion computes at that step.
   */
  lemma AgreesWithRamosOnceAllPlaced(rels: RelationMap, p: PlacedItem, s: nat)
    requires CentredMass(p)
    requires forall q :: q in ItemsOnTop(rels, p) ==> q.sequence <= s && CentredMass(q)
    ensures ResultantPoint(rels, p) == Ramos.ResultantPoint(rels, p, s)
  {
    match AddItemForce(p, ForcePair(0.0, 0.0, 0.0))
    case Failure(_) =>
    case Success(own) => FoldAgreesWithRamos(ItemsOnTop(rels, p), s, own);
  }

  // ---------------------------------------------------------------------------
  // The support polygon of the overlap rectangles
  // ---------------------------------------------------------------------------

  /**
   * The corners of the rectangle where the footprints of the item and an
   * item below overlap: the larger of the two minima and the smaller of
   * the two maxima on each axis.
   */
  function OverlapCorners(item: PlacedItem, q: PlacedItem): (cs: seq<Point2D>)
    ensures |cs| == 4
  {
    var x0 := if q.coords.x >= item.coords.x then q.coords.x else item.coords.x;
    var z0 := if q.coords.z >= item.coords.z then q.coords.z else item.coords.z;
    var x1 := if q.coords.maxX <= item.coords.maxX then q.coords.maxX else item.coords.maxX;
    var z1 := if q.coords.maxZ <= item.coords.maxZ then q.coords.maxZ else item.coords.maxZ;
    [Point2D(x0 as real, z0 as real), Point2D(x0 as real, z1 as real),
     Point2D(x1 as real, z0 as real), Point2D(x1 as real, z1 as real)]
  }

  /** Two footprints overlap (possibly in a line or a point). */
  predicate FootprintsOverlap(item: PlacedItem, q: PlacedItem) {
    q.coords.x <= item.coords.maxX && item.coords.x <= q.coords.maxX &&
    q.coords.z <= item.coords.maxZ && item.coords.z <= q.coords.maxZ
  }

  /** When the footprints overlap, every overlap corner lies in both footprints. */
  lemma OverlapCornersLieInBothFootprints(item: PlacedItem, q: PlacedItem)
    requires FootprintsOverlap(item, q)
    requires item.coords.x <= item.coords.maxX && item.coords.z <= item.coords.maxZ
    requires q.coords.x <= q.coords.maxX && q.coords.z <= q.coords.maxZ
    ensures forall c :: c in OverlapCorners(item, q) ==> InFootprint(q, At(c)) && InFootprint(item, At(c))
  {
  }

  /**
   * isResultantForcePointSupported from the item below at position j,
   * with the coordinates collected so far: a footprint that holds the
   * point answers true; otherwise the overlap corners are collected and
   * the hull decides at the end. Nothing here throws.
   */
  function OverlapSupportFrom(item: PlacedItem, below: seq<PlacedItem>, t: TestPoint, g: GeometryOracle,
                              j: nat, collected: seq<Point2D>): bool
    requires j <= |below|
    decreases |below| - j
  {
    if j == |below| then HullContains(collected, t, g)
    else if InFootprint(below[j], t) then true
    else OverlapSupportFrom(item, below, t, g, j + 1, collected + OverlapCorners(item, below[j]))
  }

  /** All overlap corners with the items below from position j on, in order. */
  function AllOverlapCorners(item: PlacedItem, below: seq<PlacedItem>, j: nat): seq<Point2D>
    requires j <= |below|
    decreases |below| - j
  {
    if j == |below| then [] else OverlapCorners(item, below[j]) + AllOverlapCorners(item, below, j + 1)
  }

  /**
   * The point is supported exactly when it lies in the footprint of some
   * item below or in the hull of all overlap corners.
   */
  lemma {:induction false} OverlapSupportMeaning(item: PlacedItem, below: seq<PlacedItem>, t: TestPoint, g: GeometryOracle,
                                                j: nat, collected: seq<Point2D>)
    requires j <= |below|
    ensures OverlapSupportFrom(item, below, t, g, j, collected) ==
      (FootprintHitFrom(below, t, j) || HullContains(collected + AllOverlapCorners(item, below, j), t, g))
    decreases |below| - j
  {
    if j == |below| {
      assert collected + [] == collected;
    } else if !InFootprint(below[j], t) {
      OverlapSupportMeaning(item, below, t, g, j + 1, collected + OverlapCorners(item, below[j]));
      assert collected + OverlapCorners(item, below[j]) + AllOverlapCorners(item, below, j + 1) ==
        collected + AllOverlapCorners(item, below, j);
      assert FootprintHitFrom(below, t, j) == FootprintHitFrom(below, t, j + 1) by {
        if FootprintHitFrom(below, t, j) {
          var k :| j <= k < |below| && InFootprint(below[k], t);
          assert k != j;
        }
      }
    }
  }

  // ---------------------------------------------------------------------------
  // Stability
  // ---------------------------------------------------------------------------

  /**
   * isStableWithItem: a bottom item is stable; any other item is stable
   * when its resultant point is supported and every item below it is
   * stable.
   */
  function KrebsRamosStable(rels: RelationMap, g: GeometryOracle, p: PlacedItem): Result<bool>
    requires BelowIsLower(rels)
    decreases Level(p), 1, 0
  {
    if IsBottomItem(p) then Success(true)
    else
      match ResultantPoint(rels, p)
      case Failure(e) => Failure(e)
      case Success(t) =>
        if !OverlapSupportFrom(p, ItemsBelow(rels, p), t, g, 0, []) then Success(false)
        else AllBelowStable(rels, g, p, 0)
  }

  /** The loop over the items below from position j on: the first one that is not stable ends it. */
  function AllBelowStable(rels: RelationMap, g: GeometryOracle, p: PlacedItem, j: nat): Result<bool>
    requires BelowIsLower(rels) && j <= |ItemsBelow(rels, p)|
    decreases Level(p), 0, |ItemsBelow(rels, p)| - j
  {
    var below := ItemsBelow(rels, p);
    if j == |below| then Success(true)
    else
      BelowHasSmallerLevel(rels, p, below[j]);
      match KrebsRamosStable(rels, g, below[j])
      case Failure(e) => Failure(e)
      case Success(stable) => if !stable then Success(false) else AllBelowStable(rels, g, p, j + 1)
  }

  /** The test of the prefix walk: the position plays no part. */
  function KrebsRamosVerdict(rels: RelationMap, g: GeometryOracle): (v: Verdict)
    requires BelowIsLower(rels)
    ensures forall p, k1, k2 :: v(p, k1) == v(p, k2)
  {
    (p: PlacedItem, k: nat) => KrebsRamosStable(rels, g, p)
  }

  lemma {:induction false} AllBelowStableMeaning(rels: RelationMap, g: GeometryOracle, p: PlacedItem, j: nat)
    requires BelowIsLower(rels) && j <= |ItemsBelow(rels, p)|
    ensures AllBelowStable(rels, g, p, j) == Success(true) <==>
      forall k :: j <= k < |ItemsBelow(rels, p)| ==> KrebsRamosStable(rels, g, ItemsBelow(rels, p)[k]) == Success(true)
    decreases |ItemsBelow(rels, p)| - j
  {
    if j < |ItemsBelow(rels, p)| {
      AllBelowStableMeaning(rels, g, p, j + 1);
    }
  }

  /**
   * Every item on a path downwards from a stable item is stable, up to
   * and including the first bottom item on it, and each of those off the
   * floor has a supported resultant point.
   */
  lemma {:induction false} StableReachesDown(rels: RelationMap, g: GeometryOracle, path: seq<PlacedItem>)
    requires BelowIsLower(rels) && |path| >= 1 && DownPath(rels, path)
    requires KrebsRamosStable(rels, g, path[0]) == Success(true)
    requires forall i :: 0 <= i < |path| - 1 ==> !IsBottomItem(path[i])
    ensures forall i :: 0 <= i < |path| ==> KrebsRamosStable(rels, g, path[i]) == Success(true)
    ensures forall i :: 0 <= i < |path| && !IsBottomItem(path[i]) ==>
      ResultantPoint(rels, path[i]).Success? &&
      OverlapSupportFrom(path[i], ItemsBelow(rels, path[i]), ResultantPoint(rels, path[i]).value, g, 0, [])
    decreases |path|
  {
    if |path| >= 2 {
      AllBelowStableMeaning(rels, g, path[0], 0);
      assert path[1] in ItemsBelow(rels, path[0]);
      var k :| 0 <= k < |ItemsBelow(rels, path[0])| && ItemsBelow(rels, path[0])[k] == path[1];
      assert DownPath(rels, path[1..]);
      StableReachesDown(rels, g, path[1..]);
      forall i | 0 < i < |path| ensures KrebsRamosStable(rels, g, path[i]) == Success(true) {
        assert path[i] == path[1..][i - 1];
      }
    }
  }

  /**
   * An item off the floor whose contributors' forces sum to zero is
   * unstable: no footprint and no hull holds a non-finite point.
   */
  lemma ZeroForceIsUnstable(rels: RelationMap, g: GeometryOracle, p: PlacedItem, r: ForcePair)
    requires BelowIsLower(rels) && !IsBottomItem(p)
    requires AddItemForce(p, ForcePair(0.0, 0.0, 0.0)).Success?
    requires FoldOnTop(ItemsOnTop(rels, p), AddItemForce(p, ForcePair(0.0, 0.0, 0.0)).value) == Success(r)
    requires r.force == 0.0
    ensures KrebsRamosStable(rels, g, p) == Success(false)
  {
    OverlapSupportMeaning(p, ItemsBelow(rels, p), NonFinite, g, 0, []);
  }

  /** An item off the floor with nothing below it is not stable, unless its resultant throws first. */
  lemma NothingBelowIsUnstable(rels: RelationMap, g: GeometryOracle, p: PlacedItem)
    requires BelowIsLower(rels) && !IsBottomItem(p) && ItemsBelow(rels, p) == []
    ensures ResultantPoint(rels, p).Failure? ==> KrebsRamosStable(rels, g, p) == Failure(ResultantPoint(rels, p).error)
    ensures ResultantPoint(rels, p).Success? ==> KrebsRamosStable(rels, g, p) == Success(false)
  {
  }

  // ---------------------------------------------------------------------------
  // The methods
  // ---------------------------------------------------------------------------

  /** isResultantForcePointSupported: the loop collecting the overlap corners, with the footprint short-circuit. */
  method IsResultantForcePointSupported(item: PlacedItem, below: seq<PlacedItem>, t: TestPoint, g: GeometryOracle)
    returns (supported: bool)
    ensures supported == OverlapSupportFrom(item, below, t, g, 0, [])
  {
    var supportPolygonCreationList: seq<Point2D> := [];
    var k := 0;
    while k < |below|
      invariant k <= |below|
      invariant OverlapSupportFrom(item, below, t, g, 0, []) ==
        OverlapSupportFrom(item, below, t, g, k, supportPolygonCreationList)
    {
      var itemBelow := below[k];
      if InFootprint(itemBelow, t) {
        return true;
      }
      ghost var before := supportPolygonCreationList;
      var x0 := if itemBelow.coords.x >= item.coords.x then itemBelow.coords.x else item.coords.x;
      var z0 := if itemBelow.coords.z >= item.coords.z then itemBelow.coords.z else item.coords.z;
      var x1 := if itemBelow.coords.maxX <= item.coords.maxX then itemBelow.coords.maxX else item.coords.maxX;
      var z1 := if itemBelow.coords.maxZ <= item.coords.maxZ then itemBelow.coords.maxZ else item.coords.maxZ;
      supportPolygonCreationList := supportPolygonCreationList + [Point2D(x0 as real, z0 as real)];
      supportPolygonCreationList := supportPolygonCreationList + [Point2D(x0 as real, z1 as real)];
      supportPolygonCreationList := supportPolygonCreationList + [Point2D(x1 as real, z0 as real)];
      supportPolygonCreationList := supportPolygonCreationList + [Point2D(x1 as real, z1 as real)];
      assert supportPolygonCreationList == before + OverlapCorners(item, itemBelow);
      k := k + 1;
    }
    supported := HullContains(supportPolygonCreationList, t, g);
  }

  /** getResultantForcePoint as the loop over the items on top. */
  method GetResultantForcePoint(rels: RelationMap, item: PlacedItem) returns (r: Result<TestPoint>)
    ensures r == ResultantPoint(rels, item)
  {
    var resultantPair := AddItemForce(item, ForcePair(0.0, 0.0, 0.0));
    if resultantPair.Failure? {
      return Failure(resultantPair.error);
    }
    ghost var own := resultantPair.value;
    var onTop := ItemsOnTop(rels, item);
    var acc := resultantPair.value;
    var k := 0;
    while k < |onTop|
      invariant k <= |onTop|
      invariant FoldOnTop(onTop[..k], own) == Success(acc)
    {
      assert onTop[..k + 1][..k] == onTop[..k];
      var next := AddItemForce(onTop[k], acc);
      if next.Failure? {
        FoldFailureStays(onTop, own, k + 1);
        return Failure(next.error);
      }
      acc := next.value;
      k := k + 1;
    }
    assert onTop[..k] == onTop;
    r := Success(ForcePoint(acc));
  }

  lemma {:induction false} FoldFailureStays(onTop: seq<PlacedItem>, acc: ForcePair, k: nat)
    requires k <= |onTop| && FoldOnTop(onTop[..k], acc).Failure?
    ensures FoldOnTop(onTop, acc) == FoldOnTop(onTop[..k], acc)
    decreases |onTop| - k
  {
    if k < |onTop| {
      assert onTop[..k + 1][..k] == onTop[..k];
      FoldFailureStays(onTop, acc, k + 1);
    } else {
      assert onTop[..k] == onTop;
    }
  }

  /**
   * assessUld: 1 for a unit with no items; otherwise the ensure step
   * (which throws on an empty map), then -1 for a non-box item or the
   * share of the stable prefix.
   */
  method AssessUld(uld: ULD, minY: MinYOracle, g: GeometryOracle) returns (r: Result<real>)
    requires uld.Valid() && SoundMinY(minY)
    modifies uld`relations
    ensures uld.Valid() && BelowIsLower(uld.relations)
    ensures uld.placedItemsSorted == [] ==> r == Success(1.0) && uld.relations == old(uld.relations)
    ensures uld.placedItemsSorted != [] && |uld.placedItems| == 0 ==>
      r == Failure(NoSuchElement) && uld.relations == old(uld.relations)
    ensures uld.placedItemsSorted != [] && |uld.placedItems| > 0 ==>
      uld.relations == EnsuredRelations(uld.Values(), old(uld.relations), minY) &&
      r == BoxOnlyScore(uld.placedItemsSorted, KrebsRamosVerdict(uld.relations, g))
  {
    LayeredBelowIsLower(uld.relations, uld.top);
    if |uld.placedItemsSorted| == 0 {
      return Success(1.0);
    }
    var e := CalculateULDSupportStructure(uld, minY);
    LayeredBelowIsLower(uld.relations, uld.top);
    if e.Some? {
      return Failure(e.value);
    }
    r := ScoreBoxesByPrefix(uld.placedItemsSorted, KrebsRamosVerdict(uld.relations, g));
  }
}
