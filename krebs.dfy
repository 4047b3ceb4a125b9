/**
 * The Krebs criterion: an item off the floor is stable when its geometric
 * centre lies strictly inside the level extent of every item below it,
 * directly or further down its corridor, and its base support factor is
 * at least 0.75 (beyond a small tolerance). The level extent of an item A
 * is the bounding box of A's footprint and of every other item of the
 * list that reaches at least as high as A and starts below A's top.
 */
module Krebs {
  import opened Numerics
  import opened Wrappers
  import opened Shapes
  import opened PlacedItems
  import opened ULDs
  import opened StablePrefixes
  import opened FullBaseSupport

  /** The base support factor an item needs. */
  const MIN_SUPPORT_FACTOR: real := 0.75

  // ---------------------------------------------------------------------------
  // Items in the corridor below
  // ---------------------------------------------------------------------------

  /** For each item label, the items found in the corridor below the item, in the order found. */
  type CorridorMap = map<string, seq<PlacedItem>>

  /** The list of a label, the missing entry read as the empty list. */
  function Lookup(c: CorridorMap, l: string): seq<PlacedItem> {
    if l in c then c[l] else []
  }

  /** The list of a label with one more item at its end. */
  function Append(c: CorridorMap, l: string, q: PlacedItem): (d: CorridorMap)
    ensures Lookup(d, l) == Lookup(c, l) + [q]
    ensures forall k :: k != l ==> Lookup(d, k) == Lookup(c, k)
  {
    c[l := Lookup(c, l) + [q]]
  }

  /**
   * What one pair of calculateItemsInCorridor records, as the label of
   * the upper item and the item in the corridor below it: nothing when
   * the footprints do not meet or one rests directly on the other; the
   * first item when the second floats above the height at which it could
   * rest on the first; else, with the roles swapped, the second item when
   * the first floats above it.
   */
  function CorridorEntry(p1: PlacedItem, p2: PlacedItem, minY: MinYOracle): Option<(string, PlacedItem)> {
    var theoreticalY := minY(p1, p2);
    if theoreticalY == 0 then None
    else if theoreticalY == p2.coords.y then None
    else if p2.coords.y > theoreticalY then Some((p2.itemLabel, p1))
    else
      var reverseY := minY(p2, p1);
      if reverseY == p1.coords.y then None
      else if p1.coords.y > reverseY then Some((p1.itemLabel, p2))
      else None
  }

  /** One pair of the double loop. */
  function CorridorStep(c: CorridorMap, p1: PlacedItem, p2: PlacedItem, minY: MinYOracle): CorridorMap {
    match CorridorEntry(p1, p2, minY)
    case None => c
    case Some(e) => Append(c, e.0, e.1)
  }

  /** The double loop from the pair (i, j) on, with the map built so far. */
  function CorridorsFrom(vs: seq<PlacedItem>, minY: MinYOracle, i: nat, j: nat, c: CorridorMap): CorridorMap
    decreases |vs| - i, |vs| - j
  {
    if i >= |vs| then c
    else if j >= |vs| then CorridorsFrom(vs, minY, i + 1, i + 2, c)
    else CorridorsFrom(vs, minY, i, j + 1, CorridorStep(c, vs[i], vs[j], minY))
  }

  /** calculateItemsInCorridor over the values of the unit in map order. */
  function Corridors(vs: seq<PlacedItem>, minY: MinYOracle): CorridorMap {
    CorridorsFrom(vs, minY, 0, 1, map[])
  }

  /** The pair (i2, j2) of distinct positions comes at or after (i, j) in the double loop. */
  predicate Pending(n: nat, i: nat, j: nat, i2: nat, j2: nat) {
    i2 < j2 < n && (i2 > i || (i2 == i && j2 >= j))
  }

  /** The entry of the pair (i2, j2) is item q below label l. */
  predicate RecordsAt(vs: seq<PlacedItem>, minY: MinYOracle, i2: nat, j2: nat, l: string, q: PlacedItem)
    requires i2 < |vs| && j2 < |vs|
  {
    CorridorEntry(vs[i2], vs[j2], minY) == Some((l, q))
  }

  /** Some pair at or after (i, j) records item q below label l. */
  ghost predicate PendingRecords(vs: seq<PlacedItem>, minY: MinYOracle, i: nat, j: nat, l: string, q: PlacedItem) {
    exists i2: nat, j2: nat :: Pending(|vs|, i, j, i2, j2) && RecordsAt(vs, minY, i2, j2, l, q)
  }

  /** Past the last row no pair is left. */
  lemma NothingPendingPastEnd(vs: seq<PlacedItem>, minY: MinYOracle, i: nat, j: nat, l: string, q: PlacedItem)
    requires i >= |vs|
    ensures !PendingRecords(vs, minY, i, j, l, q)
  {
  }

  /** At the end of a row the pairs left are those of the next row on. */
  lemma PendingAtRowEnd(vs: seq<PlacedItem>, minY: MinYOracle, i: nat, j: nat, l: string, q: PlacedItem)
    requires i < |vs| <= j
    ensures PendingRecords(vs, minY, i, j, l, q) <==> PendingRecords(vs, minY, i + 1, i + 2, l, q)
  {
    var n := |vs|;
    if PendingRecords(vs, minY, i, j, l, q) {
      var i2: nat, j2: nat :| Pending(n, i, j, i2, j2) && RecordsAt(vs, minY, i2, j2, l, q);
      assert Pending(n, i + 1, i + 2, i2, j2);
    }
    if PendingRecords(vs, minY, i + 1, i + 2, l, q) {
      var i2: nat, j2: nat :| Pending(n, i + 1, i + 2, i2, j2) && RecordsAt(vs, minY, i2, j2, l, q);
      assert Pending(n, i, j, i2, j2);
    }
  }

  /** Inside a row the pairs left are the current pair and those after it. */
  lemma PendingAtPair(vs: seq<PlacedItem>, minY: MinYOracle, i: nat, j: nat, l: string, q: PlacedItem)
    requires i < j < |vs|
    ensures PendingRecords(vs, minY, i, j, l, q) <==>
      RecordsAt(vs, minY, i, j, l, q) || PendingRecords(vs, minY, i, j + 1, l, q)
  {
    var n := |vs|;
    if PendingRecords(vs, minY, i, j, l, q) {
      var i2: nat, j2: nat :| Pending(n, i, j, i2, j2) && RecordsAt(vs, minY, i2, j2, l, q);
      if i2 != i || j2 != j {
        assert Pending(n, i, j + 1, i2, j2);
      }
    }
    if PendingRecords(vs, minY, i, j + 1, l, q) {
      var i2: nat, j2: nat :| Pending(n, i, j + 1, i2, j2) && RecordsAt(vs, minY, i2, j2, l, q);
      assert Pending(n, i, j, i2, j2);
    }
    if RecordsAt(vs, minY, i, j, l, q) {
      assert Pending(n, i, j, i, j);
    }
  }

  /** One step adds to the list of l exactly the entry of its pair. */
  lemma CorridorStepMeaning(c: CorridorMap, p1: PlacedItem, p2: PlacedItem, minY: MinYOracle, l: string, q: PlacedItem)
    ensures q in Lookup(CorridorStep(c, p1, p2, minY), l) <==>
      q in Lookup(c, l) || CorridorEntry(p1, p2, minY) == Some((l, q))
  {
  }

  /** The loop from (i, j) adds to a list exactly the entries of the pairs still to come. */
  lemma {:induction false} CorridorsFromMeaning(vs: seq<PlacedItem>, minY: MinYOracle, i: nat, j: nat, c: CorridorMap,
                                               l: string, q: PlacedItem)
    requires i < j
    ensures q in Lookup(CorridorsFrom(vs, minY, i, j, c), l) <==>
      q in Lookup(c, l) || PendingRecords(vs, minY, i, j, l, q)
    decreases |vs| - i, |vs| - j
  {
    if i >= |vs| {
      NothingPendingPastEnd(vs, minY, i, j, l, q);
    } else if j >= |vs| {
      CorridorsFromMeaning(vs, minY, i + 1, i + 2, c, l, q);
      PendingAtRowEnd(vs, minY, i, j, l, q);
    } else {
      CorridorsFromMeaning(vs, minY, i, j + 1, CorridorStep(c, vs[i], vs[j], minY), l, q);
      CorridorStepMeaning(c, vs[i], vs[j], minY, l, q);
      PendingAtPair(vs, minY, i, j, l, q);
    }
  }

  /**
   * An item is listed in the corridor of a label exactly when some pair
   * of distinct positions of the double loop records it there.
   */
  lemma CorridorsMeaning(vs: seq<PlacedItem>, minY: MinYOracle, l: string, q: PlacedItem)
    ensures q in Lookup(Corridors(vs, minY), l) <==>
      exists i2: nat, j2: nat :: i2 < j2 < |vs| && RecordsAt(vs, minY, i2, j2, l, q)
  {
    CorridorsFromMeaning(vs, minY, 0, 1, map[], l, q);
    if PendingRecords(vs, minY, 0, 1, l, q) {
      var i2: nat, j2: nat :| Pending(|vs|, 0, 1, i2, j2) && RecordsAt(vs, minY, i2, j2, l, q);
      assert i2 < j2 < |vs|;
    }
    if exists i2: nat, j2: nat :: i2 < j2 < |vs| && RecordsAt(vs, minY, i2, j2, l, q) {
      var i2: nat, j2: nat :| i2 < j2 < |vs| && RecordsAt(vs, minY, i2, j2, l, q);
      assert Pending(|vs|, 0, 1, i2, j2);
    }
  }

  /**
   * With a sound height oracle, an entry names the upper item of the pair
   * by its label, the item below is the other one, their footprints meet,
   * and the item below lies strictly lower than the upper one, which
   * floats above the height at which it could rest on it.
   */
  lemma CorridorEntryIsLower(p1: PlacedItem, p2: PlacedItem, minY: MinYOracle, l: string, q: PlacedItem)
    requires SoundMinY(minY)
    requires CorridorEntry(p1, p2, minY) == Some((l, q))
    ensures (l == p2.itemLabel && q == p1) || (l == p1.itemLabel && q == p2)
    ensures l == p2.itemLabel && q == p1 && p2.coords.y > minY(p1, p2) ==> minY(p1, p2) != 0 && q.coords.y < p2.coords.y
    ensures var upper := if q == p1 then p2 else p1;
      upper.itemLabel == l && minY(q, upper) != 0 && upper.coords.y > minY(q, upper) > q.coords.y
  {
  }

  /**
   * calculateItemsInCorridor: the double loop over the pairs of values,
   * each recording at most one entry.
   */
  method CalculateItemsInCorridor(vs: seq<PlacedItem>, minY: MinYOracle) returns (c: CorridorMap)
    ensures c == Corridors(vs, minY)
  {
    c := map[];
    var i := 0;
    while i < |vs|
      invariant Corridors(vs, minY) == CorridorsFrom(vs, minY, i, i + 1, c)
    {
      var j := i + 1;
      while j < |vs|
        invariant i < j
        invariant Corridors(vs, minY) == CorridorsFrom(vs, minY, i, j, c)
      {
        c := CorridorStep(c, vs[i], vs[j], minY);
        j := j + 1;
      }
      i := i + 1;
    }
  }

  // ---------------------------------------------------------------------------
  // Level extents
  // ---------------------------------------------------------------------------

  /** A rectangle of the ground plane, bounds included. */
  datatype Extent = Extent(minX: int, maxX: int, minZ: int, maxZ: int)

  /** The footprint of an item as an extent. */
  function Footprint(p: PlacedItem): Extent {
    Extent(p.coords.x, p.coords.maxX, p.coords.z, p.coords.maxZ)
  }

  /** The extent holds the footprint of the item. */
  predicate Covers(e: Extent, p: PlacedItem) {
    e.minX <= p.coords.x && p.coords.maxX <= e.maxX && e.minZ <= p.coords.z && p.coords.maxZ <= e.maxZ
  }

  /** Item b lies in the level of item a: another item that reaches at least to a's top and starts below it. */
  predicate SameLevel(a: PlacedItem, b: PlacedItem) {
    a != b && b.coords.maxY >= a.coords.maxY && b.coords.y < a.coords.maxY
  }

  /** The extent widened by the footprint of one item. */
  function Widen(e: Extent, b: PlacedItem): Extent {
    Extent(if b.coords.x < e.minX then b.coords.x else e.minX,
           if b.coords.maxX > e.maxX then b.coords.maxX else e.maxX,
           if b.coords.z < e.minZ then b.coords.z else e.minZ,
           if b.coords.maxZ > e.maxZ then b.coords.maxZ else e.maxZ)
  }

  /** Each bound of the extent is the bound of the start or of an item of the level of a among list[..j]. */
  predicate BoundsAttained(e: Extent, start: Extent, a: PlacedItem, list: seq<PlacedItem>, j: nat)
    requires j <= |list|
  {
    (e.minX == start.minX || exists k :: 0 <= k < j && SameLevel(a, list[k]) && e.minX == list[k].coords.x) &&
    (e.maxX == start.maxX || exists k :: 0 <= k < j && SameLevel(a, list[k]) && e.maxX == list[k].coords.maxX) &&
    (e.minZ == start.minZ || exists k :: 0 <= k < j && SameLevel(a, list[k]) && e.minZ == list[k].coords.z) &&
    (e.maxZ == start.maxZ || exists k :: 0 <= k < j && SameLevel(a, list[k]) && e.maxZ == list[k].coords.maxZ)
  }

  /** The inner loop over list[..j], starting from the extent start: widened by each item of the level of a. */
  function ExtentUpTo(a: PlacedItem, list: seq<PlacedItem>, j: nat, start: Extent): Extent
    requires j <= |list|
  {
    if j == 0 then start
    else
      var prev := ExtentUpTo(a, list, j - 1, start);
      if SameLevel(a, list[j - 1]) then Widen(prev, list[j - 1]) else prev
  }

  /**
   * The loop's extent is the bounding box of start and the items of the
   * level of a: it holds them all, and each of its bounds is attained by
   * start or by one of those items.
   */
  lemma {:induction false} ExtentUpToIsBoundingBox(a: PlacedItem, list: seq<PlacedItem>, j: nat, start: Extent)
    requires j <= |list|
    ensures var e := ExtentUpTo(a, list, j, start);
      e.minX <= start.minX && start.maxX <= e.maxX && e.minZ <= start.minZ && start.maxZ <= e.maxZ
    ensures forall k :: 0 <= k < j && SameLevel(a, list[k]) ==> Covers(ExtentUpTo(a, list, j, start), list[k])
    ensures BoundsAttained(ExtentUpTo(a, list, j, start), start, a, list, j)
  {
    if j > 0 {
      ExtentUpToIsBoundingBox(a, list, j - 1, start);
      var prev := ExtentUpTo(a, list, j - 1, start);
      var e := ExtentUpTo(a, list, j, start);
      if SameLevel(a, list[j - 1]) {
        assert e == Widen(prev, list[j - 1]);
      } else {
        assert e == prev;
      }
    }
  }

  /** The level extent of a within the list: its own footprint widened by the items of its level. */
  function LevelExtent(a: PlacedItem, list: seq<PlacedItem>): Extent {
    ExtentUpTo(a, list, |list|, Footprint(a))
  }

  /** The level extent holds the item and every item of its level, and no more than their bounding box. */
  lemma LevelExtentIsBoundingBox(a: PlacedItem, list: seq<PlacedItem>)
    ensures Covers(LevelExtent(a, list), a)
    ensures forall b :: b in list && SameLevel(a, b) ==> Covers(LevelExtent(a, list), b)
    ensures BoundsAttained(LevelExtent(a, list), Footprint(a), a, list, |list|)
  {
    ExtentUpToIsBoundingBox(a, list, |list|, Footprint(a));
    forall b | b in list && SameLevel(a, b) ensures Covers(LevelExtent(a, list), b) {
      var k :| 0 <= k < |list| && list[k] == b;
    }
  }

  /** The centre lies strictly inside the extent. */
  predicate StrictlyInside(cx: real, cz: real, e: Extent) {
    e.minX as real < cx < e.maxX as real && e.minZ as real < cz < e.maxZ as real
  }

  /** The centre lies strictly inside the level extent of every item of the list. */
  predicate LevelsHold(cx: real, cz: real, list: seq<PlacedItem>) {
    forall a :: a in list ==> StrictlyInside(cx, cz, LevelExtent(a, list))
  }

  /**
   * With a single item in the list there is no level to widen by: the
   * centre must lie strictly inside that item's footprint.
   */
  lemma LoneItemNeedsCentreOnIt(cx: real, cz: real, a: PlacedItem)
    ensures LevelsHold(cx, cz, [a]) <==> StrictlyInside(cx, cz, Footprint(a))
  {
    assert LevelExtent(a, [a]) == ExtentUpTo(a, [a], 0, Footprint(a));
  }

  /**
   * An item of the list with no other item in its level: the centre must
   * lie strictly inside that item's own footprint.
   */
  lemma {:induction false} IsolatedItemNeedsCentreOnIt(cx: real, cz: real, list: seq<PlacedItem>, a: PlacedItem)
    requires a in list && LevelsHold(cx, cz, list)
    requires forall b :: b in list ==> !SameLevel(a, b)
    ensures StrictlyInside(cx, cz, Footprint(a))
  {
    IsolatedExtent(a, list, |list|);
  }

  lemma {:induction false} IsolatedExtent(a: PlacedItem, list: seq<PlacedItem>, j: nat)
    requires j <= |list|
    requires forall b :: b in list ==> !SameLevel(a, b)
    ensures ExtentUpTo(a, list, j, Footprint(a)) == Footprint(a)
  {
    if j > 0 {
      IsolatedExtent(a, list, j - 1);
      assert !SameLevel(a, list[j - 1]);
    }
  }

  /**
   * constructLevelsAndControlStabilityWithItems: for each item its level
   * extent by the inner loop, and false as soon as the centre is not
   * strictly inside one.
   */
  method ConstructLevelsAndControlStability(cx: real, cz: real, list: seq<PlacedItem>) returns (b: bool)
    ensures b == LevelsHold(cx, cz, list)
  {
    for k := 0 to |list|
      invariant forall i :: 0 <= i < k ==> StrictlyInside(cx, cz, LevelExtent(list[i], list))
    {
      var itemA := list[k];
      var minX := itemA.coords.x;
      var maxX := itemA.coords.maxX;
      var minZ := itemA.coords.z;
      var maxZ := itemA.coords.maxZ;
      for j := 0 to |list|
        invariant Extent(minX, maxX, minZ, maxZ) == ExtentUpTo(itemA, list, j, Footprint(itemA))
      {
        var itemB := list[j];
        if itemA == itemB {
          continue;
        }
        if itemB.coords.maxY >= itemA.coords.maxY && itemB.coords.y < itemA.coords.maxY {
          minX := if itemB.coords.x < minX then itemB.coords.x else minX;
          maxX := if itemB.coords.maxX > maxX then itemB.coords.maxX else maxX;
          minZ := if itemB.coords.z < minZ then itemB.coords.z else minZ;
          maxZ := if itemB.coords.maxZ > maxZ then itemB.coords.maxZ else maxZ;
        }
      }
      if cx <= minX as real || cx >= maxX as real || cz <= minZ as real || cz >= maxZ as real {
        assert !StrictlyInside(cx, cz, LevelExtent(list[k], list));
        return false;
      }
    }
    b := true;
  }

  // ---------------------------------------------------------------------------
  // Stability
  // ---------------------------------------------------------------------------

  /** The x and z of the item's geometric centre; the cast to a box throws for any other shape. */
  function Centre(p: PlacedItem): Result<(real, real)> {
    if !p.shape.BoxShape? then Failure(ClassCast)
    else Success((p.coords.x as real + p.shape.box.width * 0.5, p.coords.z as real + p.shape.box.depth * 0.5))
  }

  /** The items below an item directly, followed by those in its corridor. */
  function AllItemsSomehowBelow(rels: RelationMap, corridors: CorridorMap, p: PlacedItem): seq<PlacedItem> {
    ItemsBelow(rels, p) + Lookup(corridors, p.itemLabel)
  }

  /** isPartiallySupported: the base support factor is not below the minimum less EPSILON. */
  function PartiallySupported(p: PlacedItem, rels: RelationMap, g: GeometryOracle): Result<bool> {
    match BaseSupportFactorOf(p, rels, g)
    case Failure(e) => Failure(e)
    case Success(f) => Success(!LessThan(f, MIN_SUPPORT_FACTOR - EPSILON))
  }

  /**
   * isItemStable: a bottom item is stable; any other item needs its
   * centre inside every level extent of the items somehow below it, and
   * then enough base support.
   */
  function KrebsStable(rels: RelationMap, corridors: CorridorMap, g: GeometryOracle, p: PlacedItem): Result<bool> {
    if IsBottomItem(p) then Success(true)
    else
      match Centre(p)
      case Failure(e) => Failure(e)
      case Success(centre) =>
        if !LevelsHold(centre.0, centre.1, AllItemsSomehowBelow(rels, corridors, p)) then Success(false)
        else PartiallySupported(p, rels, g)
  }

  /** The test of the prefix walk: the position plays no part. */
  function KrebsVerdict(rels: RelationMap, corridors: CorridorMap, g: GeometryOracle): (v: Verdict)
    ensures forall p, k1, k2 :: v(p, k1) == v(p, k2)
  {
    (p: PlacedItem, k: nat) => KrebsStable(rels, corridors, g, p)
  }

  /**
   * An item off the floor that is stable under this criterion passes the
   * partial base support test with alpha 0.75, and its centre lies
   * strictly inside the level extent of every item below it.
   */
  lemma StableImpliesPartialSupport(rels: RelationMap, corridors: CorridorMap, g: GeometryOracle, p: PlacedItem)
    requires !IsBottomItem(p) && KrebsStable(rels, corridors, g, p) == Success(true)
    ensures BaseSupportFactorOf(p, rels, g).Success? && Passes(BaseSupportFactorOf(p, rels, g).value, MIN_SUPPORT_FACTOR)
    ensures Centre(p).Success? &&
      forall a :: a in ItemsBelow(rels, p) ==>
        StrictlyInside(Centre(p).value.0, Centre(p).value.1, LevelExtent(a, AllItemsSomehowBelow(rels, corridors, p)))
  {
    PassesIff(BaseSupportFactorOf(p, rels, g).value, MIN_SUPPORT_FACTOR);
  }

  /**
   * Conversely, a box off the floor whose centre lies inside every level
   * extent and whose factor passes the partial base support test with
   * alpha 0.75 is stable.
   */
  lemma PartialSupportAndLevelsImplyStable(rels: RelationMap, corridors: CorridorMap, g: GeometryOracle, p: PlacedItem)
    requires !IsBottomItem(p) && Centre(p).Success?
    requires LevelsHold(Centre(p).value.0, Centre(p).value.1, AllItemsSomehowBelow(rels, corridors, p))
    requires BaseSupportFactorOf(p, rels, g).Success? && Passes(BaseSupportFactorOf(p, rels, g).value, MIN_SUPPORT_FACTOR)
    ensures KrebsStable(rels, corridors, g, p) == Success(true)
  {
    PassesIff(BaseSupportFactorOf(p, rels, g).value, MIN_SUPPORT_FACTOR);
  }

  // ---------------------------------------------------------------------------
  // The assessment
  // ---------------------------------------------------------------------------

  /**
   * assessUld: 1 for a unit with no items; -1 as soon as an item is not a
   * box; otherwise the ensure step (which throws on an empty map), the
   * corridors over the values in map order, and the share of the stable
   * prefix.
   */
  method AssessUld(uld: ULD, minY: MinYOracle, g: GeometryOracle) returns (r: Result<real>)
    requires uld.Valid() && SoundMinY(minY)
    modifies uld`relations
    ensures uld.Valid()
    ensures uld.placedItemsSorted == [] ==> r == Success(1.0) && uld.relations == old(uld.relations)
    ensures uld.placedItemsSorted != [] && !AllBoxes(uld.placedItemsSorted) ==>
      r == Success(-1.0) && uld.relations == old(uld.relations)
    ensures uld.placedItemsSorted != [] && AllBoxes(uld.placedItemsSorted) && |uld.placedItems| == 0 ==>
      r == Failure(NoSuchElement) && uld.relations == old(uld.relations)
    ensures uld.placedItemsSorted != [] && AllBoxes(uld.placedItemsSorted) && |uld.placedItems| > 0 ==>
      uld.relations == EnsuredRelations(uld.Values(), old(uld.relations), minY) &&
      r == PrefixScore(uld.placedItemsSorted, KrebsVerdict(uld.relations, Corridors(uld.Values(), minY), g))
  {
    if |uld.placedItemsSorted| == 0 {
      return Success(1.0);
    }
    for j := 0 to |uld.placedItemsSorted|
      invariant forall i :: 0 <= i < j ==> IsBox(uld.placedItemsSorted[i].shape)
    {
      if !uld.placedItemsSorted[j].shape.BoxShape? {
        return Success(-1.0);
      }
    }
    var e := CalculateULDSupportStructure(uld, minY);
    if e.Some? {
      return Failure(e.value);
    }
    var itemsInCorridorBelow := CalculateItemsInCorridor(uld.Values(), minY);
    var counter := CountStablePrefix(uld.placedItemsSorted, KrebsVerdict(uld.relations, itemsInCorridorBelow, g));
    if counter.Failure? {
      return Failure(counter.error);
    }
    r := Success(counter.value as real / |uld.placedItemsSorted| as real);
  }
}
