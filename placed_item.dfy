/**
 * A placed item: an item with a shape, a cargo position and its place in the
 * loading sequence, and the environment relations (items below, on top and
 * beside it) that the support-structure computation records for it.
 */
module PlacedItems {
  import opened Numerics
  import opened Wrappers
  import opened Points
  import opened Boxes
  import opened Shapes

  /**
   * The coordinates of a placed item as ItemCoordinates reports them:
   * the integer position, the far corner and the geometric centre, and
   * whether the item stands on the floor of the loading unit.
   */
  datatype ItemCoordinates = ItemCoordinates(
    x: int, y: int, z: int,
    maxX: int, maxY: int, maxZ: int,
    centerX: real, centerY: real, centerZ: real,
    isBottom: bool)

  datatype PlacedItem = PlacedItem(
    itemLabel: string,
    weight: real,
    centerOfMass: Point3D,
    sequence: nat,
    shape: Shape3D,
    coords: ItemCoordinates)

  /** compareTo: 1 when this item comes later in the sequence, -1 otherwise; never 0. */
  function CompareTo(p: PlacedItem, q: PlacedItem): (r: int)
    ensures r == 1 <==> p.sequence > q.sequence
    ensures r == -1 <==> p.sequence <= q.sequence
  {
    if p.sequence > q.sequence then 1 else -1
  }

  /** Two items at the same sequence step each compare as the smaller one. */
  lemma CompareToOnTiesIsNotAntisymmetric(p: PlacedItem, q: PlacedItem)
    requires p.sequence == q.sequence
    ensures CompareTo(p, q) == -1 && CompareTo(q, p) == -1
  {
  }

  predicate IsBottomItem(p: PlacedItem) {
    p.coords.isBottom
  }

  /** getAbsoluteCenterOfMassPoint: the geometric centre moved by the centre-of-mass offset. */
  function AbsoluteCenterOfMass(p: PlacedItem): (c: Point3D)
    ensures c.x - p.coords.centerX == p.centerOfMass.x
    ensures c.y - p.coords.centerY == p.centerOfMass.y
    ensures c.z - p.coords.centerZ == p.centerOfMass.z
  {
    Point3D(p.coords.centerX + p.centerOfMass.x, p.coords.centerY + p.centerOfMass.y,
            p.coords.centerZ + p.centerOfMass.z)
  }

  /** The position of an item as a point. */
  function Position(p: PlacedItem): Point3D {
    Point3D(p.coords.x as real, p.coords.y as real, p.coords.z as real)
  }

  // ---------------------------------------------------------------------------
  // Environment relations
  // ---------------------------------------------------------------------------

  /** The environment relations of one item, each list in the order the items were added. */
  datatype Relations = Relations(below: seq<PlacedItem>, onTop: seq<PlacedItem>, neighbors: seq<PlacedItem>)

  /** The environment relations of all items; an item without an entry has none yet. */
  type RelationMap = map<PlacedItem, Relations>

  function RelationsOf(m: RelationMap, p: PlacedItem): Relations {
    if p in m then m[p] else Relations([], [], [])
  }

  function ItemsBelow(m: RelationMap, p: PlacedItem): seq<PlacedItem> { RelationsOf(m, p).below }
  function ItemsOnTop(m: RelationMap, p: PlacedItem): seq<PlacedItem> { RelationsOf(m, p).onTop }
  function Neighbors(m: RelationMap, p: PlacedItem): seq<PlacedItem> { RelationsOf(m, p).neighbors }

  /** Adding to a relation list: an item already listed is not listed twice. */
  function AddIfAbsent(s: seq<PlacedItem>, q: PlacedItem): (r: seq<PlacedItem>)
    ensures q in r && (forall x :: x in s ==> x in r) && (forall x :: x in r ==> x in s || x == q)
    ensures q in s ==> r == s
    ensures q !in s ==> r == s + [q]
  {
    if q in s then s else s + [q]
  }

  function AddItemBelow(m: RelationMap, p: PlacedItem, q: PlacedItem): RelationMap {
    var rel := RelationsOf(m, p);
    m[p := rel.(below := AddIfAbsent(rel.below, q))]
  }

  function AddItemOnTop(m: RelationMap, p: PlacedItem, q: PlacedItem): RelationMap {
    var rel := RelationsOf(m, p);
    m[p := rel.(onTop := AddIfAbsent(rel.onTop, q))]
  }

  function AddNeighbor(m: RelationMap, p: PlacedItem, q: PlacedItem): RelationMap {
    var rel := RelationsOf(m, p);
    m[p := rel.(neighbors := AddIfAbsent(rel.neighbors, q))]
  }

  /**
   * The minimal y at which the second item could rest when the first item
   * is below it (getMinPossibleYForOtherShape of the first item): 0 when
   * their footprints do not overlap.
   */
  type MinYOracle = (PlacedItem, PlacedItem) -> int

  /**
   * What is assumed of the oracle: a non-zero answer lies above the lower
   * item's y, and the footprints overlap (the answer is non-zero) in both
   * directions or in neither.
   */
  ghost predicate SoundMinY(minY: MinYOracle) {
    forall a, b :: minY(a, b) != 0 ==> minY(a, b) > a.coords.y && minY(b, a) != 0
  }

  datatype SupportDecision = Unrelated | OtherOnTop | ThisOnTop

  /**
   * The decision of calculateAndStoreSupportRelation: no overlap, the other
   * item resting right on this one, or this one resting right on the other.
   */
  function DecideSupport(item: PlacedItem, other: PlacedItem, minY: MinYOracle): (d: SupportDecision)
    ensures d == Unrelated <==>
      minY(item, other) == 0 || (minY(item, other) != other.coords.y && minY(other, item) != item.coords.y)
    ensures d == OtherOnTop <==> minY(item, other) != 0 && minY(item, other) == other.coords.y
    ensures d == ThisOnTop <==>
      minY(item, other) != 0 && minY(item, other) != other.coords.y && minY(other, item) == item.coords.y
  {
    var minYOtherItem := minY(item, other);
    var minYThisItem := minY(other, item);
    if minYOtherItem == 0 then Unrelated
    else if minYOtherItem == other.coords.y then OtherOnTop
    else if minYThisItem == item.coords.y then ThisOnTop
    else Unrelated
  }

  /** The relations after one call of calculateAndStoreSupportRelation. */
  function SupportRelationStep(m: RelationMap, item: PlacedItem, other: PlacedItem, minY: MinYOracle): RelationMap {
    match DecideSupport(item, other, minY)
    case Unrelated => m
    case OtherOnTop => AddItemOnTop(AddItemBelow(m, other, item), item, other)
    case ThisOnTop => AddItemBelow(AddItemOnTop(m, other, item), item, other)
  }

  /**
   * One call records at most one direction, as a matched pair: the upper
   * item lists the lower one below it and the lower one lists the upper one
   * on top of it. The relations of every other item stay as they were.
   */
  lemma SupportStepRecordsMatchedPair(m: RelationMap, item: PlacedItem, other: PlacedItem, minY: MinYOracle)
    requires item != other
    ensures var m' := SupportRelationStep(m, item, other, minY);
      (forall p :: p != item && p != other ==> RelationsOf(m', p) == RelationsOf(m, p)) &&
      (DecideSupport(item, other, minY) == Unrelated ==> m' == m) &&
      (DecideSupport(item, other, minY) == OtherOnTop ==>
        ItemsBelow(m', other) == AddIfAbsent(ItemsBelow(m, other), item) &&
        ItemsOnTop(m', item) == AddIfAbsent(ItemsOnTop(m, item), other) &&
        ItemsOnTop(m', other) == ItemsOnTop(m, other) && ItemsBelow(m', item) == ItemsBelow(m, item)) &&
      (DecideSupport(item, other, minY) == ThisOnTop ==>
        ItemsOnTop(m', other) == AddIfAbsent(ItemsOnTop(m, other), item) &&
        ItemsBelow(m', item) == AddIfAbsent(ItemsBelow(m, item), other) &&
        ItemsBelow(m', other) == ItemsBelow(m, other) && ItemsOnTop(m', item) == ItemsOnTop(m, item))
    ensures var m' := SupportRelationStep(m, item, other, minY);
      RelationsOf(m', item).neighbors == RelationsOf(m, item).neighbors &&
      RelationsOf(m', other).neighbors == RelationsOf(m, other).neighbors
  {
  }

  /**
   * The support graph is layered when every item listed below an item lies
   * strictly lower (and not below the floor) and every item listed on top
   * lies strictly higher (and not above top, the highest item's y). Walks
   * downwards and upwards through such a graph terminate.
   */
  predicate Layered(m: RelationMap, top: int) {
    forall p {:trigger p in m} :: p in m ==>
      (forall q {:trigger q in m[p].below} :: q in m[p].below ==> 0 <= q.coords.y < p.coords.y) &&
      (forall q {:trigger q in m[p].onTop} :: q in m[p].onTop ==> p.coords.y < q.coords.y <= top)
  }

  lemma LayeredRelationsOf(m: RelationMap, top: int, p: PlacedItem)
    requires Layered(m, top)
    ensures forall q {:trigger q in ItemsBelow(m, p)} :: q in ItemsBelow(m, p) ==> 0 <= q.coords.y < p.coords.y
    ensures forall q {:trigger q in ItemsOnTop(m, p)} :: q in ItemsOnTop(m, p) ==> p.coords.y < q.coords.y <= top
  {
  }

  /**
   * The downward half of Layered, which needs no bound on the heights:
   * every item listed below an item lies strictly lower and not below
   * the floor. Walks downwards through such a graph terminate.
   */
  predicate BelowIsLower(m: RelationMap) {
    forall p {:trigger p in m} :: p in m ==>
      forall q {:trigger q in m[p].below} :: q in m[p].below ==> 0 <= q.coords.y < p.coords.y
  }

  lemma LayeredBelowIsLower(m: RelationMap, top: int)
    requires Layered(m, top)
    ensures BelowIsLower(m)
  {
  }

  /** A path downwards through the support graph: each item is listed below the one before it. */
  predicate DownPath(m: RelationMap, path: seq<PlacedItem>) {
    forall i :: 0 < i < |path| ==> path[i] in ItemsBelow(m, path[i - 1])
  }

  /** The height of an item as a measure for walks downwards. */
  function Level(p: PlacedItem): nat {
    if p.coords.y < 0 then 0 else p.coords.y
  }

  /** An item listed below another one has a smaller level. */
  lemma BelowHasSmallerLevel(m: RelationMap, p: PlacedItem, q: PlacedItem)
    requires BelowIsLower(m) && q in ItemsBelow(m, p)
    ensures Level(q) < Level(p)
  {
  }

  /** With a sound oracle, recording the support relation of two items on the unit keeps the graph layered. */
  lemma SupportStepKeepsLayered(m: RelationMap, top: int, item: PlacedItem, other: PlacedItem, minY: MinYOracle)
    requires Layered(m, top) && SoundMinY(minY)
    requires 0 <= item.coords.y <= top && 0 <= other.coords.y <= top
    ensures Layered(SupportRelationStep(m, item, other, minY), top)
  {
    var m' := SupportRelationStep(m, item, other, minY);
    match DecideSupport(item, other, minY)
    case Unrelated =>
    case OtherOnTop =>
      assert minY(item, other) > item.coords.y;
      forall p | p in m' ensures
        (forall q {:trigger q in m'[p].below} :: q in m'[p].below ==> 0 <= q.coords.y < p.coords.y) &&
        (forall q {:trigger q in m'[p].onTop} :: q in m'[p].onTop ==> p.coords.y < q.coords.y <= top)
      {
        LayeredRelationsOf(m, top, p);
      }
    case ThisOnTop =>
      assert minY(other, item) != 0;
      assert minY(other, item) > other.coords.y;
      forall p | p in m' ensures
        (forall q {:trigger q in m'[p].below} :: q in m'[p].below ==> 0 <= q.coords.y < p.coords.y) &&
        (forall q {:trigger q in m'[p].onTop} :: q in m'[p].onTop ==> p.coords.y < q.coords.y <= top)
      {
        LayeredRelationsOf(m, top, p);
      }
  }

  // ---------------------------------------------------------------------------
  // Base support factor
  // ---------------------------------------------------------------------------

  /** Thickness of the virtual floor box below a bottom item. */
  const FLOOR_HEIGHT: real := 5.0

  /**
   * The support an item at y = 0 receives from the floor: the factor of a
   * box with the item's integer width and depth and height 5, lying just
   * below it. The box constructor refuses a negative dimension.
   */
  function FloorSupport(p: PlacedItem, g: GeometryOracle): (r: Result<Quotient>)
    ensures r.Failure? <==> Width(p.shape) < 0 || Depth(p.shape) < 0
  {
    match NewBox(Width(p.shape) as real, FLOOR_HEIGHT, Depth(p.shape) as real, 0)
    case Failure(e) => Failure(e)
    case Success(floor) => Success(BaseSupportFactor(p.shape, BoxShape(floor), 0.0, -FLOOR_HEIGHT, 0.0, g))
  }

  /**
   * The offset of one integer coordinate from another, subtracted in 32-bit
   * int arithmetic before it is widened to a double.
   */
  function Offset(from: int, to: int): (d: int)
    ensures INT_MIN <= d <= INT_MAX
    ensures (to - from - d) % 0x1_0000_0000 == 0
    ensures INT_MIN <= to - from <= INT_MAX ==> d == to - from
  {
    IntPlus(to, -from)
  }

  /** An item just right of -1 at the largest int is reported at the smallest int: the difference wraps around. */
  lemma OffsetWrapsAround()
    ensures Offset(-1, INT_MAX) == INT_MIN
  {
  }

  /** The factor an item below contributes: the item's own factor against it at their relative offset. */
  function BelowSupport(p: PlacedItem, q: PlacedItem, g: GeometryOracle): Quotient {
    BaseSupportFactor(p.shape, q.shape, Offset(p.coords.x, q.coords.x) as real, Offset(p.coords.y, q.coords.y) as real,
                      Offset(p.coords.z, q.coords.z) as real, g)
  }

  /** The running sum over a list of items below: only items earlier in the sequence contribute. */
  function SupportSum(p: PlacedItem, start: Quotient, below: seq<PlacedItem>, g: GeometryOracle): Quotient
    decreases |below|
  {
    if below == [] then start
    else
      var prev := SupportSum(p, start, below[..|below| - 1], g);
      var q := below[|below| - 1];
      if q.sequence < p.sequence then Add(prev, BelowSupport(p, q, g)) else prev
  }

  /** The running sum before the items below: 0, plus the floor's contribution for an item at y = 0. */
  function SupportStart(p: PlacedItem, g: GeometryOracle): Result<Quotient> {
    if p.coords.y == 0 then
      match FloorSupport(p, g)
      case Failure(e) => Failure(e)
      case Success(f) => Success(Add(Finite(0.0), f))
    else Success(Finite(0.0))
  }

  /** getBaseSupportFactor as a value. */
  function BaseSupportFactorOf(p: PlacedItem, rels: RelationMap, g: GeometryOracle): Result<Quotient> {
    match SupportStart(p, g)
    case Failure(e) => Failure(e)
    case Success(s) => Success(SupportSum(p, s, ItemsBelow(rels, p), g))
  }

  /** getBaseSupportFactor: the floor's share for an item at y = 0 plus the share of each earlier item below. */
  method GetBaseSupportFactor(p: PlacedItem, rels: RelationMap, g: GeometryOracle) returns (r: Result<Quotient>)
    ensures r == BaseSupportFactorOf(p, rels, g)
  {
    var supportFactor := Finite(0.0);
    if p.coords.y == 0 {
      var floor := NewBox(Width(p.shape) as real, FLOOR_HEIGHT, Depth(p.shape) as real, 0);
      if floor.Failure? {
        return Failure(floor.error);
      }
      supportFactor := Add(supportFactor, BaseSupportFactor(p.shape, BoxShape(floor.value), 0.0, -floor.value.height, 0.0, g));
    }
    ghost var start := supportFactor;
    var below := ItemsBelow(rels, p);
    for k := 0 to |below|
      invariant supportFactor == SupportSum(p, start, below[..k], g)
    {
      assert below[..k + 1][..k] == below[..k];
      var itemBelow := below[k];
      if itemBelow.sequence < p.sequence {
        supportFactor := Add(supportFactor, BelowSupport(p, itemBelow, g));
      }
    }
    assert below[..|below|] == below;
    return Success(supportFactor);
  }

  /** Items below that come later in the sequence add nothing to the sum. */
  lemma {:induction false} SupportSumIgnoresLaterItems(p: PlacedItem, start: Quotient, below: seq<PlacedItem>, g: GeometryOracle)
    requires forall k :: 0 <= k < |below| ==> below[k].sequence >= p.sequence
    ensures SupportSum(p, start, below, g) == start
    decreases |below|
  {
    if below != [] {
      SupportSumIgnoresLaterItems(p, start, below[..|below| - 1], g);
    }
  }

  /**
   * An item above the floor whose items below were all placed after it
   * receives no support at all; an item at y = 0 with no earlier item below
   * receives exactly the floor's share.
   */
  lemma BaseSupportComesFromFloorAndEarlierItems(p: PlacedItem, rels: RelationMap, g: GeometryOracle)
    requires forall q :: q in ItemsBelow(rels, p) ==> q.sequence >= p.sequence
    ensures p.coords.y != 0 ==> BaseSupportFactorOf(p, rels, g) == Success(Finite(0.0))
    ensures p.coords.y == 0 && FloorSupport(p, g).Success? ==>
      BaseSupportFactorOf(p, rels, g) == Success(Add(Finite(0.0), FloorSupport(p, g).value))
  {
    var below := ItemsBelow(rels, p);
    assert forall k :: 0 <= k < |below| ==> below[k] in below;
    match SupportStart(p, g)
    case Failure(_) =>
    case Success(s) => SupportSumIgnoresLaterItems(p, s, below, g);
  }

  /** Appending an earlier item below adds its factor to the sum; a later one leaves the sum as it was. */
  lemma SupportSumAppend(p: PlacedItem, start: Quotient, below: seq<PlacedItem>, q: PlacedItem, g: GeometryOracle)
    ensures q.sequence < p.sequence ==>
      SupportSum(p, start, below + [q], g) == Add(SupportSum(p, start, below, g), BelowSupport(p, q, g))
    ensures q.sequence >= p.sequence ==> SupportSum(p, start, below + [q], g) == SupportSum(p, start, below, g)
  {
    assert (below + [q])[..|below + [q]| - 1] == below;
  }
}
