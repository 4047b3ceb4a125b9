/**
 * The criterion of Ramos et al.: an item is stable at a sequence step when
 * the resultant of its own weight and the weights of the items directly
 * on top of it that are already placed at that step falls into its
 * support polygon, and every item directly or indirectly below it is
 * stable at the same step. The score is the stable prefix of the sorted
 * items, the item at position i checked at step i.
 */
module Ramos {
  import opened Numerics
  import opened Wrappers
  import opened Points
  import opened Shapes
  import opened PlacedItems
  import opened ULDs
  import opened StablePrefixes
  import opened SupportPolygons
  import opened FullBaseSupport

  /**
   * getItemCoMAndForce: the item's weight force, and the absolute x and z
   * of its centre of mass (box corner plus half the box plus the offset)
   * each times that force. The cast to a box throws for any other shape.
   */
  function CoMAndForce(p: PlacedItem): Result<ForcePair> {
    if !p.shape.BoxShape? then Failure(ClassCast)
    else
      var force := p.weight * GRAVITY;
      var comX := p.coords.x as real + p.shape.box.width * 0.5 + p.centerOfMass.x;
      var comZ := p.coords.z as real + p.shape.box.depth * 0.5 + p.centerOfMass.z;
      Success(ForcePair(Times(comX, force), Times(comZ, force), force))
  }

  /** addItemGravitationalForce: the item's pair added to the running pair. */
  function AddItemForce(p: PlacedItem, acc: ForcePair): Result<ForcePair> {
    match CoMAndForce(p)
    case Failure(e) => Failure(e)
    case Success(c) => Success(ForcePair(acc.sumX + c.sumX, acc.sumZ + c.sumZ, acc.force + c.force))
  }

  /** The fold over the items on top, in order, adding those placed at step s or earlier. */
  function FoldOnTop(onTop: seq<PlacedItem>, s: nat, acc: ForcePair): Result<ForcePair>
    decreases |onTop|
  {
    if onTop == [] then Success(acc)
    else
      match FoldOnTop(onTop[..|onTop| - 1], s, acc)
      case Failure(e) => Failure(e)
      case Success(prev) =>
        var q := onTop[|onTop| - 1];
        if q.sequence <= s then AddItemForce(q, prev) else Success(prev)
  }

  /**
   * getResultantForcePointRegardingSequenceStep: the item's own pair, the
   * items on top placed by step s added, and the sums divided by the
   * total force.
   */
  function ResultantPoint(rels: RelationMap, p: PlacedItem, s: nat): Result<TestPoint> {
    match AddItemForce(p, ForcePair(0.0, 0.0, 0.0))
    case Failure(e) => Failure(e)
    case Success(own) =>
      match FoldOnTop(ItemsOnTop(rels, p), s, own)
      case Failure(e) => Failure(e)
      case Success(r) => Success(ForcePoint(r))
  }

  // ---------------------------------------------------------------------------
  // The contributors of the resultant
  // ---------------------------------------------------------------------------

  /** The items of a list placed at step s or earlier, in order. */
  function Contributors(items: seq<PlacedItem>, s: nat): (r: seq<PlacedItem>)
    ensures forall q :: q in r <==> q in items && q.sequence <= s
    ensures (forall q :: q in items ==> q.sequence > s) ==> r == []
    decreases |items|
  {
    if items == [] then []
    else
      var init := items[..|items| - 1];
      var q := items[|items| - 1];
      assert items == init + [q];
      Contributors(init, s) + (if q.sequence <= s then [q] else [])
  }

  /** The fold adding every item of a list, in order. */
  function FoldAll(items: seq<PlacedItem>, acc: ForcePair): Result<ForcePair>
    decreases |items|
  {
    if items == [] then Success(acc)
    else
      match FoldAll(items[..|items| - 1], acc)
      case Failure(e) => Failure(e)
      case Success(prev) => AddItemForce(items[|items| - 1], prev)
  }

  lemma FoldAllAppend(items: seq<PlacedItem>, q: PlacedItem, acc: ForcePair)
    ensures FoldAll(items + [q], acc) ==
      match FoldAll(items, acc)
      case Failure(e) => Failure(e)
      case Success(prev) => AddItemForce(q, prev)
  {
    assert (items + [q])[..|items|] == items;
  }

  /**
   * The fold at step s is the fold over exactly the items placed by then:
   * an item on top that comes later in the sequence has no influence.
   */
  lemma {:induction false} FoldOnTopIsFoldOfContributors(onTop: seq<PlacedItem>, s: nat, acc: ForcePair)
    ensures FoldOnTop(onTop, s, acc) == FoldAll(Contributors(onTop, s), acc)
    decreases |onTop|
  {
    if onTop != [] {
      var init := onTop[..|onTop| - 1];
      var q := onTop[|onTop| - 1];
      FoldOnTopIsFoldOfContributors(init, s, acc);
      if q.sequence <= s {
        FoldAllAppend(Contributors(init, s), q, acc);
      } else {
        assert Contributors(onTop, s) == Contributors(init, s);
      }
    }
  }

  /**
   * An item without contributors on top at step s, a box with a non-zero
   * weight, has its own absolute centre of mass as the resultant point.
   */
  lemma ResultantOfLoneItem(rels: RelationMap, p: PlacedItem, s: nat)
    requires p.shape.BoxShape? && p.weight != 0.0
    requires forall q :: q in ItemsOnTop(rels, p) ==> q.sequence > s
    ensures ResultantPoint(rels, p, s) == Success(At(Point2D(
      p.coords.x as real + p.shape.box.width * 0.5 + p.centerOfMass.x,
      p.coords.z as real + p.shape.box.depth * 0.5 + p.centerOfMass.z)))
  {
    var own := AddItemForce(p, ForcePair(0.0, 0.0, 0.0)).value;
    FoldOnTopIsFoldOfContributors(ItemsOnTop(rels, p), s, own);
    assert Contributors(ItemsOnTop(rels, p), s) == [];
    var comX := p.coords.x as real + p.shape.box.width * 0.5 + p.centerOfMass.x;
    var comZ := p.coords.z as real + p.shape.box.depth * 0.5 + p.centerOfMass.z;
    var t := ForcePoint(own);
    assert own.force == p.weight * GRAVITY != 0.0;
    assert t.p.x * own.force == comX * own.force;
    assert t.p.y * own.force == comZ * own.force;
  }

  // ---------------------------------------------------------------------------
  // Stability
  // ---------------------------------------------------------------------------

  /**
   * isStableWithItemAtSequence: a bottom item is stable; any other item is
   * stable at step s when its resultant point at s is supported and every
   * item directly or indirectly below is stable at s.
   */
  function RamosStable(rels: RelationMap, g: GeometryOracle, p: PlacedItem, s: nat): Result<bool>
    requires BelowIsLower(rels)
    decreases Level(p), 1, 0
  {
    if IsBottomItem(p) then Success(true)
    else
      match ResultantPoint(rels, p, s)
      case Failure(e) => Failure(e)
      case Success(t) =>
        match ContactSupport(p, ItemsBelow(rels, p), t, g)
        case Failure(e) => Failure(e)
        case Success(supported) => if !supported then Success(false) else BelowStable(rels, g, p, s, 0)
  }

  /**
   * testForItemsDirectAndIndirectBelow from the item below at position j:
   * each item below must be stable and pass the same test itself.
   */
  function BelowStable(rels: RelationMap, g: GeometryOracle, p: PlacedItem, s: nat, j: nat): Result<bool>
    requires BelowIsLower(rels) && j <= |ItemsBelow(rels, p)|
    decreases Level(p), 0, |ItemsBelow(rels, p)| - j
  {
    var below := ItemsBelow(rels, p);
    if j == |below| then Success(true)
    else
      var q := below[j];
      BelowHasSmallerLevel(rels, p, q);
      match RamosStable(rels, g, q, s)
      case Failure(e) => Failure(e)
      case Success(stable) =>
        if !stable then Success(false)
        else
          match BelowStable(rels, g, q, s, 0)
          case Failure(e) => Failure(e)
          case Success(allBelow) => if !allBelow then Success(false) else BelowStable(rels, g, p, s, j + 1)
  }

  /** The test of the prefix walk: the item at position k is checked at step k. */
  function RamosVerdict(rels: RelationMap, g: GeometryOracle): Verdict
    requires BelowIsLower(rels)
  {
    (p: PlacedItem, k: nat) => RamosStable(rels, g, p, k)
  }

  /** The items below from position j on all pass: each is stable and so is everything below it. */
  lemma {:induction false} BelowStableMeaning(rels: RelationMap, g: GeometryOracle, p: PlacedItem, s: nat, j: nat)
    requires BelowIsLower(rels) && j <= |ItemsBelow(rels, p)|
    ensures BelowStable(rels, g, p, s, j) == Success(true) <==>
      forall k :: j <= k < |ItemsBelow(rels, p)| ==>
        RamosStable(rels, g, ItemsBelow(rels, p)[k], s) == Success(true) &&
        BelowStable(rels, g, ItemsBelow(rels, p)[k], s, 0) == Success(true)
    decreases |ItemsBelow(rels, p)| - j
  {
    if j < |ItemsBelow(rels, p)| {
      BelowStableMeaning(rels, g, p, s, j + 1);
    }
  }

  /** Passing the test of the items below makes every item reachable downwards stable at the same step. */
  lemma {:induction false} BelowStableReachesDown(rels: RelationMap, g: GeometryOracle, s: nat, path: seq<PlacedItem>)
    requires BelowIsLower(rels) && |path| >= 2 && DownPath(rels, path)
    requires BelowStable(rels, g, path[0], s, 0) == Success(true)
    ensures RamosStable(rels, g, path[|path| - 1], s) == Success(true)
    decreases |path|
  {
    BelowStableMeaning(rels, g, path[0], s, 0);
    var below := ItemsBelow(rels, path[0]);
    assert path[1] in below;
    var k :| 0 <= k < |below| && below[k] == path[1];
    if |path| > 2 {
      assert DownPath(rels, path[1..]);
      BelowStableReachesDown(rels, g, s, path[1..]);
    }
  }

  /**
   * A stable item off the floor has a supported resultant point at that
   * step, and every item reachable downwards from it is stable at the
   * same step.
   */
  lemma RamosStableMeaning(rels: RelationMap, g: GeometryOracle, s: nat, path: seq<PlacedItem>)
    requires BelowIsLower(rels) && |path| >= 1 && DownPath(rels, path) && !IsBottomItem(path[0])
    requires RamosStable(rels, g, path[0], s) == Success(true)
    ensures ResultantPoint(rels, path[0], s).Success? &&
      ContactSupport(path[0], ItemsBelow(rels, path[0]), ResultantPoint(rels, path[0], s).value, g) == Success(true)
    ensures RamosStable(rels, g, path[|path| - 1], s) == Success(true)
  {
    if |path| >= 2 {
      BelowStableReachesDown(rels, g, s, path);
    }
  }

  /**
   * An item off the floor whose contributors' forces sum to zero has no
   * finite resultant point and is never stable.
   */
  lemma ZeroForceIsNeverStable(rels: RelationMap, g: GeometryOracle, p: PlacedItem, s: nat, r: ForcePair)
    requires BelowIsLower(rels) && !IsBottomItem(p)
    requires AddItemForce(p, ForcePair(0.0, 0.0, 0.0)).Success?
    requires FoldOnTop(ItemsOnTop(rels, p), s, AddItemForce(p, ForcePair(0.0, 0.0, 0.0)).value) == Success(r)
    requires r.force == 0.0
    ensures RamosStable(rels, g, p, s) != Success(true)
  {
    NonFiniteIsNeverSupported(p, ItemsBelow(rels, p), g, 0, []);
  }

  /** An item off the floor with nothing below it is not stable, unless its resultant throws first. */
  lemma NothingBelowIsUnstable(rels: RelationMap, g: GeometryOracle, p: PlacedItem, s: nat)
    requires BelowIsLower(rels) && !IsBottomItem(p) && ItemsBelow(rels, p) == []
    ensures ResultantPoint(rels, p, s).Failure? ==> RamosStable(rels, g, p, s) == Failure(ResultantPoint(rels, p, s).error)
    ensures ResultantPoint(rels, p, s).Success? ==> RamosStable(rels, g, p, s) == Success(false)
  {
    if ResultantPoint(rels, p, s).Success? {
      NothingBelowSupportsNothing(p, ResultantPoint(rels, p, s).value, g);
    }
  }

  // ---------------------------------------------------------------------------
  // The methods
  // ---------------------------------------------------------------------------

  /** getResultantForcePointRegardingSequenceStep as the loop over the items on top. */
  method GetResultantForcePointRegardingSequenceStep(rels: RelationMap, item: PlacedItem, sequence: nat)
    returns (r: Result<TestPoint>)
    ensures r == ResultantPoint(rels, item, sequence)
  {
    var resultantPair := AddItemForce(item, ForcePair(0.0, 0.0, 0.0));
    if resultantPair.Failure? {
      return Failure(resultantPair.error);
    }
    ghost var own := resultantPair.value;
    var onTop := ItemsOnTop(rels, item);
    var acc := resultantPair.value;
    var k := 0;
    while k < |onTop|
      invariant k <= |onTop|
      invariant FoldOnTop(onTop[..k], sequence, own) == Success(acc)
    {
      assert onTop[..k + 1][..k] == onTop[..k];
      var itemOnTop := onTop[k];
      if itemOnTop.sequence <= sequence {
        var next := AddItemForce(itemOnTop, acc);
        if next.Failure? {
          FoldFailureStays(onTop, sequence, own, k + 1);
          return Failure(next.error);
        }
        acc := next.value;
      }
      k := k + 1;
    }
    assert onTop[..k] == onTop;
    r := Success(ForcePoint(acc));
  }

  /** Once the fold over a prefix has failed, the fold over the whole list fails in the same way. */
  lemma {:induction false} FoldFailureStays(onTop: seq<PlacedItem>, s: nat, acc: ForcePair, k: nat)
    requires k <= |onTop| && FoldOnTop(onTop[..k], s, acc).Failure?
    ensures FoldOnTop(onTop, s, acc) == FoldOnTop(onTop[..k], s, acc)
    decreases |onTop| - k
  {
    if k < |onTop| {
      assert onTop[..k + 1][..k] == onTop[..k];
      FoldFailureStays(onTop, s, acc, k + 1);
    } else {
      assert onTop[..k] == onTop;
    }
  }

  /**
   * assessUld: 1 for a unit with no items; otherwise the ensure step
   * (which throws on an empty map), then -1 for a non-box item or the
   * share of the stable prefix.
   */
  method AssessUld(uld: ULD, minY: MinYOracle, g: GeometryOracle) returns (r: Result<real>)
    requires uld.Valid() && SoundMinY(minY)
    modifies uld`relations
    ensures uld.Valid() && BelowIsLower(uld.relations)
    ensures uld.placedItemsSorted == [] ==> r == Success(1.0) && uld.relations == old(uld.relations)
    ensures uld.placedItemsSorted != [] && |uld.placedItems| == 0 ==>
      r == Failure(NoSuchElement) && uld.relations == old(uld.relations)
    ensures uld.placedItemsSorted != [] && |uld.placedItems| > 0 ==>
      uld.relations == EnsuredRelations(uld.Values(), old(uld.relations), minY) &&
      r == BoxOnlyScore(uld.placedItemsSorted, RamosVerdict(uld.relations, g))
  {
    LayeredBelowIsLower(uld.relations, uld.top);
    if |uld.placedItemsSorted| == 0 {
      return Success(1.0);
    }
    var e := CalculateULDSupportStructure(uld, minY);
    LayeredBelowIsLower(uld.relations, uld.top);
    if e.Some? {
      return Failure(e.value);
    }
    r := ScoreBoxesByPrefix(uld.placedItemsSorted, RamosVerdict(uld.relations, g));
  }
}
