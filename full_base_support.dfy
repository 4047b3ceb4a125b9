/**
 * The full base support criterion: the items of a unit are scanned in
 * sequence order, and the first item whose base support factor falls
 * below the threshold (beyond a small tolerance) ends the scan with its
 * sequence number as a share of the item count. The support structure of
 * the unit is computed first if it has not been computed yet.
 */
module FullBaseSupport {
  import opened Numerics
  import opened Wrappers
  import opened Shapes
  import opened PlacedItems
  import opened ULDs
  import opened StablePrefixes

  /** The tolerance around the threshold within which a factor still passes. */
  const EPSILON: real := 0.001

  datatype FullBaseSupportCriterion = FullBaseSupportCriterion(weight: real, minBaseSupportFactor: real)

  /** The public constructor: full support (a factor of 1) is demanded. */
  function NewFullBaseSupport(weight: real): (c: FullBaseSupportCriterion)
    ensures c.weight == weight && c.minBaseSupportFactor == 1.0
  {
    FullBaseSupportCriterion(weight, 1.0)
  }

  // ---------------------------------------------------------------------------
  // The ensure step
  // ---------------------------------------------------------------------------

  /** The support pass of the unit over its values in map order. */
  function SupportPassOf(vs: seq<PlacedItem>, m: RelationMap, minY: MinYOracle): RelationMap {
    ApplyPairs(SupportStep(minY), m, vs, LoopPairs(OuterRuns(|vs|), |vs|))
  }

  /**
   * The relations after assureULDSupportStructureHasBeenCalculated, given
   * the unit's values in map order: nothing happens on an empty unit, and
   * the support pass runs only when the first value has no item below and
   * none on top.
   */
  function EnsuredRelations(vs: seq<PlacedItem>, m: RelationMap, minY: MinYOracle): RelationMap {
    if |vs| == 0 then m
    else if ItemsBelow(m, vs[0]) == [] && ItemsOnTop(m, vs[0]) == [] then SupportPassOf(vs, m, minY)
    else m
  }

  /**
   * assureULDSupportStructureHasBeenCalculated: the relations of the unit
   * become EnsuredRelations of its values, and the support graph stays
   * layered.
   */
  method AssureULDSupportStructureHasBeenCalculated(uld: ULD, minY: MinYOracle)
    requires uld.Valid() && SoundMinY(minY)
    modifies uld`relations
    ensures uld.Valid()
    ensures uld.relations == EnsuredRelations(uld.Values(), old(uld.relations), minY)
  {
    if |uld.placedItems| == 0 {
      return;
    }
    var testItem := uld.placedItems[uld.keyOrder[0]];
    if ItemsBelow(uld.relations, testItem) == [] && ItemsOnTop(uld.relations, testItem) == [] {
      uld.CalculateItemSupportStructure(minY);
    }
  }

  /** With relations already recorded for the first value, or on an empty unit, the ensure step changes nothing. */
  lemma EnsureSkipsRecordedStructure(vs: seq<PlacedItem>, m: RelationMap, minY: MinYOracle)
    requires vs == [] || (vs[0] in m && (m[vs[0]].below != [] || m[vs[0]].onTop != []))
    ensures EnsuredRelations(vs, m, minY) == m
  {
  }

  /**
   * The private copies of the ensure step in the other box-only criteria
   * take the first value of the map without looking at its size: on an
   * empty map that throws NoSuchElementException.
   */
  method CalculateULDSupportStructure(uld: ULD, minY: MinYOracle) returns (e: Option<Exception>)
    requires uld.Valid() && SoundMinY(minY)
    modifies uld`relations
    ensures uld.Valid()
    ensures e.Some? <==> |uld.placedItems| == 0
    ensures e.Some? ==> e.value == NoSuchElement && uld.relations == old(uld.relations)
    ensures e.None? ==> uld.relations == EnsuredRelations(uld.Values(), old(uld.relations), minY)
  {
    if |uld.placedItems| == 0 {
      return Some(NoSuchElement);
    }
    var item := uld.placedItems[uld.keyOrder[0]];
    if ItemsBelow(uld.relations, item) == [] && ItemsOnTop(uld.relations, item) == [] {
      uld.CalculateItemSupportStructure(minY);
    }
    e := None;
  }

  // ---------------------------------------------------------------------------
  // The threshold scan
  // ---------------------------------------------------------------------------

  /** A factor passes the threshold when it lies within EPSILON of it or is not below it. */
  predicate Passes(f: Quotient, min: real) {
    Within(f, min, EPSILON) || !LessThan(f, min)
  }

  /**
   * The pass rule as one bound: a finite factor passes exactly when it is
   * at least the threshold minus EPSILON; NaN and +Infinity always pass
   * (no double comparison with NaN holds), -Infinity never does.
   */
  lemma PassesIff(f: Quotient, min: real)
    ensures Passes(f, min) <==> f.NaN? || f.PositiveInfinity? || (f.Finite? && f.value >= min - EPSILON)
  {
  }

  /** Lowering the threshold lets every factor through that passed before. */
  lemma LowerThresholdPasses(f: Quotient, lo: real, hi: real)
    requires lo <= hi && Passes(f, hi)
    ensures Passes(f, lo)
  {
    PassesIff(f, lo);
    PassesIff(f, hi);
  }

  /** The item at position j has a factor, and it passes. */
  predicate PassesAt(items: seq<PlacedItem>, rels: RelationMap, g: GeometryOracle, min: real, j: nat)
    requires j < |items|
  {
    BaseSupportFactorOf(items[j], rels, g).Success? && Passes(BaseSupportFactorOf(items[j], rels, g).value, min)
  }

  /**
   * The scan from position k: the position of the first item whose factor
   * does not pass, none when all pass; the exception of a factor that
   * cannot be computed ends the scan.
   */
  function FirstFailingFrom(items: seq<PlacedItem>, rels: RelationMap, g: GeometryOracle, min: real, k: nat)
    : (r: Result<Option<nat>>)
    requires k <= |items|
    ensures r.Success? && r.value.Some? ==> k <= r.value.value < |items|
    decreases |items| - k
  {
    if k == |items| then Success(None)
    else
      match BaseSupportFactorOf(items[k], rels, g)
      case Failure(e) => Failure(e)
      case Success(f) =>
        if Within(f, min, EPSILON) then FirstFailingFrom(items, rels, g, min, k + 1)
        else if LessThan(f, min) then Success(Some(k))
        else FirstFailingFrom(items, rels, g, min, k + 1)
  }

  /**
   * What the scan finds: no position exactly when every item from k on
   * passes; a position c when the items in [k, c) pass and the item at c
   * has a factor that does not; an exception when the items before some
   * position pass and that position's factor throws it.
   */
  lemma {:induction false} FirstFailingFromMeaning(items: seq<PlacedItem>, rels: RelationMap, g: GeometryOracle,
                                                  min: real, k: nat)
    requires k <= |items|
    ensures FirstFailingFrom(items, rels, g, min, k) == Success(None) <==>
      forall j :: k <= j < |items| ==> PassesAt(items, rels, g, min, j)
    ensures FirstFailingFrom(items, rels, g, min, k).Success? && FirstFailingFrom(items, rels, g, min, k).value.Some? ==>
      var c := FirstFailingFrom(items, rels, g, min, k).value.value;
      (forall j :: k <= j < c ==> PassesAt(items, rels, g, min, j)) &&
      BaseSupportFactorOf(items[c], rels, g).Success? && !Passes(BaseSupportFactorOf(items[c], rels, g).value, min)
    ensures FirstFailingFrom(items, rels, g, min, k).Failure? ==>
      exists j :: k <= j < |items| && (forall i :: k <= i < j ==> PassesAt(items, rels, g, min, i)) &&
        BaseSupportFactorOf(items[j], rels, g) == Failure(FirstFailingFrom(items, rels, g, min, k).error)
    decreases |items| - k
  {
    if k < |items| {
      FirstFailingFromMeaning(items, rels, g, min, k + 1);
      var r := FirstFailingFrom(items, rels, g, min, k);
      if PassesAt(items, rels, g, min, k) {
        if r.Failure? {
          var j :| k + 1 <= j < |items| && (forall i :: k + 1 <= i < j ==> PassesAt(items, rels, g, min, i)) &&
            BaseSupportFactorOf(items[j], rels, g) == Failure(r.error);
          assert forall i :: k <= i < j ==> PassesAt(items, rels, g, min, i);
        }
      }
    }
  }

  /** Whatever fails at a lower threshold from k on already fails at a higher one: a scan clean at hi is clean at lo. */
  lemma {:induction false} CleanScanAtLowerThreshold(items: seq<PlacedItem>, rels: RelationMap, g: GeometryOracle,
                                                    lo: real, hi: real, k: nat)
    requires k <= |items| && lo <= hi
    requires FirstFailingFrom(items, rels, g, hi, k) == Success(None)
    ensures FirstFailingFrom(items, rels, g, lo, k) == Success(None)
    decreases |items| - k
  {
    if k < |items| {
      FirstFailingFromMeaning(items, rels, g, hi, k);
      assert PassesAt(items, rels, g, hi, k);
      LowerThresholdPasses(BaseSupportFactorOf(items[k], rels, g).value, lo, hi);
      FirstFailingFromMeaning(items, rels, g, hi, k + 1);
      CleanScanAtLowerThreshold(items, rels, g, lo, hi, k + 1);
    }
  }

  /**
   * The score of the scan over the sorted items: 1 for no items or when
   * every item passes, otherwise the first failing item's sequence number
   * divided by the number of items.
   */
  function ThresholdScore(items: seq<PlacedItem>, rels: RelationMap, g: GeometryOracle, min: real): Result<real> {
    if |items| == 0 then Success(1.0)
    else
      match FirstFailingFrom(items, rels, g, min, 0)
      case Failure(e) => Failure(e)
      case Success(None) => Success(1.0)
      case Success(Some(c)) => Success(items[c].sequence as real / |items| as real)
  }

  /** The pass rule as a stability test of the shared prefix walk. */
  function SupportVerdict(rels: RelationMap, g: GeometryOracle, min: real): Verdict {
    (p: PlacedItem, k: nat) =>
      match BaseSupportFactorOf(p, rels, g)
      case Failure(e) => Failure(e)
      case Success(f) => Success(Passes(f, min))
  }

  /** The scan and the prefix walk with the pass rule meet the same item first. */
  lemma {:induction false} FirstFailingIsPrefix(items: seq<PlacedItem>, rels: RelationMap, g: GeometryOracle, min: real, k: nat)
    requires k <= |items|
    ensures PrefixFrom(items, SupportVerdict(rels, g, min), k) ==
      match FirstFailingFrom(items, rels, g, min, k)
      case Failure(e) => Failure(e)
      case Success(None) => Success(|items|)
      case Success(Some(c)) => Success(c)
    decreases |items| - k
  {
    if k < |items| {
      FirstFailingIsPrefix(items, rels, g, min, k + 1);
    }
  }

  /**
   * When the sequence numbers of the sorted items are their positions,
   * the scan scores exactly the stable prefix of the pass rule as a share
   * of the items, as the other heuristic criteria do.
   */
  lemma ThresholdScoreIsPrefixScore(items: seq<PlacedItem>, rels: RelationMap, g: GeometryOracle, min: real)
    requires |items| > 0
    requires forall j :: 0 <= j < |items| ==> items[j].sequence == j
    ensures ThresholdScore(items, rels, g, min) == PrefixScore(items, SupportVerdict(rels, g, min))
  {
    FirstFailingIsPrefix(items, rels, g, min, 0);
    var n := |items| as real;
    match FirstFailingFrom(items, rels, g, min, 0)
    case Failure(_) =>
    case Success(None) =>
      assert n / n == 1.0;
    case Success(Some(c)) =>
      assert items[c].sequence == c;
  }

  /**
   * The threshold scan of assessUld over the sorted items, the factor of
   * each item computed by getBaseSupportFactor.
   */
  method ScanSorted(items: seq<PlacedItem>, rels: RelationMap, g: GeometryOracle, min: real) returns (r: Result<real>)
    ensures r == ThresholdScore(items, rels, g, min)
  {
    var nItems := |items|;
    if nItems == 0 {
      return Success(1.0);
    }
    var k := 0;
    while k < nItems
      invariant k <= nItems
      invariant FirstFailingFrom(items, rels, g, min, 0) == FirstFailingFrom(items, rels, g, min, k)
    {
      var item := items[k];
      var baseSupportFactor := GetBaseSupportFactor(item, rels, g);
      if baseSupportFactor.Failure? {
        return Failure(baseSupportFactor.error);
      }
      if !Within(baseSupportFactor.value, min, EPSILON) && LessThan(baseSupportFactor.value, min) {
        return Success(item.sequence as real / nItems as real);
      }
      k := k + 1;
    }
    return Success(1.0);
  }

  /**
   * assessUld: the ensure step, then the threshold scan over the sorted
   * items with the relations it leaves.
   */
  method AssessUld(c: FullBaseSupportCriterion, uld: ULD, minY: MinYOracle, g: GeometryOracle) returns (r: Result<real>)
    requires uld.Valid() && SoundMinY(minY)
    modifies uld`relations
    ensures uld.Valid()
    ensures uld.relations == EnsuredRelations(uld.Values(), old(uld.relations), minY)
    ensures r == ThresholdScore(uld.placedItemsSorted, uld.relations, g, c.minBaseSupportFactor)
  {
    AssureULDSupportStructureHasBeenCalculated(uld, minY);
    r := ScanSorted(uld.placedItemsSorted, uld.relations, g, c.minBaseSupportFactor);
  }
}
