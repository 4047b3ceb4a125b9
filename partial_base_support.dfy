/**
 * The partial base support criterion: the full base support scan with a
 * threshold alpha of the criterion's own in place of full support.
 */
module PartialBaseSupport {
  import opened Wrappers
  import opened Shapes
  import opened PlacedItems
  import opened ULDs
  import opened FullBaseSupport

  /** The kinds of the two base support criteria. */
  datatype AssessmentCriterionType = FULL_BASE_SUPPORT | PARTIAL_BASE_SUPPORT

  /**
   * The criterion's state: the weight, the threshold the inherited scan
   * uses, and alpha.
   */
  datatype PartialBaseSupportCriterion = PartialBaseSupportCriterion(weight: real, minBaseSupportFactor: real, alpha: real)

  /** What the constructor establishes: the scan's threshold is alpha. */
  predicate ThresholdIsAlpha(c: PartialBaseSupportCriterion) {
    c.minBaseSupportFactor == c.alpha
  }

  /** The constructor: the weight and alpha as given, and alpha as the threshold of the scan. */
  function NewPartialBaseSupport(weight: real, alpha: real): (c: PartialBaseSupportCriterion)
    ensures c.weight == weight && c.alpha == alpha
    ensures ThresholdIsAlpha(c)
  {
    var full := NewFullBaseSupport(weight);
    PartialBaseSupportCriterion(full.weight, alpha, alpha)
  }

  /** The inherited part of the criterion. */
  function AsFull(c: PartialBaseSupportCriterion): FullBaseSupportCriterion {
    FullBaseSupportCriterion(c.weight, c.minBaseSupportFactor)
  }

  /** copy: a new criterion with the same weight and alpha; of a constructed criterion it is an equal one. */
  function Copy(c: PartialBaseSupportCriterion): (d: PartialBaseSupportCriterion)
    ensures d.weight == c.weight && GetAlpha(d) == GetAlpha(c) && ThresholdIsAlpha(d)
    ensures ThresholdIsAlpha(c) ==> d == c
  {
    NewPartialBaseSupport(c.weight, c.alpha)
  }

  /** getType: the criterion reports its own kind, not the kind of the criterion it extends. */
  function GetType(c: PartialBaseSupportCriterion): (t: AssessmentCriterionType)
    ensures t == PARTIAL_BASE_SUPPORT && t != FULL_BASE_SUPPORT
  {
    PARTIAL_BASE_SUPPORT
  }

  function GetAlpha(c: PartialBaseSupportCriterion): real {
    c.alpha
  }

  /** assessUld, inherited: the ensure step, then the threshold scan against alpha. */
  method AssessUld(c: PartialBaseSupportCriterion, uld: ULD, minY: MinYOracle, g: GeometryOracle) returns (r: Result<real>)
    requires ThresholdIsAlpha(c)
    requires uld.Valid() && SoundMinY(minY)
    modifies uld`relations
    ensures uld.Valid()
    ensures uld.relations == EnsuredRelations(uld.Values(), old(uld.relations), minY)
    ensures r == ThresholdScore(uld.placedItemsSorted, uld.relations, g, GetAlpha(c))
  {
    r := FullBaseSupport.AssessUld(AsFull(c), uld, minY, g);
  }

  /**
   * A criterion with alpha at most 1 is more lenient than full base
   * support: items that all pass the full scan all pass the partial one.
   */
  lemma FullSupportImpliesPartialSupport(c: PartialBaseSupportCriterion, items: seq<PlacedItem>, rels: RelationMap,
                                         g: GeometryOracle)
    requires ThresholdIsAlpha(c) && GetAlpha(c) <= 1.0
    requires FirstFailingFrom(items, rels, g, NewFullBaseSupport(c.weight).minBaseSupportFactor, 0) == Success(None)
    ensures FirstFailingFrom(items, rels, g, AsFull(c).minBaseSupportFactor, 0) == Success(None)
    ensures ThresholdScore(items, rels, g, GetAlpha(c)) == Success(1.0)
  {
    CleanScanAtLowerThreshold(items, rels, g, c.alpha, 1.0, 0);
  }
}
