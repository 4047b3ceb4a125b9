/**
 * Gathering the action forces on an item: at every sequence step, the
 * reaction forces that the items on top of it hand down onto it.
 */
module ActionForceGatherer {
  import opened Forces

  /**
   * getReactionForceForItemAndSequence: the forces the upper item exerts
   * on the item with this label at this step, or none when the upper item
   * has no distribution at that step or none onto that item.
   */
  function ReactionForceFor(upper: ForceItem, itemLabel: string, s: int): (r: seq<Force>)
    ensures s in upper.reactionForcesPerSequence && itemLabel in upper.reactionForcesPerSequence[s] ==>
      r == upper.reactionForcesPerSequence[s][itemLabel]
    ensures !(s in upper.reactionForcesPerSequence && itemLabel in upper.reactionForcesPerSequence[s]) ==> r == []
  {
    if s in upper.reactionForcesPerSequence then
      if itemLabel in upper.reactionForcesPerSequence[s] then upper.reactionForcesPerSequence[s][itemLabel]
      else []
    else []
  }

  /** The forces the upper items exert at step s, concatenated in the order of the upper items. */
  function GatheredAt(onTop: seq<ForceItem>, itemLabel: string, s: int): seq<Force> {
    if onTop == [] then []
    else GatheredAt(onTop[..|onTop| - 1], itemLabel, s) + ReactionForceFor(onTop[|onTop| - 1], itemLabel, s)
  }

  /** The action forces per step: nothing without upper items, otherwise a list for every step in [start, max). */
  function ActionForces(itemLabel: string, start: int, onTop: seq<ForceItem>, max: int): map<int, seq<Force>> {
    if onTop == [] then map[]
    else map s | start <= s < max :: GatheredAt(onTop, itemLabel, s)
  }

  /** gatherRelatedActionForcesFromTopItems, with its loop over the steps and its loop over the upper items. */
  method GatherRelatedActionForcesFromTopItems(itemLabel: string, start: int, onTop: seq<ForceItem>, max: int)
    returns (m: map<int, seq<Force>>)
    ensures m == ActionForces(itemLabel, start, onTop, max)
  {
    if |onTop| == 0 {
      return map[];
    }
    m := map[];
    var s := start;
    while s < max
      invariant start <= s && (s == start || s <= max)
      invariant m == map t | start <= t < s :: GatheredAt(onTop, itemLabel, t)
    {
      var actionForces: seq<Force> := [];
      for k := 0 to |onTop|
        invariant actionForces == GatheredAt(onTop[..k], itemLabel, s)
      {
        assert onTop[..k + 1][..k] == onTop[..k];
        actionForces := actionForces + ReactionForceFor(onTop[k], itemLabel, s);
      }
      assert onTop[..|onTop|] == onTop;
      m := m[s := actionForces];
      s := s + 1;
    }
  }

  /** Without upper items the map is empty; otherwise its keys are exactly the steps in [start, max). */
  lemma ActionForcesKeys(itemLabel: string, start: int, onTop: seq<ForceItem>, max: int)
    ensures onTop == [] ==> ActionForces(itemLabel, start, onTop, max) == map[]
    ensures onTop != [] ==> forall s :: s in ActionForces(itemLabel, start, onTop, max) <==> start <= s < max
  {
  }

  /**
   * A force is gathered at step s exactly when some upper item exerts it
   * onto the item at that step; upper items that have no entry for the
   * step or for the label contribute nothing.
   */
  lemma {:induction false} GatheredFromUpperItems(onTop: seq<ForceItem>, itemLabel: string, s: int, f: Force)
    ensures f in GatheredAt(onTop, itemLabel, s) <==>
      exists k :: 0 <= k < |onTop| && f in ReactionForceFor(onTop[k], itemLabel, s)
  {
    if onTop != [] {
      var init := onTop[..|onTop| - 1];
      GatheredFromUpperItems(init, itemLabel, s, f);
      if f in GatheredAt(onTop, itemLabel, s) {
        if f in GatheredAt(init, itemLabel, s) {
          var k :| 0 <= k < |init| && f in ReactionForceFor(init[k], itemLabel, s);
          assert onTop[k] == init[k];
        }
      } else {
        forall k | 0 <= k < |onTop| ensures f !in ReactionForceFor(onTop[k], itemLabel, s) {
          if k < |init| {
            assert onTop[k] == init[k];
          }
        }
      }
    }
  }

  /** The number of gathered forces is the sum of what each upper item contributes. */
  lemma {:induction false} GatheredLength(onTop: seq<ForceItem>, itemLabel: string, s: int)
    ensures |GatheredAt(onTop, itemLabel, s)| == ContributionCount(onTop, itemLabel, s)
  {
    if onTop != [] {
      GatheredLength(onTop[..|onTop| - 1], itemLabel, s);
    }
  }

  function ContributionCount(onTop: seq<ForceItem>, itemLabel: string, s: int): nat {
    if onTop == [] then 0
    else ContributionCount(onTop[..|onTop| - 1], itemLabel, s) + |ReactionForceFor(onTop[|onTop| - 1], itemLabel, s)|
  }

  /** A force item whose reaction forces exist only from its own placement step on. */
  predicate StartsAtOwnSequence(upper: ForceItem) {
    forall t :: t in upper.reactionForcesPerSequence ==> upper.placedItem.sequence <= t
  }

  /**
   * When every upper item has reaction forces only from its own step on,
   * as the reaction-force calculation produces them, anything gathered at
   * step s comes from an upper item placed at or before s.
   */
  lemma ContributorsArePlacedBefore(onTop: seq<ForceItem>, itemLabel: string, s: int, f: Force)
    requires forall k :: 0 <= k < |onTop| ==> StartsAtOwnSequence(onTop[k])
    requires f in GatheredAt(onTop, itemLabel, s)
    ensures exists k :: 0 <= k < |onTop| && onTop[k].placedItem.sequence <= s && f in ReactionForceFor(onTop[k], itemLabel, s)
  {
    GatheredFromUpperItems(onTop, itemLabel, s, f);
    var k :| 0 <= k < |onTop| && f in ReactionForceFor(onTop[k], itemLabel, s);
    assert s in onTop[k].reactionForcesPerSequence;
  }
}
