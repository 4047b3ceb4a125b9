/** The stability of an item per sequence step: stable exactly at the steps where its reaction forces could be distributed. */
module ItemStabilityAssessor {
  import opened Wrappers
  import opened Forces

  /**
   * The stability row: nothing before the item is placed, then true at
   * the steps that have a distribution and false at the others.
   */
  function StabilityRow(start: nat, max: nat, distributed: set<int>): (row: seq<Option<bool>>)
    ensures |row| == max
  {
    seq(max, i requires 0 <= i < max => if start <= i then Some(i in distributed) else None)
  }

  /** getStabilityFromReactionForcesPerSequence: a new array of length max filled from start on. */
  method GetStabilityFromReactionForcesPerSequence(start: nat, max: nat, reactionForcesPerSequence: map<int, ReactionForces>)
    returns (a: array<Option<bool>>)
    ensures fresh(a) && a.Length == max
    ensures a[..] == StabilityRow(start, max, reactionForcesPerSequence.Keys)
  {
    a := new Option<bool>[max](_ => None);
    var i := start;
    while i < max
      invariant start <= i && (i == start || i <= max)
      invariant forall k :: 0 <= k < max ==> a[k] == (if start <= k < i then Some(k in reactionForcesPerSequence) else None)
    {
      a[i] := Some(i in reactionForcesPerSequence);
      i := i + 1;
    }
  }

  /** The entries: none below start, and from start on true iff the step has a distribution. */
  lemma StabilityRowEntries(start: nat, max: nat, distributed: set<int>, i: nat)
    requires i < max
    ensures i < start ==> StabilityRow(start, max, distributed)[i] == None
    ensures start <= i ==> (StabilityRow(start, max, distributed)[i] == Some(true) <==> i in distributed)
    ensures start <= i ==> (StabilityRow(start, max, distributed)[i] == Some(false) <==> i !in distributed)
  {
  }

  /** Steps outside [start, max) have no effect on the row. */
  lemma OnlyStepsInRangeMatter(start: nat, max: nat, d1: set<int>, d2: set<int>)
    requires forall s :: start <= s < max ==> (s in d1 <==> s in d2)
    ensures StabilityRow(start, max, d1) == StabilityRow(start, max, d2)
  {
  }
}
