/**
 * The force record of one placed item, computed in the fixed order of the
 * pipeline: the centre of mass is validated, gravitation is taken at the
 * absolute centre of mass, the forces the items on top hand down are
 * gathered per step and combined into resultants, the contact points with
 * the items below are collected, the resultants are distributed onto them
 * and the steps with a distribution are the stable ones.
 */
module ForceItemCalculation {
  import opened Wrappers
  import opened Points
  import opened Shapes
  import opened PlacedItems
  import opened Forces
  import opened RequirementCheck
  import opened GravitationForceCalculator
  import opened ActionForceGatherer
  import opened ResultantForceCalculator
  import opened ReactionPointCalculator
  import opened ReactionForceCalculator
  import opened ItemStabilityAssessor

  /** The centre-of-mass check of createForceItem, against the shape's integer extents. */
  function ComCheck(p: PlacedItem): Result<()> {
    AssertComIsCorrect(p.itemLabel, Width(p.shape), Height(p.shape), Depth(p.shape), p.centerOfMass)
  }

  /** The gravitation force of an item, at its absolute centre of mass. */
  function GravitationOf(p: PlacedItem): Force {
    CalculateGravitationForce(AbsoluteCenterOfMass(p), p.weight)
  }

  /**
   * createForceItem: every per-step quantity spans [p.sequence, maxSequence);
   * the reaction points come from the items below p as the relations record
   * them, and the record keeps them in the order the last step sorted them.
   */
  function CreateForceItem(p: PlacedItem, onTop: seq<ForceItem>, maxSequence: nat, rels: RelationMap, g: GeometryOracle)
    : Result<ForceItem>
  {
    match ComCheck(p)
    case Failure(e) => Failure(e)
    case Success(_) =>
      var gravitation := GravitationOf(p);
      var actions := ActionForces(p.itemLabel, p.sequence, onTop, maxSequence);
      var resultants := ResultantsFor(p.sequence, maxSequence, gravitation, actions);
      match ReactionPoints(p, ItemsBelow(rels, p), g)
      case Failure(e) => Failure(e)
      case Success(pts) =>
        ResultantsForKeys(p.sequence, maxSequence, gravitation, actions);
        var (order, distributed) := ReactionForcesPerSequence(p.sequence, maxSequence, pts, resultants);
        match distributed
        case Failure(e) => Failure(e)
        case Success(forces) =>
          Success(ForceItem(p, gravitation, order, actions, resultants, forces,
                            StabilityRow(p.sequence, maxSequence, forces.Keys)))
  }

  /**
   * The centre of mass is validated before any force is computed: an
   * invalid one makes creation fail with an IllegalArgumentException,
   * whatever the rest of the item.
   */
  lemma ComCheckComesFirst(p: PlacedItem, onTop: seq<ForceItem>, maxSequence: nat, rels: RelationMap, g: GeometryOracle)
    requires ComCheck(p).Failure?
    ensures CreateForceItem(p, onTop, maxSequence, rels, g) == Failure(IllegalArgument)
  {
  }

  /**
   * Creation fails only with an IllegalArgumentException (the centre of mass
   * or a triple system too small to solve) or a TopologyException (an
   * invalid base while collecting contact points, which needs an item below).
   */
  lemma CreationFailures(p: PlacedItem, onTop: seq<ForceItem>, maxSequence: nat, rels: RelationMap, g: GeometryOracle)
    ensures var r := CreateForceItem(p, onTop, maxSequence, rels, g);
      r.Failure? ==>
        (r.error == IllegalArgument && (ComCheck(p).Failure? || ItemsBelow(rels, p) != [])) ||
        (r.error == Topology && ComCheck(p).Success? && ItemsBelow(rels, p) != [] && !BaseIsValid(p, g))
  {
    var r := CreateForceItem(p, onTop, maxSequence, rels, g);
    var below := ItemsBelow(rels, p);
    var rp := ReactionPoints(p, below, g);
    ReactionPointsFailIff(p, below, g);
    if ComCheck(p).Success? {
      var gravitation := GravitationOf(p);
      var actions := ActionForces(p.itemLabel, p.sequence, onTop, maxSequence);
      var resultants := ResultantsFor(p.sequence, maxSequence, gravitation, actions);
      if rp.Success? {
        ResultantsForKeys(p.sequence, maxSequence, gravitation, actions);
        var distributed := ReactionForcesPerSequence(p.sequence, maxSequence, rp.value, resultants).1;
        ReactionForcesPerSequenceDistribute(p.sequence, maxSequence, rp.value, resultants);
        assert r.Failure? ==> distributed.Failure? && r.error == distributed.error;
        if below == [] {
          NothingBelowMeansNoReactionPoints(p, g);
        }
      } else {
        assert r == Failure(rp.error);
      }
    }
  }

  /**
   * The record holds exactly this item's data: its gravitation, a resultant
   * for every step of [sequence, maxSequence), reaction forces only for
   * steps in that range, a stability row of length maxSequence that is empty
   * before the item is placed and true exactly at the steps with a
   * distribution, and a reordering of the contact points with the items below.
   */
  lemma CreatedItemSpansItsSteps(p: PlacedItem, onTop: seq<ForceItem>, maxSequence: nat, rels: RelationMap, g: GeometryOracle)
    requires CreateForceItem(p, onTop, maxSequence, rels, g).Success?
    ensures var f := CreateForceItem(p, onTop, maxSequence, rels, g).value;
      ReactionPoints(p, ItemsBelow(rels, p), g).Success? &&
      f.placedItem == p && f.gravitationForce == GravitationOf(p) &&
      f.actionForcesPerSequence == ActionForces(p.itemLabel, p.sequence, onTop, maxSequence) &&
      (forall s :: s in f.resultantForcePerSequence <==> p.sequence <= s < maxSequence) &&
      (forall s :: s in f.reactionForcesPerSequence ==> p.sequence <= s < maxSequence) &&
      multiset(f.reactionPoints) == multiset(ReactionPoints(p, ItemsBelow(rels, p), g).value) &&
      |f.stabilityPerSequence| == maxSequence &&
      (forall s :: 0 <= s < maxSequence ==>
        (s < p.sequence ==> f.stabilityPerSequence[s] == None) &&
        (p.sequence <= s ==> f.stabilityPerSequence[s] == Some(s in f.reactionForcesPerSequence)))
  {
    var gravitation := GravitationOf(p);
    var actions := ActionForces(p.itemLabel, p.sequence, onTop, maxSequence);
    var resultants := ResultantsFor(p.sequence, maxSequence, gravitation, actions);
    var pts := ReactionPoints(p, ItemsBelow(rels, p), g).value;
    ResultantsForKeys(p.sequence, maxSequence, gravitation, actions);
    ReactionForcesPerSequenceDistribute(p.sequence, maxSequence, pts, resultants);
  }

  /** An item with nothing below it is never stable from its own step on: no point can carry its resultant. */
  lemma NothingBelowIsUnstable(p: PlacedItem, onTop: seq<ForceItem>, maxSequence: nat, rels: RelationMap, g: GeometryOracle)
    requires ItemsBelow(rels, p) == [] && CreateForceItem(p, onTop, maxSequence, rels, g).Success?
    ensures var f := CreateForceItem(p, onTop, maxSequence, rels, g).value;
      f.reactionPoints == [] && f.reactionForcesPerSequence == map[] &&
      forall s :: p.sequence <= s < maxSequence ==> f.stabilityPerSequence[s] == Some(false)
  {
    var gravitation := GravitationOf(p);
    var actions := ActionForces(p.itemLabel, p.sequence, onTop, maxSequence);
    var resultants := ResultantsFor(p.sequence, maxSequence, gravitation, actions);
    NothingBelowMeansNoReactionPoints(p, g);
    ResultantsForKeys(p.sequence, maxSequence, gravitation, actions);
    ReactionForcesPerSequenceDistribute(p.sequence, maxSequence, [], resultants);
  }
}
