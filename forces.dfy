/**
 * The values the force-balance assessment passes around: a force (its
 * acting point in the x-z plane and its magnitude), a reaction point (a
 * contact point together with the item below that reacts there) and the
 * force record of one placed item.
 */
module Forces {
  import opened Wrappers
  import opened Points
  import opened PlacedItems

  /** A Pair<Point2D, Double>: the acting point (x, z) and the magnitude. */
  datatype Force = Force(point: Point2D, magnitude: real)

  /** A Pair<Point2D, PlacedItem>: a contact point and the item below that carries it. */
  datatype ReactionPoint = ReactionPoint(point: Point2D, item: PlacedItem)

  /** The reaction forces of one sequence step, grouped by the label of the item they act on. */
  type ReactionForces = map<string, seq<Force>>

  /**
   * ForceItemDTO: the forces of one placed item. The per-sequence maps are
   * keyed by sequence step; the stability array holds, per step, true
   * (stable), false (unstable) or nothing (not placed yet).
   */
  datatype ForceItem = ForceItem(
    placedItem: PlacedItem,
    gravitationForce: Force,
    reactionPoints: seq<ReactionPoint>,
    actionForcesPerSequence: map<int, seq<Force>>,
    resultantForcePerSequence: map<int, Force>,
    reactionForcesPerSequence: map<int, ReactionForces>,
    stabilityPerSequence: seq<Option<bool>>)
}
