/**
 * The reaction points of an item: the contact points of its base with
 * the top of every item directly below it, each tagged with the item
 * below that reacts there.
 */
module ReactionPointCalculator {
  import opened Wrappers
  import opened Points
  import opened Shapes
  import opened PlacedItems
  import opened Forces

  /** The contact points, each paired with the item below. */
  function Tag(contacts: seq<Point2D>, below: PlacedItem): (r: seq<ReactionPoint>)
    ensures |r| == |contacts|
    ensures forall i :: 0 <= i < |r| ==> r[i] == ReactionPoint(contacts[i], below)
  {
    seq(|contacts|, i requires 0 <= i < |contacts| => ReactionPoint(contacts[i], below))
  }

  /** The contact query of getReactionPointsWithOtherItem: the item's shape at its position against the item below at its own. */
  function Contacts(item: PlacedItem, below: PlacedItem, g: GeometryOracle): Result<seq<Point2D>> {
    ContactPointsWithBottomShape(item.shape, below.shape, Position(item), Position(below), g)
  }

  /** Whether the item's base, placed at its (x, z), is a valid geometry; the contact query throws when it is not. */
  predicate BaseIsValid(item: PlacedItem, g: GeometryOracle) {
    g.baseValid(item.shape, Point2D(Position(item).x, Position(item).z))
  }

  /** The reaction points with the items below, in the order of the items below; the first failing query ends it. */
  function ReactionPoints(item: PlacedItem, itemsBelow: seq<PlacedItem>, g: GeometryOracle): Result<seq<ReactionPoint>> {
    if itemsBelow == [] then Success([])
    else
      match ReactionPoints(item, itemsBelow[..|itemsBelow| - 1], g)
      case Failure(e) => Failure(e)
      case Success(ps) =>
        match Contacts(item, itemsBelow[|itemsBelow| - 1], g)
        case Failure(e) => Failure(e)
        case Success(cs) => Success(ps + Tag(cs, itemsBelow[|itemsBelow| - 1]))
  }

  /** calculateReactionPoints with getReactionPointsWithOtherItem inlined: one loop per item below, one per contact point. */
  method CalculateReactionPoints(item: PlacedItem, itemsBelow: seq<PlacedItem>, g: GeometryOracle)
    returns (r: Result<seq<ReactionPoint>>)
    ensures r == ReactionPoints(item, itemsBelow, g)
  {
    var acc: seq<ReactionPoint> := [];
    for k := 0 to |itemsBelow|
      invariant ReactionPoints(item, itemsBelow[..k], g) == Success(acc)
    {
      assert itemsBelow[..k + 1][..k] == itemsBelow[..k];
      var below := itemsBelow[k];
      var contacts := ContactPointsWithBottomShape(item.shape, below.shape, Position(item), Position(below), g);
      if contacts.Failure? {
        ReactionPointsFailIff(item, itemsBelow, g);
        return Failure(contacts.error);
      }
      var local: seq<ReactionPoint> := [];
      for j := 0 to |contacts.value|
        invariant local == Tag(contacts.value[..j], below)
      {
        local := local + [ReactionPoint(contacts.value[j], below)];
      }
      assert contacts.value[..|contacts.value|] == contacts.value;
      acc := acc + local;
    }
    assert itemsBelow[..|itemsBelow|] == itemsBelow;
    r := Success(acc);
  }

  /** The computation fails, with a TopologyException, exactly when there is an item below and the item's base is invalid. */
  lemma {:induction false} ReactionPointsFailIff(item: PlacedItem, itemsBelow: seq<PlacedItem>, g: GeometryOracle)
    ensures ReactionPoints(item, itemsBelow, g).Failure? <==> itemsBelow != [] && !BaseIsValid(item, g)
    ensures ReactionPoints(item, itemsBelow, g).Failure? ==> ReactionPoints(item, itemsBelow, g).error == Topology
  {
    if itemsBelow != [] {
      ReactionPointsFailIff(item, itemsBelow[..|itemsBelow| - 1], g);
    }
  }

  /**
   * On success, a reaction point is listed exactly when it is a contact
   * point with one of the items below, tagged with that item.
   */
  lemma {:induction false} ReactionPointsAreTaggedContacts(item: PlacedItem, itemsBelow: seq<PlacedItem>, g: GeometryOracle,
                                                          rp: ReactionPoint)
    requires ReactionPoints(item, itemsBelow, g).Success?
    ensures rp in ReactionPoints(item, itemsBelow, g).value <==>
      exists k :: 0 <= k < |itemsBelow| && rp.item == itemsBelow[k] &&
        Contacts(item, itemsBelow[k], g).Success? && rp.point in Contacts(item, itemsBelow[k], g).value
  {
    if itemsBelow != [] {
      var init := itemsBelow[..|itemsBelow| - 1];
      var last := itemsBelow[|itemsBelow| - 1];
      ReactionPointsAreTaggedContacts(item, init, g, rp);
      var cs := Contacts(item, last, g).value;
      var tagged := Tag(cs, last);
      assert rp in tagged <==> rp.item == last && rp.point in cs by {
        if rp in tagged {
          var i :| 0 <= i < |tagged| && tagged[i] == rp;
          assert rp.point == cs[i];
        }
        if rp.item == last && rp.point in cs {
          var i :| 0 <= i < |cs| && cs[i] == rp.point;
          assert tagged[i] == rp;
        }
      }
      if rp in ReactionPoints(item, itemsBelow, g).value {
        if rp in ReactionPoints(item, init, g).value {
          var k :| 0 <= k < |init| && rp.item == init[k] &&
            Contacts(item, init[k], g).Success? && rp.point in Contacts(item, init[k], g).value;
          assert itemsBelow[k] == init[k];
        } else {
          assert rp in tagged;
          assert itemsBelow[|itemsBelow| - 1] == last;
        }
      } else {
        forall k | 0 <= k < |itemsBelow| && rp.item == itemsBelow[k] && Contacts(item, itemsBelow[k], g).Success?
          ensures rp.point !in Contacts(item, itemsBelow[k], g).value
        {
          if k < |init| {
            assert itemsBelow[k] == init[k];
          }
        }
      }
    }
  }

  /** An item with nothing below it has no reaction points. */
  lemma NothingBelowMeansNoReactionPoints(item: PlacedItem, g: GeometryOracle)
    ensures ReactionPoints(item, [], g) == Success([])
  {
  }

  /** The number of reaction points is the total number of contact points. */
  lemma {:induction false} ReactionPointCount(item: PlacedItem, itemsBelow: seq<PlacedItem>, g: GeometryOracle)
    requires ReactionPoints(item, itemsBelow, g).Success?
    ensures |ReactionPoints(item, itemsBelow, g).value| == ContactCount(item, itemsBelow, g)
  {
    if itemsBelow != [] {
      ReactionPointCount(item, itemsBelow[..|itemsBelow| - 1], g);
    }
  }

  function ContactCount(item: PlacedItem, itemsBelow: seq<PlacedItem>, g: GeometryOracle): nat {
    if itemsBelow == [] then 0
    else
      var c := Contacts(item, itemsBelow[|itemsBelow| - 1], g);
      ContactCount(item, itemsBelow[..|itemsBelow| - 1], g) + (if c.Success? then |c.value| else 0)
  }
}
