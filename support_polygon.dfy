/**
 * The support test of the box-only criteria: a point counts as supported
 * when it lies in the closed footprint of an item below; otherwise the
 * convex hull of the contact points with all items below must contain it.
 * The contact query and the hull containment come from the geometry
 * oracle.
 */
module SupportPolygons {
  import opened Wrappers
  import opened Points
  import opened Shapes
  import opened PlacedItems
  import opened ReactionPointCalculator

  /**
   * A point checked for support. A resultant whose forces sum to zero has
   * NaN or infinite coordinates: it lies in no footprint (every double
   * comparison with it fails) and in no hull (the hull's envelope does
   * not contain it).
   */
  datatype TestPoint = At(p: Point2D) | NonFinite

  /** The closed footprint [x, maxX] x [z, maxZ] of an item contains the point. */
  predicate InFootprint(q: PlacedItem, t: TestPoint) {
    t.At? &&
    q.coords.x as real <= t.p.x <= q.coords.maxX as real &&
    q.coords.z as real <= t.p.y <= q.coords.maxZ as real
  }

  /**
   * The convex hull of the collected coordinates contains the point. The
   * hull of no coordinates is the empty geometry, which contains nothing.
   */
  predicate HullContains(coordinates: seq<Point2D>, t: TestPoint, g: GeometryOracle) {
    t.At? && coordinates != [] && g.hullContains(coordinates, t.p)
  }

  /** Some item of the list, from position j on, has the point in its footprint. */
  predicate FootprintHitFrom(below: seq<PlacedItem>, t: TestPoint, j: nat) {
    exists k :: j <= k < |below| && InFootprint(below[k], t)
  }

  /**
   * isPointSupported (and isResultantForcePointSupported, which is the same
   * code) from the item below at position j on, with the coordinates
   * collected so far: a footprint hit answers true at once; otherwise the
   * contact points with that item are collected, and a contact query that
   * throws ends the test. After the last item the hull decides.
   */
  function ContactSupportFrom(item: PlacedItem, below: seq<PlacedItem>, t: TestPoint, g: GeometryOracle,
                              j: nat, collected: seq<Point2D>): Result<bool>
    requires j <= |below|
    decreases |below| - j
  {
    if j == |below| then Success(HullContains(collected, t, g))
    else if InFootprint(below[j], t) then Success(true)
    else
      match Contacts(item, below[j], g)
      case Failure(e) => Failure(e)
      case Success(cs) => ContactSupportFrom(item, below, t, g, j + 1, collected + cs)
  }

  function ContactSupport(item: PlacedItem, below: seq<PlacedItem>, t: TestPoint, g: GeometryOracle): Result<bool> {
    ContactSupportFrom(item, below, t, g, 0, [])
  }

  /** The contact points with the items below from position j on, in order, for an item whose base is valid. */
  function ContactsFrom(item: PlacedItem, below: seq<PlacedItem>, g: GeometryOracle, j: nat): seq<Point2D>
    requires BaseIsValid(item, g) && j <= |below|
    decreases |below| - j
  {
    if j == |below| then []
    else Contacts(item, below[j], g).value + ContactsFrom(item, below, g, j + 1)
  }

  /**
   * For an item with a valid base the test never throws: the point is
   * supported exactly when it lies in the footprint of some item below or
   * in the hull of all contact points with the items below.
   */
  lemma {:induction false} ContactSupportFromWithValidBase(item: PlacedItem, below: seq<PlacedItem>, t: TestPoint,
                                                           g: GeometryOracle, j: nat, collected: seq<Point2D>)
    requires BaseIsValid(item, g) && j <= |below|
    ensures ContactSupportFrom(item, below, t, g, j, collected) ==
      Success(FootprintHitFrom(below, t, j) || HullContains(collected + ContactsFrom(item, below, g, j), t, g))
    decreases |below| - j
  {
    if j == |below| {
      assert collected + [] == collected;
    } else if InFootprint(below[j], t) {
    } else {
      var cs := Contacts(item, below[j], g).value;
      ContactSupportFromWithValidBase(item, below, t, g, j + 1, collected + cs);
      assert collected + cs + ContactsFrom(item, below, g, j + 1) == collected + ContactsFrom(item, below, g, j);
      assert FootprintHitFrom(below, t, j) == FootprintHitFrom(below, t, j + 1) by {
        if FootprintHitFrom(below, t, j) {
          var k :| j <= k < |below| && InFootprint(below[k], t);
          assert k != j;
        }
      }
    }
  }

  lemma ContactSupportWithValidBase(item: PlacedItem, below: seq<PlacedItem>, t: TestPoint, g: GeometryOracle)
    requires BaseIsValid(item, g)
    ensures ContactSupport(item, below, t, g) ==
      Success(FootprintHitFrom(below, t, 0) || HullContains(ContactsFrom(item, below, g, 0), t, g))
  {
    ContactSupportFromWithValidBase(item, below, t, g, 0, []);
    assert [] + ContactsFrom(item, below, g, 0) == ContactsFrom(item, below, g, 0);
  }

  /**
   * For an item whose base is not a valid geometry, the first item below
   * decides: a footprint hit is still true, anything else throws the
   * TopologyException of the contact query; with no item below only the
   * empty hull is asked, and it contains nothing.
   */
  lemma ContactSupportWithInvalidBase(item: PlacedItem, below: seq<PlacedItem>, t: TestPoint, g: GeometryOracle)
    requires !BaseIsValid(item, g)
    ensures below == [] ==> ContactSupport(item, below, t, g) == Success(false)
    ensures below != [] ==>
      ContactSupport(item, below, t, g) == (if InFootprint(below[0], t) then Success(true) else Failure(Topology))
  {
  }

  /** With no item below there is no footprint and no contact point, so no point is supported. */
  lemma NothingBelowSupportsNothing(item: PlacedItem, t: TestPoint, g: GeometryOracle)
    ensures ContactSupport(item, [], t, g) == Success(false)
  {
  }

  /** A resultant with non-finite coordinates is never supported, though a contact query may still throw. */
  lemma {:induction false} NonFiniteIsNeverSupported(item: PlacedItem, below: seq<PlacedItem>, g: GeometryOracle,
                                                    j: nat, collected: seq<Point2D>)
    requires j <= |below|
    ensures ContactSupportFrom(item, below, NonFinite, g, j, collected) != Success(true)
    ensures ContactSupportFrom(item, below, NonFinite, g, j, collected).Failure? ==>
      !BaseIsValid(item, g) && j < |below|
    decreases |below| - j
  {
    if j < |below| {
      match Contacts(item, below[j], g)
      case Failure(_) =>
      case Success(cs) => NonFiniteIsNeverSupported(item, below, g, j + 1, collected + cs);
    }
  }

  /**
   * isPointSupported (isResultantForcePointSupported of the Ramos
   * criterion is the same code): the loop over the items below, answering
   * true at the first footprint that holds the point and collecting the
   * contact points otherwise; the hull of the collected points decides at
   * the end.
   */
  method IsPointSupported(item: PlacedItem, below: seq<PlacedItem>, t: TestPoint, g: GeometryOracle)
    returns (r: Result<bool>)
    ensures r == ContactSupport(item, below, t, g)
  {
    var supportPolygonCreationList: seq<Point2D> := [];
    var k := 0;
    while k < |below|
      invariant k <= |below|
      invariant ContactSupport(item, below, t, g) == ContactSupportFrom(item, below, t, g, k, supportPolygonCreationList)
    {
      var itemBelow := below[k];
      if InFootprint(itemBelow, t) {
        return Success(true);
      }
      var contactPoints := Contacts(item, itemBelow, g);
      if contactPoints.Failure? {
        return Failure(contactPoints.error);
      }
      supportPolygonCreationList := supportPolygonCreationList + contactPoints.value;
      k := k + 1;
    }
    r := Success(HullContains(supportPolygonCreationList, t, g));
  }

  // ---------------------------------------------------------------------------
  // Resultant points
  // ---------------------------------------------------------------------------

  /** The gravitational acceleration of the resultant folds. */
  const GRAVITY: real := 9.81

  /**
   * The running pair of the resultant folds: the force-weighted sums of
   * the x and z coordinates of the contributors and the sum of their
   * forces.
   */
  datatype ForcePair = ForcePair(sumX: real, sumZ: real, force: real)

  /**
   * The resultant point of a pair: the weighted sums divided by the total
   * force. A total of zero gives NaN or infinite coordinates.
   */
  function ForcePoint(r: ForcePair): (t: TestPoint)
    ensures t.NonFinite? <==> r.force == 0.0
    ensures t.At? ==> t.p.x * r.force == r.sumX && t.p.y * r.force == r.sumZ
  {
    if r.force == 0.0 then NonFinite else At(Point2D(r.sumX / r.force, r.sumZ / r.force))
  }
}
