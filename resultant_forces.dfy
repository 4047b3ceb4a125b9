/**
 * The resultant force on an item at one sequence step: its gravitation
 * force and the action forces from above added up, applied at their
 * magnitude-weighted mean point rounded to two decimals.
 */
module ResultantForceCalculator {
  import opened Numerics
  import opened Points
  import opened Forces

  /** The sum of the magnitudes. */
  function MagnitudeSum(fs: seq<Force>): real {
    if fs == [] then 0.0 else MagnitudeSum(fs[..|fs| - 1]) + fs[|fs| - 1].magnitude
  }

  /** The sum of x times magnitude. */
  function MomentX(fs: seq<Force>): real {
    if fs == [] then 0.0 else MomentX(fs[..|fs| - 1]) + Times(fs[|fs| - 1].point.x, fs[|fs| - 1].magnitude)
  }

  /** The sum of y times magnitude. */
  function MomentY(fs: seq<Force>): real {
    if fs == [] then 0.0 else MomentY(fs[..|fs| - 1]) + Times(fs[|fs| - 1].point.y, fs[|fs| - 1].magnitude)
  }

  /** The total magnitude of the gravitation force and the action forces. */
  function TotalMagnitude(g: Force, actions: seq<Force>): real {
    g.magnitude + MagnitudeSum(actions)
  }

  /**
   * The resultant: the total magnitude, applied at the weighted mean of the
   * points, each coordinate rounded to two decimals as Java rounds a double
   * quotient (a zero total gives an infinity or NaN before rounding).
   */
  function ResultantOf(g: Force, actions: seq<Force>): Force {
    var total := TotalMagnitude(g, actions);
    Force(Point2D(QuotientRound2(Times(g.point.x, g.magnitude) + MomentX(actions), total),
                  QuotientRound2(Times(g.point.y, g.magnitude) + MomentY(actions), total)),
          total)
  }

  /** calculateResultantForce: one pass over the action forces accumulating the magnitude and both moments. */
  method CalculateResultantForce(g: Force, actions: seq<Force>) returns (r: Force)
    ensures r == ResultantOf(g, actions)
  {
    var resultantForce := g.magnitude;
    var x := Times(g.point.x, g.magnitude);
    var y := Times(g.point.y, g.magnitude);
    for k := 0 to |actions|
      invariant resultantForce == g.magnitude + MagnitudeSum(actions[..k])
      invariant x == Times(g.point.x, g.magnitude) + MomentX(actions[..k])
      invariant y == Times(g.point.y, g.magnitude) + MomentY(actions[..k])
    {
      assert actions[..k + 1][..k] == actions[..k];
      resultantForce := resultantForce + actions[k].magnitude;
      x := x + Times(actions[k].point.x, actions[k].magnitude);
      y := y + Times(actions[k].point.y, actions[k].magnitude);
    }
    assert actions[..|actions|] == actions;
    r := Force(Point2D(QuotientRound2(x, resultantForce), QuotientRound2(y, resultantForce)), resultantForce);
  }

  /** The action forces listed for a step, or none when the step has no entry. */
  function ActionsAt(actionForcesPerSequence: map<int, seq<Force>>, s: int): seq<Force> {
    if s in actionForcesPerSequence then actionForcesPerSequence[s] else []
  }

  /** The resultant at every step in [start, max). */
  function ResultantsFor(start: int, max: int, g: Force, actionForcesPerSequence: map<int, seq<Force>>): map<int, Force> {
    map s | start <= s < max :: ResultantOf(g, ActionsAt(actionForcesPerSequence, s))
  }

  /** calculateResultantForcesForAllSequences */
  method CalculateResultantForcesForAllSequences(start: int, max: int, g: Force,
                                                 actionForcesPerSequence: map<int, seq<Force>>)
    returns (m: map<int, Force>)
    ensures m == ResultantsFor(start, max, g, actionForcesPerSequence)
  {
    m := map[];
    var i := start;
    while i < max
      invariant start <= i && (i == start || i <= max)
      invariant m == map s | start <= s < i :: ResultantOf(g, ActionsAt(actionForcesPerSequence, s))
    {
      var actions := if i in actionForcesPerSequence then actionForcesPerSequence[i] else [];
      var r := CalculateResultantForce(g, actions);
      m := m[i := r];
      i := i + 1;
    }
  }

  /** The keys are exactly the steps in [start, max); a step without action forces gets the resultant of gravitation alone. */
  lemma ResultantsForKeys(start: int, max: int, g: Force, actionForcesPerSequence: map<int, seq<Force>>)
    ensures forall s :: s in ResultantsFor(start, max, g, actionForcesPerSequence) <==> start <= s < max
    ensures forall s :: start <= s < max && s !in actionForcesPerSequence ==>
      ResultantsFor(start, max, g, actionForcesPerSequence)[s] == ResultantOf(g, [])
  {
  }

  /** Without action forces the resultant is the gravitation force, its point rounded to two decimals. */
  lemma ResultantWithoutActionsIsGravitation(g: Force)
    requires g.magnitude != 0.0
    ensures ResultantOf(g, []).magnitude == g.magnitude
    ensures ResultantOf(g, []).point == Point2D(Round2(g.point.x), Round2(g.point.y))
  {
    SelfQuotient(g.point.x, g.magnitude);
    SelfQuotient(g.point.y, g.magnitude);
    assert MagnitudeSum([]) == 0.0 && MomentX([]) == 0.0 && MomentY([]) == 0.0;
  }

  /** A weightless item without load has its resultant at the origin: 0/0 is NaN, which rounds to 0. */
  lemma WeightlessUnloadedItemResultsAtOrigin(g: Force)
    requires g.magnitude == 0.0
    ensures ResultantOf(g, []) == Force(Point2D(0.0, 0.0), 0.0)
  {
  }

  /** Appending action forces adds their magnitudes to the total. */
  lemma {:induction false} MagnitudeSumAppend(a: seq<Force>, b: seq<Force>)
    ensures MagnitudeSum(a + b) == MagnitudeSum(a) + MagnitudeSum(b)
    decreases |b|
  {
    if b == [] {
      assert a + b == a;
    } else {
      assert (a + b)[..|a + b| - 1] == a + b[..|b| - 1];
      assert (a + b)[|a + b| - 1] == b[|b| - 1];
      MagnitudeSumAppend(a, b[..|b| - 1]);
    }
  }

  /** The total is additive in the action forces. */
  lemma TotalIsAdditive(g: Force, a: seq<Force>, b: seq<Force>)
    ensures ResultantOf(g, a + b).magnitude == ResultantOf(g, a).magnitude + MagnitudeSum(b)
  {
    MagnitudeSumAppend(a, b);
  }

  /** All forces press (non-negative magnitude) and act at x in [lo, hi]. */
  predicate PressingWithin(fs: seq<Force>, lo: real, hi: real) {
    forall k :: 0 <= k < |fs| ==> fs[k].magnitude >= 0.0 && lo <= fs[k].point.x <= hi
  }

  /** For pressing forces within [lo, hi] the x moment lies between lo and hi times the magnitude sum. */
  lemma {:induction false} MomentXBounded(fs: seq<Force>, lo: real, hi: real)
    requires PressingWithin(fs, lo, hi)
    ensures lo * MagnitudeSum(fs) <= MomentX(fs) <= hi * MagnitudeSum(fs)
    ensures MagnitudeSum(fs) >= 0.0
  {
    if fs != [] {
      var init := fs[..|fs| - 1];
      var f := fs[|fs| - 1];
      assert PressingWithin(init, lo, hi) by {
        forall k | 0 <= k < |init| ensures init[k] == fs[k] { }
      }
      MomentXBounded(init, lo, hi);
      ScaledBetween(lo, f.point.x, hi, f.magnitude);
      assert MagnitudeSum(fs) == MagnitudeSum(init) + f.magnitude;
      assert MomentX(fs) == MomentX(init) + Times(f.point.x, f.magnitude);
      Distribute(lo, MagnitudeSum(init), f.magnitude);
      Distribute(hi, MagnitudeSum(init), f.magnitude);
    }
  }

  lemma ScaledBetween(lo: real, x: real, hi: real, m: real)
    requires lo <= x <= hi && m >= 0.0
    ensures lo * m <= Times(x, m) <= hi * m
  {
  }

  lemma Distribute(c: real, a: real, b: real)
    ensures c * (a + b) == c * a + c * b
  {
  }

  /** A quotient of a value between lo and hi times a positive divisor lies between lo and hi. */
  lemma QuotientBetween(lo: real, num: real, hi: real, d: real)
    requires d > 0.0 && lo * d <= num <= hi * d
    ensures lo <= num / d <= hi
  {
    var q := num / d;
    assert q * d == num;
  }

  lemma SelfQuotient(x: real, m: real)
    requires m != 0.0
    ensures Times(x, m) / m == x
  {
  }

  /** The unrounded x of the resultant: the weighted mean of the points. */
  function MeanX(g: Force, actions: seq<Force>): real
    requires TotalMagnitude(g, actions) != 0.0
  {
    (Times(g.point.x, g.magnitude) + MomentX(actions)) / TotalMagnitude(g, actions)
  }

  /**
   * When the item has weight and every force presses, the resultant's x
   * lies within the span of the points the forces act at, up to the
   * rounding to two decimals.
   */
  lemma ResultantWithinSpan(g: Force, actions: seq<Force>, lo: real, hi: real)
    requires g.magnitude > 0.0 && lo <= g.point.x <= hi
    requires PressingWithin(actions, lo, hi)
    requires -1.0e16 <= lo && hi <= 1.0e16
    ensures TotalMagnitude(g, actions) > 0.0
    ensures lo <= MeanX(g, actions) <= hi
    ensures ResultantOf(g, actions).point.x == Round2(MeanX(g, actions))
    ensures lo - 0.005 < ResultantOf(g, actions).point.x <= hi + 0.005
  {
    MeanXWithinSpan(g, actions, lo, hi);
    Round2IsClose(MeanX(g, actions));
  }

  lemma MeanXWithinSpan(g: Force, actions: seq<Force>, lo: real, hi: real)
    requires g.magnitude > 0.0 && lo <= g.point.x <= hi
    requires PressingWithin(actions, lo, hi)
    ensures TotalMagnitude(g, actions) > 0.0
    ensures lo <= MeanX(g, actions) <= hi
  {
    MomentXBounded(actions, lo, hi);
    var total := TotalMagnitude(g, actions);
    var num := Times(g.point.x, g.magnitude) + MomentX(actions);
    ScaledBetween(lo, g.point.x, hi, g.magnitude);
    Distribute(lo, g.magnitude, MagnitudeSum(actions));
    Distribute(hi, g.magnitude, MagnitudeSum(actions));
    QuotientBetween(lo, num, hi, total);
  }

  /** Forces that all act at the item's own point leave the resultant there. */
  lemma ConcentricForcesKeepPoint(g: Force, actions: seq<Force>)
    requires g.magnitude > 0.0 && -1.0e16 <= g.point.x <= 1.0e16
    requires PressingWithin(actions, g.point.x, g.point.x)
    ensures ResultantOf(g, actions).point.x == Round2(g.point.x)
  {
    ResultantWithinSpan(g, actions, g.point.x, g.point.x);
  }
}
