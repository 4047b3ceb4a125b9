/**
 * The scoring shared by the heuristic criteria: walk the items of a unit
 * in sequence order, stop at the first item that is not stable, and score
 * the length of the stable prefix divided by the number of items. An
 * exception thrown by a stability test ends the walk and escapes.
 */
module StablePrefixes {
  import opened Wrappers
  import opened Shapes
  import opened PlacedItems

  /** A criterion's stability test of the item at a position of the sorted list. */
  type Verdict = (PlacedItem, nat) -> Result<bool>

  /** The number of stable items from position k on, up to the first unstable one. */
  function PrefixFrom(items: seq<PlacedItem>, verdict: Verdict, k: nat): Result<nat>
    requires k <= |items|
    decreases |items| - k
  {
    if k == |items| then Success(k)
    else
      match verdict(items[k], k)
      case Failure(e) => Failure(e)
      case Success(stable) => if stable then PrefixFrom(items, verdict, k + 1) else Success(k)
  }

  /** The length of the stable prefix of the whole list. */
  function StablePrefix(items: seq<PlacedItem>, verdict: Verdict): Result<nat> {
    PrefixFrom(items, verdict, 0)
  }

  /** Every position in [k, c) passes the test and position c, if there is one, does not. */
  predicate PrefixEndsAt(items: seq<PlacedItem>, verdict: Verdict, k: nat, c: nat)
    requires k <= c <= |items|
  {
    (forall j :: k <= j < c ==> verdict(items[j], j) == Success(true)) &&
    (c < |items| ==> verdict(items[c], c) == Success(false))
  }

  /** The test at position j throws e, and every position in [k, j) passed before it. */
  predicate PrefixThrowsAt(items: seq<PlacedItem>, verdict: Verdict, k: nat, j: nat, e: Exception)
    requires k <= j < |items|
  {
    (forall i :: k <= i < j ==> verdict(items[i], i) == Success(true)) &&
    verdict(items[j], j) == Failure(e)
  }

  /**
   * The walk from k either counts up to the first item that is not stable,
   * every item before it being stable, or lets through the exception of
   * the first test that throws.
   */
  lemma {:induction false} PrefixFromIsFirstUnstable(items: seq<PlacedItem>, verdict: Verdict, k: nat)
    requires k <= |items|
    ensures PrefixFrom(items, verdict, k).Success? ==>
      k <= PrefixFrom(items, verdict, k).value <= |items| &&
      PrefixEndsAt(items, verdict, k, PrefixFrom(items, verdict, k).value)
    ensures PrefixFrom(items, verdict, k).Failure? ==>
      exists j :: k <= j < |items| && PrefixThrowsAt(items, verdict, k, j, PrefixFrom(items, verdict, k).error)
    decreases |items| - k
  {
    if k < |items| && verdict(items[k], k) == Success(true) {
      PrefixFromIsFirstUnstable(items, verdict, k + 1);
      var r := PrefixFrom(items, verdict, k + 1);
      if r.Failure? {
        var j :| k + 1 <= j < |items| && PrefixThrowsAt(items, verdict, k + 1, j, r.error);
        assert PrefixThrowsAt(items, verdict, k, j, r.error);
      }
    } else if k < |items| && verdict(items[k], k).Failure? {
      assert PrefixThrowsAt(items, verdict, k, k, verdict(items[k], k).error);
    }
  }

  /** Conversely, a position c that ends a run of stable items is what the walk from k counts. */
  lemma {:induction false} PrefixFromEndsAt(items: seq<PlacedItem>, verdict: Verdict, k: nat, c: nat)
    requires k <= c <= |items| && PrefixEndsAt(items, verdict, k, c)
    ensures PrefixFrom(items, verdict, k) == Success(c)
    decreases c - k
  {
    if k < c {
      PrefixFromEndsAt(items, verdict, k + 1, c);
    }
  }

  /** The score of a non-empty unit: the stable prefix as a share of the items. */
  function PrefixScore(items: seq<PlacedItem>, verdict: Verdict): Result<real>
    requires |items| > 0
  {
    match StablePrefix(items, verdict)
    case Failure(e) => Failure(e)
    case Success(c) => Success(c as real / |items| as real)
  }

  /**
   * A score lies in [0, 1]; it is 1 exactly when every item passes, and 0
   * exactly when the first item already fails.
   */
  lemma PrefixScoreBounds(items: seq<PlacedItem>, verdict: Verdict)
    requires |items| > 0
    ensures PrefixScore(items, verdict).Success? ==>
      0.0 <= PrefixScore(items, verdict).value <= 1.0 &&
      (PrefixScore(items, verdict).value == 1.0 <==> forall j :: 0 <= j < |items| ==> verdict(items[j], j) == Success(true)) &&
      (PrefixScore(items, verdict).value == 0.0 <==> verdict(items[0], 0) == Success(false))
  {
    PrefixFromIsFirstUnstable(items, verdict, 0);
    var r := StablePrefix(items, verdict);
    if r.Success? {
      var c := r.value;
      var n := |items|;
      var q := c as real / n as real;
      assert q * n as real == c as real;
      assert q <= 1.0;
      assert q == 1.0 <==> c == n;
      assert q == 0.0 <==> c == 0;
      if forall j :: 0 <= j < n ==> verdict(items[j], j) == Success(true) {
        if c < n { assert verdict(items[c], c) == Success(false); }
      }
    }
  }

  /**
   * The counting loop of the criteria: count the items from the start of
   * the sorted list while they pass the test, stop at the first one that
   * does not; an exception of a test ends the loop and escapes.
   */
  method CountStablePrefix(items: seq<PlacedItem>, verdict: Verdict) returns (r: Result<nat>)
    ensures r == StablePrefix(items, verdict)
    ensures r.Success? ==> r.value <= |items| && PrefixEndsAt(items, verdict, 0, r.value)
  {
    var counter := 0;
    while counter < |items|
      invariant counter <= |items|
      invariant forall j :: 0 <= j < counter ==> verdict(items[j], j) == Success(true)
      invariant StablePrefix(items, verdict) == PrefixFrom(items, verdict, counter)
    {
      var stable := verdict(items[counter], counter);
      if stable.Failure? {
        return Failure(stable.error);
      }
      if !stable.value {
        break;
      }
      counter := counter + 1;
    }
    r := Success(counter);
    PrefixFromIsFirstUnstable(items, verdict, 0);
  }

  /** Every item of the list has a box as its shape. */
  predicate AllBoxes(items: seq<PlacedItem>) {
    forall j :: 0 <= j < |items| ==> IsBox(items[j].shape)
  }

  /**
   * The score of a non-empty unit under a box-only criterion: -1 when
   * some item is not a box, otherwise the share of the stable prefix.
   */
  function BoxOnlyScore(items: seq<PlacedItem>, verdict: Verdict): Result<real>
    requires |items| > 0
  {
    if !AllBoxes(items) then Success(-1.0) else PrefixScore(items, verdict)
  }

  /** A box-only score is -1 exactly for a unit with a non-box item, and a share in [0, 1] otherwise. */
  lemma BoxOnlyScoreRange(items: seq<PlacedItem>, verdict: Verdict)
    requires |items| > 0
    ensures BoxOnlyScore(items, verdict).Success? ==>
      (BoxOnlyScore(items, verdict).value == -1.0 <==> !AllBoxes(items)) &&
      (AllBoxes(items) ==> 0.0 <= BoxOnlyScore(items, verdict).value <= 1.0)
    ensures !AllBoxes(items) ==> BoxOnlyScore(items, verdict) == Success(-1.0)
  {
    PrefixScoreBounds(items, verdict);
  }

  /**
   * The end of assessUld in the box-only criteria: the loop that answers
   * -1 at the first item that is not a box, then the counting loop and
   * the share of the items it counted.
   */
  method ScoreBoxesByPrefix(items: seq<PlacedItem>, verdict: Verdict) returns (r: Result<real>)
    requires |items| > 0
    ensures r == BoxOnlyScore(items, verdict)
  {
    for j := 0 to |items|
      invariant forall i :: 0 <= i < j ==> IsBox(items[i].shape)
    {
      if !items[j].shape.BoxShape? {
        return Success(-1.0);
      }
    }
    var sequence := CountStablePrefix(items, verdict);
    if sequence.Failure? {
      return Failure(sequence.error);
    }
    r := Success(sequence.value as real / |items| as real);
  }
}
