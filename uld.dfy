/**
 * The loading unit: its properties, the items placed on it keyed by label,
 * the list of those items in sequence order, and the environment relations
 * (items below, on top and beside) that the support-structure and
 * neighbourhood passes record between its items.
 */
module ULDs {
  import opened Numerics
  import opened Wrappers
  import opened Points
  import opened Shapes
  import opened PlacedItems
  import opened UldProperties

  // ---------------------------------------------------------------------------
  // Ordering by sequence
  // ---------------------------------------------------------------------------

  predicate SortedBySequence(s: seq<PlacedItem>) {
    forall i, j :: 0 <= i < j < |s| ==> s[i].sequence <= s[j].sequence
  }

  /**
   * Inserting one item into a list sorted by sequence, in front of the
   * first item whose sequence is not smaller. This is where a binary
   * insertion with a comparator that never answers 0 puts the item.
   */
  function InsertBySequence(s: seq<PlacedItem>, p: PlacedItem): (r: seq<PlacedItem>)
    ensures multiset(r) == multiset(s) + multiset{p}
    ensures |r| == |s| + 1
    ensures forall i :: 0 <= i < |r| ==> r[i] in s || r[i] == p
  {
    if s == [] then [p]
    else if p.sequence <= s[0].sequence then [p] + s
    else
      var t := InsertBySequence(s[1..], p);
      assert s == [s[0]] + s[1..];
      [s[0]] + t
  }

  lemma {:induction false} InsertKeepsSorted(s: seq<PlacedItem>, p: PlacedItem)
    requires SortedBySequence(s)
    ensures SortedBySequence(InsertBySequence(s, p))
  {
    if s != [] && p.sequence > s[0].sequence {
      InsertKeepsSorted(s[1..], p);
      var t := InsertBySequence(s[1..], p);
      assert forall i :: 0 <= i < |t| ==> s[0].sequence <= t[i].sequence by {
        forall i | 0 <= i < |t| ensures s[0].sequence <= t[i].sequence {
          if t[i] != p {
            var k :| 0 <= k < |s[1..]| && s[1..][k] == t[i];
            assert s[k + 1] == t[i];
          }
        }
      }
    }
  }

  /**
   * The list sorted ascending by sequence, by inserting the items one after
   * the other. For items with distinct sequence numbers this is the one
   * sorted arrangement; items sharing a sequence number end up in reverse
   * input order.
   */
  function SortBySequence(s: seq<PlacedItem>): (r: seq<PlacedItem>)
    ensures multiset(r) == multiset(s)
    ensures |r| == |s|
    ensures SortedBySequence(r)
  {
    if s == [] then []
    else
      var r := SortBySequence(s[..|s| - 1]);
      InsertKeepsSorted(r, s[|s| - 1]);
      assert s == s[..|s| - 1] + [s[|s| - 1]];
      InsertBySequence(r, s[|s| - 1])
  }

  predicate StrictlyIncreasing(s: seq<PlacedItem>) {
    forall i, j :: 0 <= i < j < |s| ==> s[i].sequence < s[j].sequence
  }

  /** An item that comes after every item of a sorted list is appended at its end. */
  lemma {:induction false} InsertLastComesLast(s: seq<PlacedItem>, p: PlacedItem)
    requires forall i :: 0 <= i < |s| ==> s[i].sequence < p.sequence
    ensures InsertBySequence(s, p) == s + [p]
  {
    if s != [] {
      InsertLastComesLast(s[1..], p);
      assert [s[0]] + (s[1..] + [p]) == s + [p];
    }
  }

  /** Without its last item a strictly increasing list stays so, and that item comes after all the others. */
  lemma IncreasingSplits(s: seq<PlacedItem>, init: seq<PlacedItem>, last: PlacedItem)
    requires s == init + [last] && StrictlyIncreasing(s)
    ensures StrictlyIncreasing(init)
    ensures forall i :: 0 <= i < |init| ==> init[i].sequence < last.sequence
  {
    assert forall i :: 0 <= i < |init| ==> init[i] == s[i];
    assert last == s[|init|];
  }

  /** A list already in strictly increasing sequence order is left as it is. */
  lemma {:induction false} SortKeepsIncreasingList(s: seq<PlacedItem>)
    requires StrictlyIncreasing(s)
    ensures SortBySequence(s) == s
  {
    if s != [] {
      var init, last := s[..|s| - 1], s[|s| - 1];
      assert s == init + [last];
      IncreasingSplits(s, init, last);
      SortKeepsIncreasingList(init);
      InsertLastComesLast(init, last);
    }
  }

  /** Two items that share a sequence number come out of the sort in reverse input order. */
  lemma TiesComeOutReversed(a: PlacedItem, b: PlacedItem)
    requires a.sequence == b.sequence
    ensures SortBySequence([a, b]) == [b, a]
  {
    assert [a, b][..1] == [a];
    assert SortBySequence([a]) == [a] by {
      assert [a][..0] == [];
    }
  }

  // ---------------------------------------------------------------------------
  // The map from label to item
  // ---------------------------------------------------------------------------

  /** The map after putting the items in order under their labels: a later item replaces an earlier one. */
  function MapOf(items: seq<PlacedItem>): map<string, PlacedItem> {
    if items == [] then map[]
    else
      var last := items[|items| - 1];
      MapOf(items[..|items| - 1])[last.itemLabel := last]
  }

  /** Every item's label is a key, and every key maps to an item of the list carrying that label. */
  lemma {:induction false} MapOfEntries(items: seq<PlacedItem>)
    ensures forall q :: q in items ==> q.itemLabel in MapOf(items)
    ensures forall l :: l in MapOf(items) ==> MapOf(items)[l].itemLabel == l && MapOf(items)[l] in items
  {
    if items != [] {
      var init := items[..|items| - 1];
      MapOfEntries(init);
      assert forall q :: q in items ==> q in init || q == items[|items| - 1];
    }
  }

  /** Every label of the list maps to the last item of the list carrying it. */
  lemma {:induction false} MapOfHoldsLastWithLabel(items: seq<PlacedItem>, i: nat)
    requires i < |items|
    requires forall j :: i < j < |items| ==> items[j].itemLabel != items[i].itemLabel
    ensures items[i].itemLabel in MapOf(items) && MapOf(items)[items[i].itemLabel] == items[i]
  {
    if i < |items| - 1 {
      MapOfHoldsLastWithLabel(items[..|items| - 1], i);
    }
  }

  /** With distinct labels, putting the items under their labels loses none: one entry per item. */
  lemma {:induction false} MapOfDistinctLabels(items: seq<PlacedItem>)
    requires forall i, j :: 0 <= i < j < |items| ==> items[i].itemLabel != items[j].itemLabel
    ensures |MapOf(items)| == |items|
    ensures forall i :: 0 <= i < |items| ==> items[i].itemLabel in MapOf(items) && MapOf(items)[items[i].itemLabel] == items[i]
  {
    if items != [] {
      var init := items[..|items| - 1];
      var last := items[|items| - 1];
      MapOfDistinctLabels(init);
      assert forall k :: 0 <= k < |init| ==> init[k].itemLabel != last.itemLabel by {
        forall k | 0 <= k < |init| ensures init[k].itemLabel != last.itemLabel {
          assert init[k] == items[k];
        }
      }
      MapOfEntries(init);
      assert last.itemLabel !in MapOf(init);
      forall i | 0 <= i < |items|
        ensures items[i].itemLabel in MapOf(items) && MapOf(items)[items[i].itemLabel] == items[i]
      {
        MapOfHoldsLastWithLabel(items, i);
      }
    }
  }

  lemma PutStep(items: seq<PlacedItem>, i: nat)
    requires i < |items|
    ensures MapOf(items[..i + 1]) == MapOf(items[..i])[items[i].itemLabel := items[i]]
    ensures items[..i + 1] == items[..i] + [items[i]]
  {
    var s := items[..i + 1];
    assert s[..|s| - 1] == items[..i];
    assert s[|s| - 1] == items[i];
    assert MapOf(s) == MapOf(s[..|s| - 1])[s[|s| - 1].itemLabel := s[|s| - 1]];
  }

  /** Putting the items into an empty map one after the other under their labels. */
  method PutByLabel(items: seq<PlacedItem>) returns (m: map<string, PlacedItem>)
    ensures m == MapOf(items)
  {
    m := map[];
    for i := 0 to |items|
      invariant m == MapOf(items[..i])
    {
      PutStep(items, i);
      m := m[items[i].itemLabel := items[i]];
    }
    assert items[..|items|] == items;
  }

  /** Sorting keeps the items, so the sorted list and its label map stay on or above the floor and below the top. */
  lemma SortedItemsOnOrAboveFloor(items: seq<PlacedItem>)
    requires OnOrAboveFloor(items)
    ensures var sorted := SortBySequence(items);
      OnOrAboveFloor(sorted) &&
      (forall l :: l in MapOf(sorted) ==> 0 <= MapOf(sorted)[l].coords.y <= TopLevel(sorted))
  {
    var sorted := SortBySequence(items);
    MapOfEntries(sorted);
    forall q | q in sorted ensures q in items {
      assert q in multiset(sorted);
    }
  }

  /**
   * The iteration order of a hash map's keys, which depends on the hash
   * codes and the table size: each key exactly once. The model takes it
   * as given.
   */
  predicate KeyOrder(keys: seq<string>, m: map<string, PlacedItem>) {
    |keys| == |m| &&
    (forall i :: 0 <= i < |keys| ==> keys[i] in m) &&
    (forall i, j :: 0 <= i < j < |keys| ==> keys[i] != keys[j])
  }

  /** The map's values in the iteration order of its keys. */
  function ValuesInOrder(keys: seq<string>, m: map<string, PlacedItem>): (vs: seq<PlacedItem>)
    requires forall i :: 0 <= i < |keys| ==> keys[i] in m
    ensures |vs| == |keys|
    ensures forall i :: 0 <= i < |keys| ==> vs[i] == m[keys[i]]
  {
    seq(|keys|, i requires 0 <= i < |keys| => m[keys[i]])
  }

  /** The transfer object of a loading unit: its id, its properties and its items in stored order. */
  datatype ULDDto = ULDDto(id: Option<int>, properties: PropertiesDto, placedItems: seq<PlacedItem>)

  /** The highest y of the items of a list, and 0 for none. */
  function TopLevel(items: seq<PlacedItem>): (top: int)
    ensures top >= 0 && forall q {:trigger q in items} :: q in items ==> q.coords.y <= top
  {
    if items == [] then 0
    else
      var t := TopLevel(items[..|items| - 1]);
      var y := items[|items| - 1].coords.y;
      assert forall q :: q in items ==> q in items[..|items| - 1] || q == items[|items| - 1];
      if y > t then y else t
  }

  predicate OnOrAboveFloor(items: seq<PlacedItem>) {
    forall q {:trigger q in items} :: q in items ==> 0 <= q.coords.y
  }

  // ---------------------------------------------------------------------------
  // Side supports
  // ---------------------------------------------------------------------------

  datatype PackingSide = Right | Left | Back | Front

  /**
   * The relative positions of two items that the environment relation
   * service decides: whether the first item is the right or left
   * neighbour of, behind, or in front of the second.
   */
  datatype SideOracle = SideOracle(
    isRightNeighborOf: (PlacedItem, PlacedItem) -> bool,
    isLeftNeighborOf: (PlacedItem, PlacedItem) -> bool,
    isBehind: (PlacedItem, PlacedItem) -> bool,
    isInFrontOf: (PlacedItem, PlacedItem) -> bool)

  /** The one side another item supports, in the priority right, left, back, front, or none. */
  function SideOf(pi: PlacedItem, item: PlacedItem, o: SideOracle): (side: Option<PackingSide>)
    ensures side == Some(Right) <==> o.isRightNeighborOf(pi, item)
    ensures side == Some(Left) <==> !o.isRightNeighborOf(pi, item) && o.isLeftNeighborOf(pi, item)
    ensures side == Some(Back) <==> !o.isRightNeighborOf(pi, item) && !o.isLeftNeighborOf(pi, item) && o.isBehind(pi, item)
    ensures side == Some(Front) <==>
      !o.isRightNeighborOf(pi, item) && !o.isLeftNeighborOf(pi, item) && !o.isBehind(pi, item) && o.isInFrontOf(pi, item)
  {
    if o.isRightNeighborOf(pi, item) then Some(Right)
    else if o.isLeftNeighborOf(pi, item) then Some(Left)
    else if o.isBehind(pi, item) then Some(Back)
    else if o.isInFrontOf(pi, item) then Some(Front)
    else None
  }

  /** The set of sides that the items of a list support. */
  function SidesOf(items: seq<PlacedItem>, item: PlacedItem, o: SideOracle): (sides: set<PackingSide>)
    ensures forall side :: side in sides <==> exists k :: 0 <= k < |items| && SideOf(items[k], item, o) == Some(side)
  {
    if items == [] then {}
    else
      var init := items[..|items| - 1];
      var rest := SidesOf(init, item, o);
      var sides := match SideOf(items[|items| - 1], item, o)
        case None => rest
        case Some(side) => rest + {side};
      assert forall k :: 0 <= k < |init| ==> init[k] == items[k];
      sides
  }

  /** There are four sides, so at most four of them are supported. */
  lemma AtMostFourSides(sides: set<PackingSide>)
    ensures |sides| <= 4
  {
    assert sides <= {Right, Left, Back, Front} by {
      forall side | side in sides ensures side in {Right, Left, Back, Front} {
        match side
        case Right =>
        case Left =>
        case Back =>
        case Front =>
      }
    }
    assert |{Right, Left, Back, Front}| == 4;
    SubsetCard(sides, {Right, Left, Back, Front});
  }

  /** A subset as large as its superset is the whole set. */
  lemma SubsetOfEqualSize<T>(a: set<T>, b: set<T>)
    requires a <= b && |a| == |b|
    ensures a == b
  {
    if a != {} {
      var x :| x in a;
      SubsetOfEqualSize(a - {x}, b - {x});
    }
  }

  lemma SubsetCard<T>(a: set<T>, b: set<T>)
    requires a <= b
    ensures |a| <= |b|
  {
    if a != {} {
      var x :| x in a;
      SubsetCard(a - {x}, b - {x});
    }
  }

  // ---------------------------------------------------------------------------
  // Pairs of the support-structure pass
  // ---------------------------------------------------------------------------

  /** The index pairs (i, k), i < k < j, of one run of the inner loop, in loop order. */
  function InnerPairs(i: nat, j: nat): (ps: seq<(nat, nat)>)
    ensures forall k :: 0 <= k < |ps| ==> ps[k].0 == i && i < ps[k].1 < j
  {
    if j <= i + 1 then [] else InnerPairs(i, j - 1) + [(i, j - 1)]
  }

  /** The index pairs the nested loops over n positions visit in the first i runs of the outer loop, in loop order. */
  function LoopPairs(i: nat, n: nat): (ps: seq<(nat, nat)>)
    ensures forall k :: 0 <= k < |ps| ==> ps[k].0 < i && ps[k].0 < ps[k].1 < n
  {
    if i == 0 then [] else LoopPairs(i - 1, n) + InnerPairs(i - 1, n)
  }

  /** One inner run lists every later position, each once and in increasing order. */
  lemma {:induction false} InnerPairsCover(i: nat, j: nat)
    ensures forall k :: i < k < j ==> (i, k) in InnerPairs(i, j)
    ensures forall k, l :: 0 <= k < l < |InnerPairs(i, j)| ==> InnerPairs(i, j)[k].1 < InnerPairs(i, j)[l].1
  {
    if j > i + 1 {
      InnerPairsCover(i, j - 1);
      var ps := InnerPairs(i, j);
      assert ps == InnerPairs(i, j - 1) + [(i, j - 1)];
      assert ps[|ps| - 1] == (i, j - 1);
      forall k | i < k < j
        ensures (i, k) in ps
      {
        if k < j - 1 {
          assert (i, k) in InnerPairs(i, j - 1);
        }
      }
    }
  }

  /** The first i outer runs list every pair (a, b), a < i, a < b < n. */
  lemma {:induction false} LoopPairsCover(i: nat, n: nat)
    ensures forall a, b :: 0 <= a < i && a < b < n ==> (a, b) in LoopPairs(i, n)
  {
    if i > 0 {
      LoopPairsCover(i - 1, n);
      InnerPairsCover(i - 1, n);
      var before := LoopPairs(i - 1, n);
      var inner := InnerPairs(i - 1, n);
      assert LoopPairs(i, n) == before + inner;
      forall a, b | 0 <= a < i && a < b < n
        ensures (a, b) in before + inner
      {
        if a < i - 1 {
          assert (a, b) in before;
        } else {
          assert (a, b) in inner;
        }
      }
    }
  }

  /** The first i outer runs list no pair twice. */
  lemma {:induction false} LoopPairsDistinct(i: nat, n: nat)
    ensures forall k, l :: 0 <= k < l < |LoopPairs(i, n)| ==> LoopPairs(i, n)[k] != LoopPairs(i, n)[l]
  {
    if i > 0 {
      LoopPairsDistinct(i - 1, n);
      InnerPairsCover(i - 1, n);
      var before := LoopPairs(i - 1, n);
      var inner := InnerPairs(i - 1, n);
      var ps := before + inner;
      assert LoopPairs(i, n) == ps;
      forall k, l | 0 <= k < l < |ps|
        ensures ps[k] != ps[l]
      {
        if l < |before| {
          assert ps[k] == before[k] && ps[l] == before[l];
        } else if k >= |before| {
          assert ps[k] == inner[k - |before|] && ps[l] == inner[l - |before|];
        } else {
          assert ps[k] == before[k] && ps[l] == inner[l - |before|];
        }
      }
    }
  }

  /** The number of runs of the outer loop over n positions: i runs while i < n - 1. */
  function OuterRuns(n: nat): nat {
    if n == 0 then 0 else n - 1
  }

  /**
   * The support-structure pass visits each unordered pair of distinct
   * positions exactly once, as (smaller, larger), and no other pair.
   */
  lemma EveryPairExactlyOnce(n: nat)
    ensures forall a, b :: 0 <= a < b < n ==> (a, b) in LoopPairs(OuterRuns(n), n) && (b, a) !in LoopPairs(OuterRuns(n), n)
    ensures forall k :: 0 <= k < |LoopPairs(OuterRuns(n), n)| ==>
      LoopPairs(OuterRuns(n), n)[k].0 < LoopPairs(OuterRuns(n), n)[k].1 < n
    ensures forall k, l :: 0 <= k < l < |LoopPairs(OuterRuns(n), n)| ==>
      LoopPairs(OuterRuns(n), n)[k] != LoopPairs(OuterRuns(n), n)[l]
  {
    LoopPairsCover(OuterRuns(n), n);
    LoopPairsDistinct(OuterRuns(n), n);
  }

  /**
   * The pairwise step of the support-structure pass, as a value: the
   * lemmas about the order of the pass hold for any step.
   */
  type PairStep = (RelationMap, PlacedItem, PlacedItem) -> RelationMap

  /** calculateItemSupportStructure's step: the support relation of the first item, as this item, with the second. */
  function SupportStep(minY: MinYOracle): PairStep {
    (m: RelationMap, item: PlacedItem, other: PlacedItem) => SupportRelationStep(m, item, other, minY)
  }

  /**
   * The relations after the pairwise step over the first k listed index
   * pairs of the values; a pair outside the values is passed over (the
   * pairs of the loops never are, see EveryPairExactlyOnce).
   */
  function ApplyFirst(step: PairStep, m: RelationMap, vs: seq<PlacedItem>, ps: seq<(nat, nat)>, k: nat): RelationMap
    requires k <= |ps|
  {
    if k == 0 then m
    else
      var r := ApplyFirst(step, m, vs, ps, k - 1);
      if ps[k - 1].0 < |vs| && ps[k - 1].1 < |vs| then step(r, vs[ps[k - 1].0], vs[ps[k - 1].1]) else r
  }

  /** The relations after the pairwise step over all the listed index pairs of the values, in order. */
  function ApplyPairs(step: PairStep, m: RelationMap, vs: seq<PlacedItem>, ps: seq<(nat, nat)>): RelationMap
  {
    ApplyFirst(step, m, vs, ps, |ps|)
  }

  /** The relations after the inner loop of run i has visited the positions i + 1 .. j - 1. */
  function InnerRun(step: PairStep, m: RelationMap, vs: seq<PlacedItem>, i: nat, j: nat): RelationMap
    requires i < |vs| && j <= |vs|
  {
    if j <= i + 1 then m
    else step(InnerRun(step, m, vs, i, j - 1), vs[i], vs[j - 1])
  }

  /** The relations after the first i runs of the outer loop. */
  function OuterPass(step: PairStep, m: RelationMap, vs: seq<PlacedItem>, i: nat): RelationMap
    requires i <= |vs|
  {
    if i == 0 then m
    else InnerRun(step, OuterPass(step, m, vs, i - 1), vs, i - 1, |vs|)
  }

  /** The first k pairs of a list are also the first k of any extension of it. */
  lemma {:induction false} ApplyFirstOfPrefix(step: PairStep, m: RelationMap, vs: seq<PlacedItem>, ps: seq<(nat, nat)>,
                                              qs: seq<(nat, nat)>, k: nat)
    requires k <= |ps|
    ensures ApplyFirst(step, m, vs, ps + qs, k) == ApplyFirst(step, m, vs, ps, k)
  {
    if k > 0 {
      ApplyFirstOfPrefix(step, m, vs, ps, qs, k - 1);
      assert (ps + qs)[k - 1] == ps[k - 1];
    }
  }

  /** After the pairs of ps, the first k pairs of qs continue from where ps left the relations. */
  lemma {:induction false} ApplyFirstAppend(step: PairStep, m: RelationMap, vs: seq<PlacedItem>, ps: seq<(nat, nat)>,
                                            qs: seq<(nat, nat)>, k: nat)
    requires k <= |qs|
    ensures ApplyFirst(step, m, vs, ps + qs, |ps| + k) == ApplyFirst(step, ApplyPairs(step, m, vs, ps), vs, qs, k)
  {
    if k == 0 {
      ApplyFirstOfPrefix(step, m, vs, ps, qs, |ps|);
    } else {
      ApplyFirstAppend(step, m, vs, ps, qs, k - 1);
      assert (ps + qs)[|ps| + k - 1] == qs[k - 1];
    }
  }

  /** Applying two lists of pairs one after the other is applying their concatenation. */
  lemma ApplyPairsAppend(step: PairStep, m: RelationMap, vs: seq<PlacedItem>, ps: seq<(nat, nat)>,
                         qs: seq<(nat, nat)>)
    ensures ApplyPairs(step, m, vs, ps + qs) == ApplyPairs(step, ApplyPairs(step, m, vs, ps), vs, qs)
  {
    ApplyFirstAppend(step, m, vs, ps, qs, |qs|);
  }

  /** One run of the inner loop applies exactly the pairs (i, k), i < k < j, in order. */
  lemma {:induction false} InnerRunIsInnerPairs(step: PairStep, m: RelationMap, vs: seq<PlacedItem>, i: nat, j: nat)
    requires i < |vs| && j <= |vs|
    ensures InnerRun(step, m, vs, i, j) == ApplyPairs(step, m, vs, InnerPairs(i, j))
  {
    if j > i + 1 {
      InnerRunIsInnerPairs(step, m, vs, i, j - 1);
      var ps := InnerPairs(i, j - 1);
      assert InnerPairs(i, j) == ps + [(i, j - 1)];
      ApplyFirstOfPrefix(step, m, vs, ps, [(i, j - 1)], |ps|);
    }
  }

  /**
   * The first i runs of the outer loop apply exactly the pairs of LoopPairs(i, n),
   * so with EveryPairExactlyOnce the whole pass sees every unordered pair of
   * distinct positions once, smaller position first.
   */
  lemma {:induction false} OuterPassIsLoopPairs(step: PairStep, m: RelationMap, vs: seq<PlacedItem>, i: nat)
    requires i <= |vs|
    ensures OuterPass(step, m, vs, i) == ApplyPairs(step, m, vs, LoopPairs(i, |vs|))
  {
    if i > 0 {
      OuterPassIsLoopPairs(step, m, vs, i - 1);
      OuterPassStep(step, m, vs, i);
    }
  }

  /** Run i of the outer loop continues the pairs of the earlier runs with those of InnerPairs(i - 1, |vs|). */
  lemma OuterPassStep(step: PairStep, m: RelationMap, vs: seq<PlacedItem>, i: nat)
    requires 0 < i <= |vs|
    requires OuterPass(step, m, vs, i - 1) == ApplyPairs(step, m, vs, LoopPairs(i - 1, |vs|))
    ensures OuterPass(step, m, vs, i) == ApplyPairs(step, m, vs, LoopPairs(i, |vs|))
  {
    var prev := OuterPass(step, m, vs, i - 1);
    InnerRunIsInnerPairs(step, prev, vs, i - 1, |vs|);
    ApplyPairsAppend(step, m, vs, LoopPairs(i - 1, |vs|), InnerPairs(i - 1, |vs|));
  }

  /**
   * The nested loops of calculateItemSupportStructure over the values vs:
   * for every i < |vs| - 1 and every j > i, the pairwise support relation
   * of vs[i] (as this item) with vs[j].
   */
  method SupportPass(m0: RelationMap, vs: seq<PlacedItem>, minY: MinYOracle) returns (m: RelationMap)
    ensures m == OuterPass(SupportStep(minY), m0, vs, OuterRuns(|vs|))
  {
    ghost var step := SupportStep(minY);
    m := m0;
    var n := |vs|;
    var i := 0;
    while i < n - 1
      invariant i <= OuterRuns(n)
      invariant m == OuterPass(step, m0, vs, i)
    {
      ghost var base := m;
      var j := i + 1;
      while j < n
        invariant i + 1 <= j <= n
        invariant m == InnerRun(step, base, vs, i, j)
      {
        assert InnerRun(step, base, vs, i, j + 1) == step(m, vs[i], vs[j]);
        m := SupportRelationStep(m, vs[i], vs[j], minY);
        j := j + 1;
      }
      assert OuterPass(step, m0, vs, i + 1) == InnerRun(step, base, vs, i, n);
      i := i + 1;
    }
  }

  /** A step keeps the invariant for any two of the values. */
  ghost predicate StepKeeps(step: PairStep, inv: RelationMap -> bool, vs: seq<PlacedItem>) {
    forall r, i, j :: 0 <= i < |vs| && 0 <= j < |vs| && inv(r) ==> inv(step(r, vs[i], vs[j]))
  }

  /** The support graph is layered below top. */
  function LayeredBelow(top: int): RelationMap -> bool {
    (r: RelationMap) => Layered(r, top)
  }

  /** A step changes the relations of its two items only. */
  ghost predicate StepTouchesOnlyItsItems(step: PairStep) {
    forall r, a, b, p :: a != b && p != a && p != b ==> RelationsOf(step(r, a, b), p) == RelationsOf(r, p)
  }

  /**
   * With a sound oracle and the values between the floor and top, the
   * support step keeps the support graph layered and changes the relations
   * of its two items only.
   */
  lemma SupportStepIsLocal(top: int, vs: seq<PlacedItem>, minY: MinYOracle)
    requires SoundMinY(minY) && forall q {:trigger q in vs} :: q in vs ==> 0 <= q.coords.y <= top
    ensures StepKeeps(SupportStep(minY), LayeredBelow(top), vs) && StepTouchesOnlyItsItems(SupportStep(minY))
  {
    forall r, i, j | 0 <= i < |vs| && 0 <= j < |vs| && LayeredBelow(top)(r)
      ensures LayeredBelow(top)(SupportStep(minY)(r, vs[i], vs[j]))
    {
      assert vs[i] in vs && vs[j] in vs;
      SupportStepKeepsLayered(r, top, vs[i], vs[j], minY);
    }
    forall r, a, b, p | a != b && p != a && p != b
      ensures RelationsOf(SupportStep(minY)(r, a, b), p) == RelationsOf(r, p)
    {
      SupportStepRecordsMatchedPair(r, a, b, minY);
    }
  }

  /** A step that keeps an invariant keeps it over the whole pass. */
  lemma {:induction false} ApplyFirstKeeps(step: PairStep, inv: RelationMap -> bool, m: RelationMap, vs: seq<PlacedItem>,
                                           ps: seq<(nat, nat)>, k: nat)
    requires k <= |ps|
    requires inv(m) && StepKeeps(step, inv, vs)
    ensures inv(ApplyFirst(step, m, vs, ps, k))
  {
    if k > 0 {
      ApplyFirstKeeps(step, inv, m, vs, ps, k - 1);
      if ps[k - 1].0 < |vs| && ps[k - 1].1 < |vs| {
        assert inv(step(ApplyFirst(step, m, vs, ps, k - 1), vs[ps[k - 1].0], vs[ps[k - 1].1]));
      }
    }
  }

  /** The pass changes only relations of listed items: every other item keeps what it had. */
  lemma {:induction false} ApplyFirstTouchesOnlyItsItems(step: PairStep, m: RelationMap, vs: seq<PlacedItem>,
                                                        ps: seq<(nat, nat)>, k: nat, p: PlacedItem)
    requires k <= |ps| && forall j :: 0 <= j < |ps| ==> ps[j].0 != ps[j].1
    requires forall i, j :: 0 <= i < j < |vs| ==> vs[i] != vs[j]
    requires p !in vs && StepTouchesOnlyItsItems(step)
    ensures RelationsOf(ApplyFirst(step, m, vs, ps, k), p) == RelationsOf(m, p)
  {
    if k > 0 {
      ApplyFirstTouchesOnlyItsItems(step, m, vs, ps, k - 1, p);
      var (i, j) := ps[k - 1];
      if i < |vs| && j < |vs| {
        assert vs[i] != vs[j] by {
          if i < j { assert vs[i] != vs[j]; } else { assert vs[j] != vs[i]; }
        }
      }
    }
  }

  // ---------------------------------------------------------------------------
  // Neighbourhood
  // ---------------------------------------------------------------------------

  type NeighborhoodOracle = (PlacedItem, PlacedItem) -> bool

  /** Neighbourhood as recorded: symmetric and never an item beside itself. */
  ghost predicate SymmetricNeighbors(m: RelationMap) {
    (forall p, q :: p in m && q in m[p].neighbors ==> q != p && q in m && p in m[q].neighbors)
  }

  /** Recording a neighbourhood in both directions keeps it symmetric and irreflexive. */
  lemma AddBothKeepsSymmetric(m: RelationMap, a: PlacedItem, b: PlacedItem)
    requires SymmetricNeighbors(m) && a != b
    ensures SymmetricNeighbors(AddNeighbor(AddNeighbor(m, a, b), b, a))
  {
    var m1 := AddNeighbor(m, a, b);
    var m2 := AddNeighbor(m1, b, a);
    forall p, q | p in m2 && q in m2[p].neighbors
      ensures q != p && q in m2 && p in m2[q].neighbors
    {
      assert RelationsOf(m2, p).neighbors == m2[p].neighbors;
      if p == b {
        assert q in Neighbors(m1, b) || q == a;
      } else if p == a {
        assert q in Neighbors(m, a) || q == b;
      } else {
        assert m2[p] == m[p];
      }
      assert forall x :: x in Neighbors(m, q) ==> x in Neighbors(m2, q);
    }
  }

  /** An empty relation map has no neighbourhood, so it is symmetric. */
  lemma EmptyIsSymmetric()
    ensures SymmetricNeighbors(map[])
  {
  }

  // ---------------------------------------------------------------------------
  // The loading unit
  // ---------------------------------------------------------------------------

  class ULD {
    const id: Option<int>
    const properties: ULDProperties
    /** labels to items */
    const placedItems: map<string, PlacedItem>
    /** the iteration order of the keys of placedItems */
    const keyOrder: seq<string>
    var placedItemsSorted: seq<PlacedItem>
    /** the environment relations of the items on this unit */
    var relations: RelationMap
    /** the highest y of an item on this unit */
    ghost const top: int

    ghost predicate Valid()
      reads this
    {
      KeyOrder(keyOrder, placedItems) &&
      (forall l {:trigger l in placedItems} :: l in placedItems ==> 0 <= placedItems[l].coords.y <= top) &&
      (forall q {:trigger q in placedItemsSorted} :: q in placedItemsSorted ==> 0 <= q.coords.y <= top) &&
      Layered(relations, top)
    }

    /** Valid holds for any layered relations. */
    lemma ValidWithRelations(r: RelationMap)
      requires Valid() && Layered(r, top)
      ensures KeyOrder(keyOrder, placedItems) &&
        (forall l {:trigger l in placedItems} :: l in placedItems ==> 0 <= placedItems[l].coords.y <= top) &&
        (forall q {:trigger q in placedItemsSorted} :: q in placedItemsSorted ==> 0 <= q.coords.y <= top)
    {
    }

    /** The values of placedItems in the order the map yields them. */
    function Values(): (vs: seq<PlacedItem>)
      requires KeyOrder(keyOrder, placedItems)
      ensures |vs| == |placedItems|
      ensures forall i :: 0 <= i < |vs| ==> vs[i] == placedItems[keyOrder[i]]
    {
      ValuesInOrder(keyOrder, placedItems)
    }

    /** A unit with no items. */
    constructor Empty(properties: ULDProperties)
      ensures Valid()
      ensures this.properties == properties && id.None?
      ensures placedItems == map[] && keyOrder == [] && placedItemsSorted == [] && relations == map[]
    {
      id := None;
      this.properties := properties;
      placedItems := map[];
      keyOrder := [];
      placedItemsSorted := [];
      relations := map[];
      top := 0;
    }

    /**
     * A unit holding a collection of items: the items sorted ascending by
     * sequence, and each label mapped to the last item of the sorted list
     * carrying it. keyOrder is the iteration order of the resulting map.
     */
    constructor FromItems(properties: ULDProperties, items: seq<PlacedItem>, keyOrder: seq<string>)
      requires OnOrAboveFloor(items)
      requires KeyOrder(keyOrder, MapOf(SortBySequence(items)))
      ensures Valid()
      ensures this.properties == properties && id.None?
      ensures placedItemsSorted == SortBySequence(items) && relations == map[]
      ensures placedItems == MapOf(SortBySequence(items)) && this.keyOrder == keyOrder
    {
      id := None;
      this.properties := properties;
      var sorted := SortBySequence(items);
      var m := PutByLabel(sorted);
      placedItems := m;
      this.keyOrder := keyOrder;
      placedItemsSorted := sorted;
      relations := map[];
      top := TopLevel(sorted);
      new;
      SortedItemsOnOrAboveFloor(items);
      assert KeyOrder(keyOrder, placedItems);
      assert forall l {:trigger l in placedItems} :: l in placedItems ==> 0 <= placedItems[l].coords.y <= top;
      assert forall q {:trigger q in placedItemsSorted} :: q in placedItemsSorted ==> 0 <= q.coords.y <= top;
      assert Layered(relations, top);
    }

    /**
     * A unit taking over the map of a unit under construction: the map as
     * it is, and its values sorted ascending by sequence.
     */
    constructor FromUnderConstruction(properties: ULDProperties, items: map<string, PlacedItem>, keyOrder: seq<string>)
      requires KeyOrder(keyOrder, items)
      requires forall l :: l in items ==> 0 <= items[l].coords.y
      ensures Valid()
      ensures this.properties == properties && id.None?
      ensures placedItems == items && this.keyOrder == keyOrder && relations == map[]
      ensures placedItemsSorted == SortBySequence(ValuesInOrder(keyOrder, items))
    {
      id := None;
      this.properties := properties;
      placedItems := items;
      this.keyOrder := keyOrder;
      var vs := ValuesInOrder(keyOrder, items);
      placedItemsSorted := SortBySequence(vs);
      relations := map[];
      top := TopLevel(vs);
      new;
      assert forall q :: q in placedItemsSorted ==> q in multiset(vs);
      assert forall l :: l in items ==> items[l].coords.y <= top by {
        forall l | l in items ensures items[l].coords.y <= top {
          KeyOrderCoversMap(keyOrder, items, l);
        }
      }
    }

    /**
     * A unit restored from its transfer object: the given properties, made
     * from the object's own, and the items in the object's own order, not
     * sorted.
     */
    constructor FromDto(dto: ULDDto, properties: ULDProperties, keyOrder: seq<string>)
      requires OnOrAboveFloor(dto.placedItems)
      requires KeyOrder(keyOrder, MapOf(dto.placedItems))
      ensures Valid()
      ensures id == dto.id && this.properties == properties
      ensures placedItemsSorted == dto.placedItems
      ensures placedItems == MapOf(dto.placedItems) && this.keyOrder == keyOrder && relations == map[]
    {
      id := dto.id;
      this.properties := properties;
      var m: map<string, PlacedItem> := map[];
      var items: seq<PlacedItem> := [];
      for i := 0 to |dto.placedItems|
        invariant m == MapOf(dto.placedItems[..i]) && items == dto.placedItems[..i]
      {
        PutStep(dto.placedItems, i);
        m := m[dto.placedItems[i].itemLabel := dto.placedItems[i]];
        items := items + [dto.placedItems[i]];
      }
      assert items == dto.placedItems;
      placedItems := m;
      this.keyOrder := keyOrder;
      placedItemsSorted := items;
      relations := map[];
      top := TopLevel(dto.placedItems);
      new;
      MapOfEntries(dto.placedItems);
    }

    /**
     * The constructor from a transfer object: the properties of the kind
     * the object names, then the unit. hullVolume is the volume of the
     * contour's hull. Making the properties throws NoSuchElementException
     * when the side face has no point on the floor.
     */
    static method Restore(dto: ULDDto, hullVolume: int, keyOrder: seq<string>) returns (r: Result<ULD>)
      requires INT_MIN <= dto.properties.width <= INT_MAX && INT_MIN <= dto.properties.depth <= INT_MAX
      requires OnOrAboveFloor(dto.placedItems)
      requires KeyOrder(keyOrder, MapOf(dto.placedItems))
      ensures r.Failure? <==> !HasFloorPoint(dto.properties.contourSide)
      ensures r.Failure? ==> r.error == NoSuchElement
      ensures r.Success? ==> fresh(r.value) && r.value.Valid() && r.value.id == dto.id
      ensures r.Success? ==> r.value.properties.kind == KindOf(dto.properties.kind)
      ensures r.Success? ==> r.value.properties.width == dto.properties.width
      ensures r.Success? ==> r.value.properties.depth == dto.properties.depth
      ensures r.Success? ==> r.value.placedItemsSorted == dto.placedItems && r.value.placedItems == MapOf(dto.placedItems)
    {
      var p := ULDProperties.Create(dto.properties, hullVolume);
      if p.Failure? {
        return Failure(p.error);
      }
      var u := new ULD.FromDto(dto, p.value, keyOrder);
      return Success(u);
    }

    /** getItem: the item with the label, if any. */
    function GetItem(itemLabel: string): (r: Option<PlacedItem>)
      ensures r.Some? <==> itemLabel in placedItems
      ensures r.Some? ==> r.value == placedItems[itemLabel]
    {
      if itemLabel in placedItems then Some(placedItems[itemLabel]) else None
    }

    /** getItemCount: the length of the sorted list. */
    method GetItemCount() returns (n: nat)
      ensures n == |placedItemsSorted|
    {
      n := |placedItemsSorted|;
    }

    /** isEmpty: whether the sorted list has no items. */
    method IsEmpty() returns (b: bool)
      ensures b <==> |placedItemsSorted| == 0
    {
      b := |placedItemsSorted| == 0;
    }

    /**
     * getPlacedItemsSortedTopDown: the items in reverse sequence order.
     * The reversal is done on a view of the unit's own list, so the unit's
     * list is reversed too.
     */
    method GetPlacedItemsSortedTopDown() returns (r: seq<PlacedItem>)
      requires Valid()
      modifies this`placedItemsSorted
      ensures Valid()
      ensures r == Reversed(old(placedItemsSorted)) && placedItemsSorted == r
    {
      var i := 0;
      var s := placedItemsSorted;
      var rev: seq<PlacedItem> := [];
      while i < |s|
        invariant 0 <= i <= |s|
        invariant rev == Reversed(s[..i])
      {
        assert s[..i + 1] == s[..i] + [s[i]];
        ReversedAppend(s[..i], s[i]);
        rev := [s[i]] + rev;
        i := i + 1;
      }
      assert s[..|s|] == s;
      placedItemsSorted := rev;
      ReversedHasSameItems(s);
      r := rev;
    }

    /**
     * getNumberOfSupportedSides: the number of distinct sides of the item
     * at which some item of the unit stands, each item counting for its
     * first side in the order right, left, back, front.
     */
    method GetNumberOfSupportedSides(item: PlacedItem, o: SideOracle) returns (n: nat)
      ensures n == |SidesOf(placedItemsSorted, item, o)|
      ensures n <= 4
    {
      var sides: set<PackingSide> := {};
      var k := 0;
      while k < |placedItemsSorted|
        invariant 0 <= k <= |placedItemsSorted|
        invariant sides == SidesOf(placedItemsSorted[..k], item, o)
      {
        var pi := placedItemsSorted[k];
        assert placedItemsSorted[..k + 1][..k] == placedItemsSorted[..k];
        if o.isRightNeighborOf(pi, item) {
          sides := sides + {Right};
        } else if o.isLeftNeighborOf(pi, item) {
          sides := sides + {Left};
        } else if o.isBehind(pi, item) {
          sides := sides + {Back};
        } else if o.isInFrontOf(pi, item) {
          sides := sides + {Front};
        }
        k := k + 1;
      }
      assert placedItemsSorted[..k] == placedItemsSorted;
      AtMostFourSides(sides);
      n := |sides|;
    }

    /**
     * calculateItemSupportStructure: the pairwise support relation for
     * every pair of positions i < j of the map's values, in loop order,
     * the item at i taking the part of this item.
     */
    method CalculateItemSupportStructure(minY: MinYOracle)
      requires Valid() && SoundMinY(minY)
      modifies this`relations
      ensures Valid()
      ensures relations == ApplyPairs(SupportStep(minY), old(relations), Values(), LoopPairs(OuterRuns(|Values()|), |Values()|))
    {
      var vs := Values();
      ghost var m0 := relations;
      relations := SupportPass(relations, vs, minY);
      OuterPassIsLoopPairs(SupportStep(minY), m0, vs, OuterRuns(|vs|));
      assert forall q {:trigger q in vs} :: q in vs ==> 0 <= q.coords.y <= top;
      SupportStepIsLocal(top, vs, minY);
      ApplyFirstKeeps(SupportStep(minY), LayeredBelow(top), m0, vs, LoopPairs(OuterRuns(|vs|), |vs|), |LoopPairs(OuterRuns(|vs|), |vs|)|);
    }

    /**
     * calculateNeighbors: every two distinct items of the sorted list that
     * the neighbourhood test accepts, each pair examined once (in the order
     * the earlier item finds the later one), are recorded as neighbours of
     * each other.
     */
    method CalculateNeighbors(isNeighbor: NeighborhoodOracle)
      requires Valid() && SymmetricNeighbors(relations)
      modifies this`relations
      ensures Valid() && SymmetricNeighbors(relations)
      ensures NeighborsRecorded(old(relations), relations, placedItemsSorted, isNeighbor)
    {
      ghost var m0 := relations;
      var r := NeighborPass(relations, placedItemsSorted, isNeighbor, top);
      assert NeighborsRecorded(m0, r, placedItemsSorted, isNeighbor);
      ValidWithRelations(r);
      relations := r;
    }
  }

  /**
   * Run a of the outer loop meets position b of the inner loop with a
   * recording: the later item has not been checked yet, the two differ and
   * the neighbourhood test accepts them.
   */
  predicate NeighborMatched(items: seq<PlacedItem>, a: nat, b: nat, isNeighbor: NeighborhoodOracle)
    requires a < |items| && b < |items|
  {
    items[b] !in items[..a] && items[a] != items[b] && isNeighbor(items[a], items[b])
  }

  /** The relations after run a of the outer loop has visited the positions 0 .. b - 1. */
  function NeighborInner(m: RelationMap, items: seq<PlacedItem>, a: nat, b: nat, isNeighbor: NeighborhoodOracle): RelationMap
    requires a < |items| && b <= |items|
  {
    if b == 0 then m
    else
      var m' := NeighborInner(m, items, a, b - 1, isNeighbor);
      if NeighborMatched(items, a, b - 1, isNeighbor)
      then AddNeighbor(AddNeighbor(m', items[a], items[b - 1]), items[b - 1], items[a])
      else m'
  }

  /** The relations after the first a runs of the outer loop. */
  function NeighborOuter(m: RelationMap, items: seq<PlacedItem>, a: nat, isNeighbor: NeighborhoodOracle): RelationMap
    requires a <= |items|
  {
    if a == 0 then m
    else NeighborInner(NeighborOuter(m, items, a - 1, isNeighbor), items, a - 1, |items|, isNeighbor)
  }

  /** The nested loops of calculateNeighbors over the sorted items, with the checked list as a prefix. */
  method NeighborPass(m0: RelationMap, items: seq<PlacedItem>, isNeighbor: NeighborhoodOracle, ghost top: int)
    returns (m: RelationMap)
    requires Layered(m0, top) && SymmetricNeighbors(m0)
    ensures m == NeighborOuter(m0, items, |items|, isNeighbor)
    ensures Layered(m, top) && SymmetricNeighbors(m) && NeighborsRecorded(m0, m, items, isNeighbor)
  {
    m := m0;
    var checked: seq<PlacedItem> := [];
    for a := 0 to |items|
      invariant checked == items[..a]
      invariant m == NeighborOuter(m0, items, a, isNeighbor)
    {
      var item := items[a];
      ghost var base := m;
      for b := 0 to |items|
        invariant m == NeighborInner(base, items, a, b, isNeighbor)
      {
        var other := items[b];
        ghost var before := m;
        if other !in checked && item != other && isNeighbor(item, other) {
          m := AddNeighbor(AddNeighbor(m, item, other), other, item);
        }
        assert NeighborInner(base, items, a, b + 1, isNeighbor) ==
          if NeighborMatched(items, a, b, isNeighbor)
          then AddNeighbor(AddNeighbor(before, items[a], items[b]), items[b], items[a])
          else before;
      }
      assert NeighborOuter(m0, items, a + 1, isNeighbor) == NeighborInner(base, items, a, |items|, isNeighbor);
      checked := checked + [item];
    }
    NeighborPassFacts(m0, items, isNeighbor, top);
  }

  /** Every neighbourhood recorded in m is still recorded in m'. */
  ghost predicate NeighborsIncluded(m: RelationMap, m': RelationMap) {
    forall p, q :: q in Neighbors(m, p) ==> q in Neighbors(m', p)
  }

  /** Recording a pair in both directions keeps what was recorded and adds the pair. */
  lemma AddBothGrows(m: RelationMap, a: PlacedItem, b: PlacedItem)
    ensures var m' := AddNeighbor(AddNeighbor(m, a, b), b, a);
      NeighborsIncluded(m, m') && b in Neighbors(m', a) && a in Neighbors(m', b)
  {
  }

  /** One run of the inner loop keeps the neighbourhood symmetric. */
  lemma {:induction false} NeighborInnerSymmetric(m: RelationMap, items: seq<PlacedItem>, a: nat, b: nat,
                                                  isNeighbor: NeighborhoodOracle)
    requires a < |items| && b <= |items|
    requires SymmetricNeighbors(m)
    ensures SymmetricNeighbors(NeighborInner(m, items, a, b, isNeighbor))
  {
    if b > 0 {
      NeighborInnerSymmetric(m, items, a, b - 1, isNeighbor);
      if NeighborMatched(items, a, b - 1, isNeighbor) {
        AddBothKeepsSymmetric(NeighborInner(m, items, a, b - 1, isNeighbor), items[a], items[b - 1]);
      }
    }
  }

  /** One run of the inner loop changes neighbourhoods only, and only of listed items. */
  lemma {:induction false} NeighborInnerOnlyAmong(m0: RelationMap, m: RelationMap, items: seq<PlacedItem>, a: nat, b: nat,
                                                  isNeighbor: NeighborhoodOracle)
    requires a < |items| && b <= |items|
    requires NeighborsOnlyAmong(m0, m, items)
    ensures NeighborsOnlyAmong(m0, NeighborInner(m, items, a, b, isNeighbor), items)
  {
    if b > 0 {
      NeighborInnerOnlyAmong(m0, m, items, a, b - 1, isNeighbor);
      if NeighborMatched(items, a, b - 1, isNeighbor) {
        RecordNeighborsStep(m0, NeighborInner(m, items, a, b - 1, isNeighbor), items, items[a], items[b - 1]);
      }
    }
  }

  /** One run of the inner loop keeps every earlier neighbourhood and records each pair it tests successfully. */
  lemma {:induction false} NeighborInnerRecords(m: RelationMap, items: seq<PlacedItem>, a: nat, b: nat,
                                                isNeighbor: NeighborhoodOracle, c: nat)
    requires a < |items| && c < b <= |items|
    ensures NeighborsIncluded(m, NeighborInner(m, items, a, b, isNeighbor))
    ensures NeighborMatched(items, a, c, isNeighbor) ==>
      items[c] in Neighbors(NeighborInner(m, items, a, b, isNeighbor), items[a]) &&
      items[a] in Neighbors(NeighborInner(m, items, a, b, isNeighbor), items[c])
  {
    var m' := NeighborInner(m, items, a, b - 1, isNeighbor);
    var r := NeighborInner(m, items, a, b, isNeighbor);
    if NeighborMatched(items, a, b - 1, isNeighbor) {
      AddBothGrows(m', items[a], items[b - 1]);
    }
    assert NeighborsIncluded(m', r);
    if c < b - 1 {
      NeighborInnerRecords(m, items, a, b - 1, isNeighbor, c);
      IncludedTransitive(m, m', r);
      if NeighborMatched(items, a, c, isNeighbor) {
        assert items[c] in Neighbors(m', items[a]) && items[a] in Neighbors(m', items[c]);
      }
    } else if b - 1 > 0 {
      NeighborInnerRecords(m, items, a, b - 1, isNeighbor, 0);
      IncludedTransitive(m, m', r);
    }
  }

  lemma IncludedTransitive(m: RelationMap, m': RelationMap, m'': RelationMap)
    requires NeighborsIncluded(m, m') && NeighborsIncluded(m', m'')
    ensures NeighborsIncluded(m, m'')
  {
  }

  /** A whole inner run keeps every earlier neighbourhood (also when the list is empty). */
  lemma NeighborInnerGrows(m: RelationMap, items: seq<PlacedItem>, a: nat, isNeighbor: NeighborhoodOracle)
    requires a < |items|
    ensures NeighborsIncluded(m, NeighborInner(m, items, a, |items|, isNeighbor))
  {
    NeighborInnerRecords(m, items, a, |items|, isNeighbor, 0);
  }

  /** The first a runs of the outer loop keep the neighbourhood symmetric. */
  lemma {:induction false} NeighborOuterSymmetric(m0: RelationMap, items: seq<PlacedItem>, a: nat,
                                                  isNeighbor: NeighborhoodOracle)
    requires a <= |items| && SymmetricNeighbors(m0)
    ensures SymmetricNeighbors(NeighborOuter(m0, items, a, isNeighbor))
  {
    if a > 0 {
      NeighborOuterSymmetric(m0, items, a - 1, isNeighbor);
      NeighborInnerSymmetric(NeighborOuter(m0, items, a - 1, isNeighbor), items, a - 1, |items|, isNeighbor);
    }
  }

  /** The first a runs of the outer loop change neighbourhoods only, and only of listed items. */
  lemma {:induction false} NeighborOuterOnlyAmong(m0: RelationMap, items: seq<PlacedItem>, a: nat,
                                                  isNeighbor: NeighborhoodOracle)
    requires a <= |items|
    ensures NeighborsOnlyAmong(m0, NeighborOuter(m0, items, a, isNeighbor), items)
  {
    if a == 0 {
      NeighborsOnlyAmongReflexive(m0);
    } else {
      NeighborOuterOnlyAmong(m0, items, a - 1, isNeighbor);
      NeighborInnerOnlyAmong(m0, NeighborOuter(m0, items, a - 1, isNeighbor), items, a - 1, |items|, isNeighbor);
    }
  }

  /** The first a runs of the outer loop keep every earlier neighbourhood and record every pair they test successfully. */
  lemma {:induction false} NeighborOuterRecords(m0: RelationMap, items: seq<PlacedItem>, a: nat,
                                                isNeighbor: NeighborhoodOracle)
    requires a <= |items|
    ensures NeighborsIncluded(m0, NeighborOuter(m0, items, a, isNeighbor))
    ensures forall k, c :: 0 <= k < a && 0 <= c < |items| && NeighborMatched(items, k, c, isNeighbor) ==>
      items[c] in Neighbors(NeighborOuter(m0, items, a, isNeighbor), items[k]) &&
      items[k] in Neighbors(NeighborOuter(m0, items, a, isNeighbor), items[c])
  {
    if a > 0 {
      NeighborOuterRecords(m0, items, a - 1, isNeighbor);
      var m' := NeighborOuter(m0, items, a - 1, isNeighbor);
      var r := NeighborOuter(m0, items, a, isNeighbor);
      NeighborInnerGrows(m', items, a - 1, isNeighbor);
      IncludedTransitive(m0, m', r);
      forall k, c | 0 <= k < a && 0 <= c < |items| && NeighborMatched(items, k, c, isNeighbor)
        ensures items[c] in Neighbors(r, items[k]) && items[k] in Neighbors(r, items[c])
      {
        if k == a - 1 {
          NeighborInnerRecords(m', items, a - 1, |items|, isNeighbor, c);
        }
      }
    }
  }

  /** Every pair the pass matches is recorded as neighbours in both directions. */
  ghost predicate RecordsMatched(m: RelationMap, items: seq<PlacedItem>, isNeighbor: NeighborhoodOracle) {
    forall a, b :: 0 <= a < |items| && 0 <= b < |items| && NeighborMatched(items, a, b, isNeighbor) ==>
      items[b] in Neighbors(m, items[a]) && items[a] in Neighbors(m, items[b])
  }

  /**
   * What calculateNeighbors does to the relations m, giving m': it keeps
   * every recorded neighbourhood, records each pair it tests successfully in
   * both directions, and changes nothing else than neighbourhoods of the items.
   */
  ghost predicate NeighborsRecorded(m: RelationMap, m': RelationMap, items: seq<PlacedItem>, isNeighbor: NeighborhoodOracle) {
    NeighborsOnlyAmong(m, m', items) && NeighborsIncluded(m, m') && RecordsMatched(m', items, isNeighbor)
  }

  /** The whole pass of calculateNeighbors, as the method states it. */
  lemma NeighborPassFacts(m0: RelationMap, items: seq<PlacedItem>, isNeighbor: NeighborhoodOracle, top: int)
    requires Layered(m0, top) && SymmetricNeighbors(m0)
    ensures Layered(NeighborOuter(m0, items, |items|, isNeighbor), top)
    ensures SymmetricNeighbors(NeighborOuter(m0, items, |items|, isNeighbor))
    ensures NeighborsRecorded(m0, NeighborOuter(m0, items, |items|, isNeighbor), items, isNeighbor)
  {
    var a := |items|;
    NeighborOuterSymmetric(m0, items, a, isNeighbor);
    NeighborOuterOnlyAmong(m0, items, a, isNeighbor);
    SameSupportKeepsLayered(m0, NeighborOuter(m0, items, a, isNeighbor), top);
    NeighborOuterRecords(m0, items, a, isNeighbor);
  }

  /**
   * The relations differ only in neighbourhoods, and only for items of
   * the list: the items below and on top stay as they were.
   */
  ghost predicate NeighborsOnlyAmong(m: RelationMap, m': RelationMap, items: seq<PlacedItem>) {
    (forall p :: ItemsBelow(m', p) == ItemsBelow(m, p) && ItemsOnTop(m', p) == ItemsOnTop(m, p)) &&
    (forall p :: p !in items ==> RelationsOf(m', p) == RelationsOf(m, p))
  }

  lemma NeighborsOnlyAmongReflexive(m: RelationMap)
    ensures forall items :: NeighborsOnlyAmong(m, m, items)
  {
  }

  /** One recorded pair of neighbours of listed items changes neighbourhoods only, and only of listed items. */
  lemma RecordNeighborsStep(m0: RelationMap, m: RelationMap, items: seq<PlacedItem>, a: PlacedItem, b: PlacedItem)
    requires NeighborsOnlyAmong(m0, m, items)
    requires a in items && b in items
    ensures NeighborsOnlyAmong(m0, AddNeighbor(AddNeighbor(m, a, b), b, a), items)
  {
    AddNeighborKeepsSupport(m, a, b);
  }

  /** A key listed in the key order is in the map, and every key of the map is listed. */
  lemma KeyOrderCoversMap(keys: seq<string>, m: map<string, PlacedItem>, l: string)
    requires KeyOrder(keys, m) && l in m
    ensures l in keys && m[l] in ValuesInOrder(keys, m)
  {
    var ks := set i | 0 <= i < |keys| :: keys[i];
    DistinctCard(keys);
    SubsetOfEqualSize(ks, m.Keys);
    assert l in ks;
    var i :| 0 <= i < |keys| && keys[i] == l;
    assert ValuesInOrder(keys, m)[i] == m[l];
  }

  /** A list of distinct keys has as many elements as it has different elements. */
  lemma {:induction false} DistinctCard(keys: seq<string>)
    requires forall i, j :: 0 <= i < j < |keys| ==> keys[i] != keys[j]
    ensures |set i | 0 <= i < |keys| :: keys[i]| == |keys|
  {
    if keys != [] {
      var init := keys[..|keys| - 1];
      DistinctCard(init);
      var s := set i | 0 <= i < |keys| :: keys[i];
      var t := set i | 0 <= i < |init| :: init[i];
      assert s == t + {keys[|keys| - 1]};
      assert keys[|keys| - 1] !in t;
    }
  }

  /** Recording a pair of neighbours changes no support relation and no relation of a third item. */
  lemma AddNeighborKeepsSupport(m: RelationMap, a: PlacedItem, b: PlacedItem)
    ensures var m' := AddNeighbor(AddNeighbor(m, a, b), b, a);
      (forall p :: ItemsBelow(m', p) == ItemsBelow(m, p) && ItemsOnTop(m', p) == ItemsOnTop(m, p)) &&
      (forall p :: p != a && p != b ==> RelationsOf(m', p) == RelationsOf(m, p))
  {
  }

  /** Layering depends on the support relations only. */
  lemma SameSupportKeepsLayered(m: RelationMap, m': RelationMap, top: int)
    requires Layered(m, top)
    requires forall p :: ItemsBelow(m', p) == ItemsBelow(m, p) && ItemsOnTop(m', p) == ItemsOnTop(m, p)
    ensures Layered(m', top)
  {
    forall p | p in m' ensures
      (forall q {:trigger q in m'[p].below} :: q in m'[p].below ==> 0 <= q.coords.y < p.coords.y) &&
      (forall q {:trigger q in m'[p].onTop} :: q in m'[p].onTop ==> p.coords.y < q.coords.y <= top)
    {
      assert m'[p].below == ItemsBelow(m, p) && m'[p].onTop == ItemsOnTop(m, p);
      LayeredRelationsOf(m, top, p);
    }
  }

  function Reversed(s: seq<PlacedItem>): (r: seq<PlacedItem>)
    ensures |r| == |s|
    ensures forall i :: 0 <= i < |s| ==> r[i] == s[|s| - 1 - i]
  {
    if s == [] then [] else Reversed(s[1..]) + [s[0]]
  }

  lemma ReversedAppend(s: seq<PlacedItem>, x: PlacedItem)
    ensures Reversed(s + [x]) == [x] + Reversed(s)
  {
    assert |Reversed(s + [x])| == |[x] + Reversed(s)|;
    assert forall i :: 0 <= i < |s| + 1 ==> Reversed(s + [x])[i] == ([x] + Reversed(s))[i];
  }

  lemma ReversedHasSameItems(s: seq<PlacedItem>)
    ensures forall q :: q in Reversed(s) <==> q in s
  {
    forall q | q in s ensures q in Reversed(s) {
      var i :| 0 <= i < |s| && s[i] == q;
      assert Reversed(s)[|s| - 1 - i] == q;
    }
  }

  /** Reversing twice gives the original order back: calling getPlacedItemsSortedTopDown twice restores the unit's list. */
  lemma ReversedTwice(s: seq<PlacedItem>)
    ensures Reversed(Reversed(s)) == s
  {
    assert |Reversed(Reversed(s))| == |s|;
    assert forall i :: 0 <= i < |s| ==> Reversed(Reversed(s))[i] == s[i];
  }

  // ---------------------------------------------------------------------------
  // Deep equality
  // ---------------------------------------------------------------------------

  /** The placement data deepEquals compares: position and rotation. */
  predicate SamePlacement(p: PlacedItem, q: PlacedItem) {
    p.coords.x == q.coords.x && p.coords.y == q.coords.y && p.coords.z == q.coords.z &&
    RotationState(p.shape) == RotationState(q.shape)
  }

  /**
   * deepEquals over a list of the first unit's items: false at the first
   * item whose label the second unit lacks or whose placement differs.
   */
  function DeepEqualsFrom(items: seq<PlacedItem>, second: map<string, PlacedItem>): (b: bool)
  {
    if items == [] then true
    else if items[0].itemLabel !in second || !SamePlacement(items[0], second[items[0].itemLabel]) then false
    else DeepEqualsFrom(items[1..], second)
  }

  /** deepEquals(first, second), on the first unit's sorted list and the second unit's label map. */
  function DeepEquals(first: ULD, second: ULD): (b: bool)
    reads first, second
  {
    DeepEqualsFrom(first.placedItemsSorted, second.placedItems)
  }

  /**
   * deepEquals holds exactly when every item of the first unit has an
   * item under the same label in the second with the same position and
   * rotation; further items of the second unit do not matter.
   */
  lemma {:induction false} DeepEqualsFromIff(items: seq<PlacedItem>, second: map<string, PlacedItem>)
    ensures DeepEqualsFrom(items, second) <==>
      forall k :: 0 <= k < |items| ==>
        items[k].itemLabel in second && SamePlacement(items[k], second[items[k].itemLabel])
  {
    if items != [] {
      DeepEqualsFromIff(items[1..], second);
      assert forall k :: 1 <= k < |items| ==> items[k] == items[1..][k - 1];
    }
  }

  /** Items of the second unit that the first unit does not mention never change the verdict. */
  lemma DeepEqualsIgnoresExtraItems(items: seq<PlacedItem>, second: map<string, PlacedItem>, l: string, q: PlacedItem)
    requires forall k :: 0 <= k < |items| ==> items[k].itemLabel != l
    ensures DeepEqualsFrom(items, second[l := q]) == DeepEqualsFrom(items, second)
  {
    DeepEqualsFromIff(items, second);
    DeepEqualsFromIff(items, second[l := q]);
  }

  /** A unit's list is deep-equal to its own map when each item is the one its label maps to. */
  lemma DeepEqualsReflexive(items: seq<PlacedItem>, m: map<string, PlacedItem>)
    requires forall k :: 0 <= k < |items| ==> items[k].itemLabel in m && m[items[k].itemLabel] == items[k]
    ensures DeepEqualsFrom(items, m)
  {
    DeepEqualsFromIff(items, m);
  }
}
