/**
 * The Science-of-Static assessment of a loading sequence: one stability row
 * per item, from the force records the manager creates on demand, scored
 * by the assessment scorer; an item the force calculation cannot handle
 * makes the whole assessment -1.
 */
module ScienceOfStaticAssessment {
  import opened Wrappers
  import opened Shapes
  import opened PlacedItems
  import opened Forces
  import opened ForceItemRepositories
  import opened ForceItemManagers

  /** The stability of an item per step: Some(true) stable, Some(false) unstable, None not yet placed. */
  type Row = seq<Option<bool>>

  /**
   * The assessment scorer: whether it shortens the horizon after each row,
   * the horizon it picks from a row, and the score of the whole matrix.
   */
  datatype Scorer = Scorer(shouldOptimize: bool, optimizeMaxSequence: Row -> nat, scoreStabilityMatrix: seq<Row> -> real)

  /** All items lie no higher than top, the bound of the layered relations. */
  predicate WithinTop(itemList: seq<PlacedItem>, top: int) {
    forall i :: 0 <= i < |itemList| ==> itemList[i].coords.y <= top
  }

  /**
   * testItemsStability on the records: a bottom item is stable at every step
   * of the current horizon; any other item's row is the stability row of
   * its record, created on demand. A missing record would be dereferenced as
   * null.
   */
  function ItemStability(create: Creation, items: ForceItemMap, p: PlacedItem, maxSequence: nat, rels: RelationMap, top: int)
    : (ForceItemMap, Result<Row>)
    requires Layered(rels, top) && p.coords.y <= top
  {
    if IsBottomItem(p) then (items, Success(seq(maxSequence, _ => Some(true))))
    else
      var s := GetOrCreate(create, items, p, maxSequence, rels, top);
      (s.items,
       if s.failure.Some? then Failure(s.failure.value)
       else match Lookup(s.items, p)
         case None => Failure(NullPointer)
         case Some(f) => Success(f.stabilityPerSequence))
  }

  /** The state of assesItemList's loop: the records, the horizon, the rows so far and the exception that ended it. */
  datatype Progress = Progress(items: ForceItemMap, maxSequence: nat, rows: seq<Row>, failure: Option<Exception>)

  /**
   * One turn of assesItemList's loop: after an exception nothing more
   * happens; otherwise the item's row is appended and a scorer that
   * optimizes picks the next horizon from it.
   */
  function Turn(create: Creation, scorer: Scorer, a: Progress, p: PlacedItem, rels: RelationMap, top: int): Progress
    requires Layered(rels, top) && p.coords.y <= top
  {
    if a.failure.Some? then a
    else
      var (items, row) := ItemStability(create, a.items, p, a.maxSequence, rels, top);
      match row
      case Failure(e) => Progress(items, a.maxSequence, a.rows, Some(e))
      case Success(r) =>
        Progress(items, if scorer.shouldOptimize then scorer.optimizeMaxSequence(r) else a.maxSequence, a.rows + [r], None)
  }

  /** The loop of assesItemList after its first k turns; the horizon starts at the number of items. */
  function RowsUpTo(create: Creation, scorer: Scorer, itemList: seq<PlacedItem>, k: nat, rels: RelationMap, top: int)
    : Progress
    requires Layered(rels, top) && WithinTop(itemList, top) && k <= |itemList|
  {
    if k == 0 then Progress(map[], |itemList|, [], None)
    else Turn(create, scorer, RowsUpTo(create, scorer, itemList, k - 1, rels, top), itemList[k - 1], rels, top)
  }

  /**
   * assesItemList: the scorer's score of the full matrix, or -1 when a
   * TopologyException or an IllegalArgumentException ended the loop; any
   * other exception escapes.
   */
  function Assessment(create: Creation, scorer: Scorer, itemList: seq<PlacedItem>, rels: RelationMap, top: int): Result<real>
    requires Layered(rels, top) && WithinTop(itemList, top)
  {
    var a := RowsUpTo(create, scorer, itemList, |itemList|, rels, top);
    match a.failure
    case None => Success(scorer.scoreStabilityMatrix(a.rows))
    case Some(e) => if e == Topology || e == IllegalArgument then Success(-1.0) else Failure(e)
  }

  /** Once a turn has thrown, the later turns do not run. */
  lemma {:induction false} RowsStopAtFailure(create: Creation, scorer: Scorer, itemList: seq<PlacedItem>, k: nat, rels: RelationMap, top: int)
    requires Layered(rels, top) && WithinTop(itemList, top) && k <= |itemList|
    requires RowsUpTo(create, scorer, itemList, k, rels, top).failure.Some?
    ensures RowsUpTo(create, scorer, itemList, |itemList|, rels, top) == RowsUpTo(create, scorer, itemList, k, rels, top)
    decreases |itemList| - k
  {
    if k < |itemList| {
      RowsStopAtFailure(create, scorer, itemList, k + 1, rels, top);
    }
  }

  /**
   * The state after k turns matches the records: they are faithful, a turn
   * throws only what the creation throws, and without an exception there
   * is one row per item so far, where a bottom item's row is true throughout
   * and any other item's row is the stability row of its own record. With a
   * scorer that does not optimize, the horizon stays the number of items
   * and every record and row spans it.
   */
  ghost predicate RowsMatchRecords(create: Creation, scorer: Scorer, itemList: seq<PlacedItem>, k: nat, rels: RelationMap, a: Progress)
    requires k <= |itemList|
  {
    Faithful(create, rels, a.items) &&
    (a.failure.Some? ==> CreationException(a.failure.value)) &&
    (a.failure.None? ==>
       |a.rows| == k &&
       forall i :: 0 <= i < k ==>
         if IsBottomItem(itemList[i]) then forall s :: 0 <= s < |a.rows[i]| ==> a.rows[i][s] == Some(true)
         else itemList[i] in a.items && a.rows[i] == a.items[itemList[i]].stabilityPerSequence) &&
    (!scorer.shouldOptimize ==>
       a.maxSequence == |itemList| &&
       (forall q :: q in a.items ==> |a.items[q].stabilityPerSequence| == |itemList|) &&
       (a.failure.None? ==> forall i :: 0 <= i < |a.rows| ==> |a.rows[i]| == |itemList|))
  }

  /** A turn keeps the state matching the records. */
  lemma TurnKeepsRecords(create: Creation, scorer: Scorer, itemList: seq<PlacedItem>, k: nat, rels: RelationMap, top: int, a: Progress)
    requires Layered(rels, top) && WithinTop(itemList, top) && k < |itemList|
    requires CreatesOwnRecords(create, rels) && ReadsRecordsOnTop(create, rels)
    requires RowsMatchRecords(create, scorer, itemList, k, rels, a)
    ensures RowsMatchRecords(create, scorer, itemList, k + 1, rels, Turn(create, scorer, a, itemList[k], rels, top))
  {
    var p := itemList[k];
    if a.failure.None? && !IsBottomItem(p) {
      GetOrCreateKeepsRecords(create, a.items, p, a.maxSequence, rels, top);
      var s := GetOrCreate(create, a.items, p, a.maxSequence, rels, top);
      RecordRowKeepsRecords(create, scorer, itemList, k, rels, a, s, Turn(create, scorer, a, p, rels, top));
    }
  }

  /** The turn of an item that is not at the bottom, from what getOrCreate keeps of the records. */
  lemma RecordRowKeepsRecords(create: Creation, scorer: Scorer, itemList: seq<PlacedItem>, k: nat, rels: RelationMap,
                              a: Progress, s: Store, b: Progress)
    requires k < |itemList| && a.failure.None? && !IsBottomItem(itemList[k])
    requires RowsMatchRecords(create, scorer, itemList, k, rels, a)
    requires Extends(a.items, s.items) && Faithful(create, rels, s.items)
    requires forall q :: q in s.items && q !in a.items ==> |s.items[q].stabilityPerSequence| == a.maxSequence
    requires s.failure.Some? ==> CreationException(s.failure.value)
    requires s.failure.None? ==> itemList[k] in s.items
    requires b == if s.failure.Some? then Progress(s.items, a.maxSequence, a.rows, s.failure)
      else var row := s.items[itemList[k]].stabilityPerSequence;
        Progress(s.items, if scorer.shouldOptimize then scorer.optimizeMaxSequence(row) else a.maxSequence, a.rows + [row], None)
    ensures RowsMatchRecords(create, scorer, itemList, k + 1, rels, b)
  {
    if s.failure.None? {
      assert forall i :: 0 <= i < k ==> !IsBottomItem(itemList[i]) ==>
        itemList[i] in a.items && b.rows[i] == s.items[itemList[i]].stabilityPerSequence;
    }
  }

  /** After k turns the state matches the records. */
  lemma {:induction false} RowsAreRecords(create: Creation, scorer: Scorer, itemList: seq<PlacedItem>, k: nat, rels: RelationMap, top: int)
    requires Layered(rels, top) && WithinTop(itemList, top) && k <= |itemList|
    requires CreatesOwnRecords(create, rels) && ReadsRecordsOnTop(create, rels)
    ensures RowsMatchRecords(create, scorer, itemList, k, rels, RowsUpTo(create, scorer, itemList, k, rels, top))
  {
    if k > 0 {
      RowsAreRecords(create, scorer, itemList, k - 1, rels, top);
      TurnKeepsRecords(create, scorer, itemList, k - 1, rels, top, RowsUpTo(create, scorer, itemList, k - 1, rels, top));
    }
  }

  /**
   * Over a sound calculation, such as the force calculation, the assessment
   * never lets an exception escape: it is -1 exactly when a turn threw, and
   * otherwise the scorer's score of a matrix with one row per item, where a
   * bottom item's row is true throughout and any other item's row is that
   * of the record createRelatedForceItem computes for it from the records
   * of the items on top; without optimization every row spans all items.
   */
  lemma AssessmentNeverThrows(calculate: Calculation, scorer: Scorer, itemList: seq<PlacedItem>, rels: RelationMap, top: int)
    requires Layered(rels, top) && WithinTop(itemList, top) && SoundCalculation(calculate)
    ensures var a := RowsUpTo(CreationOf(calculate, rels), scorer, itemList, |itemList|, rels, top);
      var r := Assessment(CreationOf(calculate, rels), scorer, itemList, rels, top);
      r.Success? &&
      (a.failure.Some? ==> r.value == -1.0) &&
      (a.failure.None? ==>
         r.value == scorer.scoreStabilityMatrix(a.rows) && |a.rows| == |itemList| &&
         (forall i :: 0 <= i < |itemList| ==>
            if IsBottomItem(itemList[i]) then forall s :: 0 <= s < |a.rows[i]| ==> a.rows[i][s] == Some(true)
            else itemList[i] in a.items && a.items[itemList[i]].placedItem == itemList[i] &&
                 a.rows[i] == a.items[itemList[i]].stabilityPerSequence &&
                 CreateRelated(calculate, a.items, itemList[i], |a.rows[i]|, rels) == Success(a.items[itemList[i]])) &&
         (!scorer.shouldOptimize ==> forall i :: 0 <= i < |itemList| ==> |a.rows[i]| == |itemList|))
  {
    CreationOfIsSound(calculate, rels);
    RowsAreRecords(CreationOf(calculate, rels), scorer, itemList, |itemList|, rels, top);
  }

  /** testItemsStability */
  method TestItemsStability(p: PlacedItem, fiM: ForceItemManager) returns (r: Result<Row>)
    requires fiM.Valid() && p.coords.y <= fiM.top
    modifies fiM.forceItemRepository
    ensures (fiM.forceItemRepository.piToFiMap, r) ==
            ItemStability(CreationOf(fiM.calculate, fiM.rels), old(fiM.forceItemRepository.piToFiMap), p, fiM.maxSequence, fiM.rels, fiM.top)
  {
    if IsBottomItem(p) {
      return Success(seq(fiM.GetMaxSequence(), _ => Some(true)));
    }
    var f := fiM.GetOrCreateForceItemFromPlacedItem(p);
    if f.Failure? {
      return Failure(f.error);
    }
    if f.value.None? {
      return Failure(NullPointer);
    }
    r := Success(f.value.value.stabilityPerSequence);
  }

  lemma RowsUpToNext(create: Creation, scorer: Scorer, itemList: seq<PlacedItem>, k: nat, rels: RelationMap, top: int)
    requires Layered(rels, top) && WithinTop(itemList, top) && k < |itemList|
    ensures RowsUpTo(create, scorer, itemList, k + 1, rels, top) ==
            Turn(create, scorer, RowsUpTo(create, scorer, itemList, k, rels, top), itemList[k], rels, top)
  {
  }

  /**
   * The loop of assesItemList: one row per item into the matrix, the
   * horizon updated after each row when the scorer optimizes; the first
   * exception ends it.
   */
  method FillStabilityMatrix(scorer: Scorer, itemList: seq<PlacedItem>, fiM: ForceItemManager, stabilityMatrix: array<Row>)
    returns (failure: Option<Exception>)
    requires fiM.Valid() && WithinTop(itemList, fiM.top) && stabilityMatrix.Length == |itemList|
    requires fiM.maxSequence == |itemList| && fiM.forceItemRepository.piToFiMap == map[]
    modifies fiM, fiM.forceItemRepository, stabilityMatrix
    ensures var a := RowsUpTo(CreationOf(fiM.calculate, fiM.rels), scorer, itemList, |itemList|, fiM.rels, fiM.top);
      failure == a.failure && (failure.None? ==> stabilityMatrix[..] == a.rows)
  {
    var n := |itemList|;
    failure := None;
    var i := 0;
    ghost var turns := 0;
    ghost var a := RowsUpTo(CreationOf(fiM.calculate, fiM.rels), scorer, itemList, 0, fiM.rels, fiM.top);
    while i < n && failure.None?
      invariant i <= n && turns == (if failure.None? then i else i + 1) && turns <= n
      invariant a == RowsUpTo(CreationOf(fiM.calculate, fiM.rels), scorer, itemList, turns, fiM.rels, fiM.top)
      invariant fiM.forceItemRepository.piToFiMap == a.items && fiM.maxSequence == a.maxSequence
      invariant stabilityMatrix[..i] == a.rows && failure == a.failure
      decreases n - i, if failure.None? then 1 else 0
    {
      RowsUpToNext(CreationOf(fiM.calculate, fiM.rels), scorer, itemList, turns, fiM.rels, fiM.top);
      var row := TestItemsStability(itemList[i], fiM);
      if row.Failure? {
        failure := Some(row.error);
      } else {
        stabilityMatrix[i] := row.value;
        if scorer.shouldOptimize {
          fiM.SetMaxSequence(scorer.optimizeMaxSequence(row.value));
        }
        assert stabilityMatrix[..i + 1] == stabilityMatrix[..i] + [row.value];
        i := i + 1;
      }
      a := Turn(CreationOf(fiM.calculate, fiM.rels), scorer, a, itemList[turns], fiM.rels, fiM.top);
      turns := turns + 1;
    }
    if failure.Some? {
      RowsStopAtFailure(CreationOf(fiM.calculate, fiM.rels), scorer, itemList, turns, fiM.rels, fiM.top);
    } else {
      assert stabilityMatrix[..] == stabilityMatrix[..n];
    }
  }

  /** What assesItemList returns once its loop has ended with the given exception or rows. */
  lemma AssessmentOfLoop(create: Creation, scorer: Scorer, itemList: seq<PlacedItem>, rels: RelationMap, top: int,
                         failure: Option<Exception>, rows: seq<Row>)
    requires Layered(rels, top) && WithinTop(itemList, top)
    requires failure == RowsUpTo(create, scorer, itemList, |itemList|, rels, top).failure
    requires failure.None? ==> rows == RowsUpTo(create, scorer, itemList, |itemList|, rels, top).rows
    ensures Assessment(create, scorer, itemList, rels, top) ==
      if failure.Some? then (if failure.value == Topology || failure.value == IllegalArgument then Success(-1.0) else Failure(failure.value))
      else Success(scorer.scoreStabilityMatrix(rows))
  {
  }

  /**
   * assesItemList. The stability matrix starts as n rows of n nulls and the
   * loop fills it row by row; a TopologyException or an
   * IllegalArgumentException gives -1.
   */
  method AssesItemList(scorer: Scorer, itemList: seq<PlacedItem>, rels: RelationMap, g: GeometryOracle, ghost top: int)
    returns (r: Result<real>)
    requires Layered(rels, top) && WithinTop(itemList, top)
    ensures r == Assessment(CreationOf(ForceCalculation(rels, g), rels), scorer, itemList, rels, top)
  {
    var fiM := new ForceItemManager(|itemList|, rels, g, top);
    var stabilityMatrix := new Row[|itemList|](_ => seq(|itemList|, _ => None));
    var failure := FillStabilityMatrix(scorer, itemList, fiM, stabilityMatrix);
    AssessmentOfLoop(CreationOf(fiM.calculate, rels), scorer, itemList, rels, top, failure, stabilityMatrix[..]);
    if failure.Some? {
      if failure.value == Topology || failure.value == IllegalArgument {
        r := Success(-1.0);
      } else {
        r := Failure(failure.value);
      }
    } else {
      r := Success(scorer.scoreStabilityMatrix(stabilityMatrix[..]));
    }
  }
}
