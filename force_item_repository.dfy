/** The store of force records, keyed by the placed item they belong to. */
module ForceItemRepositories {
  import opened Wrappers
  import opened PlacedItems
  import opened Forces

  type ForceItemMap = map<PlacedItem, ForceItem>

  /**
   * getForceItemsOnTop as a value: the records of the given items in their
   * order, or an IllegalStateException for the first one without a record.
   */
  function ForceItemsOnTop(items: ForceItemMap, ups: seq<PlacedItem>): Result<seq<ForceItem>> {
    if ups == [] then Success([])
    else
      match ForceItemsOnTop(items, ups[..|ups| - 1])
      case Failure(e) => Failure(e)
      case Success(fs) =>
        if ups[|ups| - 1] in items then Success(fs + [items[ups[|ups| - 1]]]) else Failure(IllegalState)
  }

  /**
   * The lookup succeeds exactly when every item has a record, and then
   * yields one record per item, in order; otherwise it throws an
   * IllegalStateException.
   */
  lemma {:induction false} ForceItemsOnTopLooksUpEach(items: ForceItemMap, ups: seq<PlacedItem>)
    ensures ForceItemsOnTop(items, ups).Success? <==> forall q :: q in ups ==> q in items
    ensures ForceItemsOnTop(items, ups).Failure? ==> ForceItemsOnTop(items, ups).error == IllegalState
    ensures ForceItemsOnTop(items, ups).Success? ==>
      |ForceItemsOnTop(items, ups).value| == |ups| &&
      forall k :: 0 <= k < |ups| ==> ForceItemsOnTop(items, ups).value[k] == items[ups[k]]
  {
    if ups != [] {
      var init := ups[..|ups| - 1];
      ForceItemsOnTopLooksUpEach(items, init);
      assert forall q :: q in ups <==> q in init || q == ups[|ups| - 1];
    }
  }

  /** The lookup reads only the records of the items asked for. */
  lemma {:induction false} ForceItemsOnTopReadsOnlyThose(items: ForceItemMap, items': ForceItemMap, ups: seq<PlacedItem>)
    requires forall q :: q in ups ==> (q in items <==> q in items') && (q in items ==> items[q] == items'[q])
    ensures ForceItemsOnTop(items, ups) == ForceItemsOnTop(items', ups)
  {
    if ups != [] {
      ForceItemsOnTopReadsOnlyThose(items, items', ups[..|ups| - 1]);
    }
  }

  class ForceItemRepository {
    var piToFiMap: ForceItemMap

    constructor()
      ensures piToFiMap == map[]
    {
      piToFiMap := map[];
    }

    /** addForceItem: the record is stored under its own item, replacing an earlier one. */
    method AddForceItem(f: ForceItem)
      modifies this
      ensures piToFiMap == old(piToFiMap)[f.placedItem := f]
    {
      piToFiMap := piToFiMap[f.placedItem := f];
    }

    /** getForceItemsOnTop: one lookup per item on top, in the order of the relations. */
    method GetForceItemsOnTop(p: PlacedItem, rels: RelationMap) returns (r: Result<seq<ForceItem>>)
      ensures r == ForceItemsOnTop(piToFiMap, ItemsOnTop(rels, p))
    {
      var ups := ItemsOnTop(rels, p);
      var fs: seq<ForceItem> := [];
      for k := 0 to |ups|
        invariant ForceItemsOnTop(piToFiMap, ups[..k]) == Success(fs)
      {
        assert ups[..k + 1][..k] == ups[..k];
        if ups[k] in piToFiMap {
          fs := fs + [piToFiMap[ups[k]]];
        } else {
          FailureStaysFailure(piToFiMap, ups, k + 1);
          return Failure(IllegalState);
        }
      }
      assert ups[..|ups|] == ups;
      r := Success(fs);
    }

    /** relatedForceItemExists */
    predicate RelatedForceItemExists(p: PlacedItem)
      reads this
    {
      p in piToFiMap
    }

    /** getRelatedForceItem: null (None) for an item without a record. */
    function GetRelatedForceItem(p: PlacedItem): Option<ForceItem>
      reads this
    {
      if p in piToFiMap then Some(piToFiMap[p]) else None
    }

    /** After adding a record, its item has one and get returns it; every other item keeps its record or its lack of one. */
    lemma AddedRecordIsFound(m: ForceItemMap, f: ForceItem, q: PlacedItem)
      requires piToFiMap == m[f.placedItem := f]
      ensures RelatedForceItemExists(f.placedItem) && GetRelatedForceItem(f.placedItem) == Some(f)
      ensures q != f.placedItem ==> GetRelatedForceItem(q) == (if q in m then Some(m[q]) else None)
    {
    }
  }

  /** Once an item of a prefix has no record, every longer prefix fails the same way. */
  lemma {:induction false} FailureStaysFailure(items: ForceItemMap, ups: seq<PlacedItem>, k: nat)
    requires k <= |ups| && ForceItemsOnTop(items, ups[..k]).Failure?
    ensures ForceItemsOnTop(items, ups) == ForceItemsOnTop(items, ups[..k])
    decreases |ups| - k
  {
    if k < |ups| {
      assert ups[..k + 1][..k] == ups[..k];
      FailureStaysFailure(items, ups, k + 1);
    } else {
      assert ups[..k] == ups;
    }
  }
}
