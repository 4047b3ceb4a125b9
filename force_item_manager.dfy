/**
 * Creation of force records on demand. A record needs the records of the
 * items on top of its item, so creating one first creates the missing
 * records above it, depth first; every record is created once and kept.
 */
module ForceItemManagers {
  import opened Wrappers
  import opened Shapes
  import opened PlacedItems
  import opened Forces
  import opened ForceItemRepositories
  import opened ForceItemCalculation

  /** The repository's records after an operation, and the exception that ended it, if any. */
  datatype Store = Store(items: ForceItemMap, failure: Option<Exception>)

  /**
   * The force calculation createRelatedForceItem hands the records on top
   * to: the record of an item from the records of the items on top of it,
   * at a horizon. The manager holds it as a value, so that the recursion is
   * verified against what the calculation returns rather than how.
   */
  type Calculation = (PlacedItem, seq<ForceItem>, nat) -> Result<ForceItem>

  /** ForceItemCalculation.createForceItem, over the relations and the geometry of the items. */
  function ForceCalculation(rels: RelationMap, g: GeometryOracle): Calculation {
    (p: PlacedItem, onTop: seq<ForceItem>, m: nat) => CreateForceItem(p, onTop, m, rels, g)
  }

  /** createRelatedForceItem: the record of p from the stored records of the items on top of it. */
  function CreateRelated(calculate: Calculation, items: ForceItemMap, p: PlacedItem, maxSequence: nat, rels: RelationMap)
    : Result<ForceItem>
  {
    match ForceItemsOnTop(items, ItemsOnTop(rels, p))
    case Failure(e) => Failure(e)
    case Success(onTop) => calculate(p, onTop, maxSequence)
  }

  /**
   * How a record is created from the stored records, at a horizon. The
   * recursion of the manager is stated for any creation; CreationOf is
   * createRelatedForceItem's, and CreatesOwnRecords and ReadsRecordsOnTop
   * list what the recursion needs of it.
   */
  type Creation = (ForceItemMap, PlacedItem, nat) -> Result<ForceItem>

  function CreationOf(calculate: Calculation, rels: RelationMap): Creation {
    (items: ForceItemMap, p: PlacedItem, m: nat) => CreateRelated(calculate, items, p, m, rels)
  }

  /**
   * createAndSaveRelatedForceItem: first the items on top get their records,
   * then p's record is created and added. The relations are layered below
   * top, so the recursion climbs strictly upwards and ends.
   */
  function CreateAndSave(create: Creation, items: ForceItemMap, p: PlacedItem, maxSequence: nat, rels: RelationMap, top: int)
    : Store
    requires Layered(rels, top) && p.coords.y <= top
    decreases top - p.coords.y, 1, 0
  {
    var s := AssureOnTop(create, items, p, 0, maxSequence, rels, top);
    if s.failure.Some? then s
    else
      match create(s.items, p, maxSequence)
      case Failure(e) => Store(s.items, Some(e))
      case Success(f) => Store(s.items[f.placedItem := f], None)
  }

  /** assureForceItemsOnTopAlreadyExist, from the k-th item on top of p onwards. */
  function AssureOnTop(create: Creation, items: ForceItemMap, p: PlacedItem, k: nat, maxSequence: nat, rels: RelationMap, top: int)
    : Store
    requires Layered(rels, top) && p.coords.y <= top && k <= |ItemsOnTop(rels, p)|
    decreases top - p.coords.y, 0, |ItemsOnTop(rels, p)| - k
  {
    var ups := ItemsOnTop(rels, p);
    if k == |ups| then Store(items, None)
    else
      LayeredRelationsOf(rels, top, p);
      assert ups[k] in ups;
      var s := if ups[k] in items then Store(items, None) else CreateAndSave(create, items, ups[k], maxSequence, rels, top);
      if s.failure.Some? then s else AssureOnTop(create, s.items, p, k + 1, maxSequence, rels, top)
  }

  /** getOrCreateForceItemFromPlacedItem on the records: a stored record is reused, otherwise it is created. */
  function GetOrCreate(create: Creation, items: ForceItemMap, p: PlacedItem, maxSequence: nat, rels: RelationMap, top: int)
    : Store
    requires Layered(rels, top) && p.coords.y <= top
  {
    if p in items then Store(items, None) else CreateAndSave(create, items, p, maxSequence, rels, top)
  }

  /** getRelatedForceItem on the records: None stands for Java's null. */
  function Lookup(items: ForceItemMap, p: PlacedItem): Option<ForceItem> {
    if p in items then Some(items[p]) else None
  }

  /** Records already stored keep their values. */
  ghost predicate Extends(a: ForceItemMap, b: ForceItemMap) {
    forall q :: q in a ==> q in b && b[q] == a[q]
  }

  /** The two maps agree on the given items: both have a record or neither has, and a record is the same. */
  ghost predicate SameRecordsOf(a: ForceItemMap, b: ForceItemMap, ups: seq<PlacedItem>) {
    forall q :: q in ups ==> (q in a <==> q in b) && (q in a ==> a[q] == b[q])
  }

  /**
   * Every stored record belongs to its key, the items on top of its item
   * have records too, and it is the one the creation computes for its item
   * from the stored records at the horizon its own stability row spans. The
   * horizon is read off the record because the assessment may shorten it
   * between records.
   */
  ghost predicate Faithful(create: Creation, rels: RelationMap, items: ForceItemMap) {
    forall q :: q in items ==>
      items[q].placedItem == q &&
      (forall u :: u in ItemsOnTop(rels, q) ==> u in items) &&
      create(items, q, |items[q].stabilityPerSequence|) == Success(items[q])
  }

  /** An exception createAndSave lets through: the force calculation throws nothing else. */
  predicate CreationException(e: Exception) {
    e == IllegalArgument || e == Topology
  }

  /**
   * What the recursion needs of a creation: once the items on top of p have
   * records, it throws only what the force calculation throws, and a record
   * it returns belongs to p and spans the horizon.
   */
  ghost predicate CreatesOwnRecords(create: Creation, rels: RelationMap) {
    forall items, p, m ::
      (forall u :: u in ItemsOnTop(rels, p) ==> u in items) ==>
        (create(items, p, m).Failure? ==> CreationException(create(items, p, m).error)) &&
        (create(items, p, m).Success? ==>
          create(items, p, m).value.placedItem == p && |create(items, p, m).value.stabilityPerSequence| == m)
  }

  /** A creation reads only the records of the items on top of p. */
  ghost predicate ReadsRecordsOnTop(create: Creation, rels: RelationMap) {
    forall items, items', p, m {:trigger SameRecordsOf(items, items', ItemsOnTop(rels, p)), create(items, p, m)} ::
      SameRecordsOf(items, items', ItemsOnTop(rels, p)) ==> create(items, p, m) == create(items', p, m)
  }

  /**
   * What the manager needs of the force calculation: it throws only an
   * IllegalArgumentException or a TopologyException, and a record it returns
   * belongs to the item and spans the horizon.
   */
  ghost predicate SoundCalculation(calculate: Calculation) {
    forall p, onTop, m ::
      (calculate(p, onTop, m).Failure? ==> CreationException(calculate(p, onTop, m).error)) &&
      (calculate(p, onTop, m).Success? ==>
        calculate(p, onTop, m).value.placedItem == p && |calculate(p, onTop, m).value.stabilityPerSequence| == m)
  }

  /** ForceItemCalculation.createForceItem is sound. */
  lemma ForceCalculationIsSound(rels: RelationMap, g: GeometryOracle)
    ensures SoundCalculation(ForceCalculation(rels, g))
  {
    var calculate := ForceCalculation(rels, g);
    forall p, onTop, m
      ensures calculate(p, onTop, m).Failure? ==> CreationException(calculate(p, onTop, m).error)
      ensures calculate(p, onTop, m).Success? ==>
        calculate(p, onTop, m).value.placedItem == p && |calculate(p, onTop, m).value.stabilityPerSequence| == m
    {
      CreationFailures(p, onTop, m, rels, g);
      if CreateForceItem(p, onTop, m, rels, g).Success? {
        CreatedItemSpansItsSteps(p, onTop, m, rels, g);
      }
    }
  }

  /** createRelatedForceItem over a sound calculation has both properties the recursion needs. */
  lemma CreationOfIsSound(calculate: Calculation, rels: RelationMap)
    requires SoundCalculation(calculate)
    ensures CreatesOwnRecords(CreationOf(calculate, rels), rels) && ReadsRecordsOnTop(CreationOf(calculate, rels), rels)
  {
    var create := CreationOf(calculate, rels);
    forall items, p, m | forall u :: u in ItemsOnTop(rels, p) ==> u in items
      ensures create(items, p, m).Failure? ==> CreationException(create(items, p, m).error)
      ensures create(items, p, m).Success? ==>
        create(items, p, m).value.placedItem == p && |create(items, p, m).value.stabilityPerSequence| == m
    {
      ForceItemsOnTopLooksUpEach(items, ItemsOnTop(rels, p));
    }
    forall items, items', p, m | SameRecordsOf(items, items', ItemsOnTop(rels, p))
      ensures create(items, p, m) == create(items', p, m)
    {
      ForceItemsOnTopReadsOnlyThose(items, items', ItemsOnTop(rels, p));
    }
  }

  /** Adding a record for an item without one keeps every record faithful, as long as the new one is. */
  lemma AddKeepsFaithful(create: Creation, rels: RelationMap, items: ForceItemMap, p: PlacedItem, f: ForceItem)
    requires ReadsRecordsOnTop(create, rels) && Faithful(create, rels, items)
    requires p !in items && f.placedItem == p
    requires forall u :: u in ItemsOnTop(rels, p) ==> u in items
    requires create(items, p, |f.stabilityPerSequence|) == Success(f)
    ensures Faithful(create, rels, items[p := f])
  {
    var items' := items[p := f];
    forall q | q in items'
      ensures items'[q].placedItem == q
      ensures forall u :: u in ItemsOnTop(rels, q) ==> u in items'
      ensures create(items', q, |items'[q].stabilityPerSequence|) == Success(items'[q])
    {
      assert SameRecordsOf(items, items', ItemsOnTop(rels, q));
      assert create(items, q, |items'[q].stabilityPerSequence|) == create(items', q, |items'[q].stabilityPerSequence|);
    }
  }

  /**
   * createAndSave for an item without a record keeps the stored records,
   * adds records only for p and items above it, all at the current horizon, throws only what the
   * creation throws (never the IllegalStateException of a missing record on
   * top), and on success has stored p's record at the current horizon.
   */
  lemma {:induction false} CreateAndSaveGrows(create: Creation, items: ForceItemMap, p: PlacedItem, maxSequence: nat, rels: RelationMap, top: int)
    requires Layered(rels, top) && p.coords.y <= top
    requires CreatesOwnRecords(create, rels) && p !in items
    ensures var s := CreateAndSave(create, items, p, maxSequence, rels, top);
      Extends(items, s.items) &&
      (forall q :: q in s.items && q !in items ==>
         p.coords.y <= q.coords.y && |s.items[q].stabilityPerSequence| == maxSequence) &&
      (s.failure.Some? ==> CreationException(s.failure.value)) &&
      (s.failure.None? ==> p in s.items && |s.items[p].stabilityPerSequence| == maxSequence)
    decreases top - p.coords.y, 1, 0
  {
    var s := AssureOnTop(create, items, p, 0, maxSequence, rels, top);
    AssureOnTopGrows(create, items, p, 0, maxSequence, rels, top);
    if s.failure.None? {
      assert p !in s.items;
      var c := create(s.items, p, maxSequence);
      assert CreateAndSave(create, items, p, maxSequence, rels, top) ==
        if c.Failure? then Store(s.items, Some(c.error)) else Store(s.items[c.value.placedItem := c.value], None);
    }
  }

  /**
   * The loop of assureForceItemsOnTopAlreadyExist from the k-th item on:
   * with the earlier items on top stored, it keeps the stored records, adds
   * records only for items above p, all at the current horizon, throws only what the creation throws
   * and, on success, leaves every item on top of p with a record.
   */
  lemma {:induction false} AssureOnTopGrows(create: Creation, items: ForceItemMap, p: PlacedItem, k: nat, maxSequence: nat, rels: RelationMap, top: int)
    requires Layered(rels, top) && p.coords.y <= top && k <= |ItemsOnTop(rels, p)|
    requires CreatesOwnRecords(create, rels)
    requires forall j :: 0 <= j < k ==> ItemsOnTop(rels, p)[j] in items
    ensures var s := AssureOnTop(create, items, p, k, maxSequence, rels, top);
      Extends(items, s.items) &&
      (forall q :: q in s.items && q !in items ==>
         p.coords.y < q.coords.y && |s.items[q].stabilityPerSequence| == maxSequence) &&
      (s.failure.Some? ==> CreationException(s.failure.value)) &&
      (s.failure.None? ==> forall u :: u in ItemsOnTop(rels, p) ==> u in s.items)
    decreases top - p.coords.y, 0, |ItemsOnTop(rels, p)| - k
  {
    var ups := ItemsOnTop(rels, p);
    if k < |ups| {
      LayeredRelationsOf(rels, top, p);
      assert ups[k] in ups;
      var r := AssureOnTop(create, items, p, k, maxSequence, rels, top);
      if ups[k] in items {
        assert r == AssureOnTop(create, items, p, k + 1, maxSequence, rels, top);
        AssureOnTopGrows(create, items, p, k + 1, maxSequence, rels, top);
      } else {
        var s := CreateAndSave(create, items, ups[k], maxSequence, rels, top);
        CreateAndSaveGrows(create, items, ups[k], maxSequence, rels, top);
        if s.failure.None? {
          assert r == AssureOnTop(create, s.items, p, k + 1, maxSequence, rels, top);
          AssureOnTopGrows(create, s.items, p, k + 1, maxSequence, rels, top);
        } else {
          assert r == s;
        }
      }
    }
  }

  /** createAndSave for an item without a record keeps all records faithful. */
  lemma {:induction false} CreateAndSaveKeepsFaithful(create: Creation, items: ForceItemMap, p: PlacedItem, maxSequence: nat, rels: RelationMap, top: int)
    requires Layered(rels, top) && p.coords.y <= top
    requires CreatesOwnRecords(create, rels) && ReadsRecordsOnTop(create, rels)
    requires Faithful(create, rels, items) && p !in items
    ensures Faithful(create, rels, CreateAndSave(create, items, p, maxSequence, rels, top).items)
    decreases top - p.coords.y, 1, 0, 0
  {
    var s := AssureOnTop(create, items, p, 0, maxSequence, rels, top);
    AssureOnTopKeepsFaithful(create, items, p, 0, maxSequence, rels, top);
    AssureOnTopGrows(create, items, p, 0, maxSequence, rels, top);
    if s.failure.None? && create(s.items, p, maxSequence).Success? {
      assert p !in s.items;
      AddKeepsFaithful(create, rels, s.items, p, create(s.items, p, maxSequence).value);
    }
  }

  /** The loop of assureForceItemsOnTopAlreadyExist keeps all records faithful. */
  lemma {:induction false} AssureOnTopKeepsFaithful(create: Creation, items: ForceItemMap, p: PlacedItem, k: nat, maxSequence: nat, rels: RelationMap, top: int)
    requires Layered(rels, top) && p.coords.y <= top && k <= |ItemsOnTop(rels, p)|
    requires CreatesOwnRecords(create, rels) && ReadsRecordsOnTop(create, rels)
    requires Faithful(create, rels, items)
    ensures Faithful(create, rels, AssureOnTop(create, items, p, k, maxSequence, rels, top).items)
    decreases top - p.coords.y, 0, |ItemsOnTop(rels, p)| - k, 1
  {
    var ups := ItemsOnTop(rels, p);
    if k == |ups| {
      assert AssureOnTop(create, items, p, k, maxSequence, rels, top).items == items;
    } else {
      if ups[k] in items {
        assert AssureOnTop(create, items, p, k, maxSequence, rels, top) == AssureOnTop(create, items, p, k + 1, maxSequence, rels, top);
        AssureOnTopKeepsFaithful(create, items, p, k + 1, maxSequence, rels, top);
      } else {
        CreatingOnTopKeepsFaithful(create, items, p, k, maxSequence, rels, top);
      }
    }
  }

  /** The step of that loop that creates the record of the k-th item on top. */
  lemma {:induction false} CreatingOnTopKeepsFaithful(create: Creation, items: ForceItemMap, p: PlacedItem, k: nat, maxSequence: nat, rels: RelationMap, top: int)
    requires Layered(rels, top) && p.coords.y <= top && k < |ItemsOnTop(rels, p)|
    requires CreatesOwnRecords(create, rels) && ReadsRecordsOnTop(create, rels)
    requires Faithful(create, rels, items) && ItemsOnTop(rels, p)[k] !in items
    ensures Faithful(create, rels, AssureOnTop(create, items, p, k, maxSequence, rels, top).items)
    decreases top - p.coords.y, 0, |ItemsOnTop(rels, p)| - k, 0
  {
    var ups := ItemsOnTop(rels, p);
    LayeredRelationsOf(rels, top, p);
    assert ups[k] in ups;
    var s := CreateAndSave(create, items, ups[k], maxSequence, rels, top);
    CreateAndSaveKeepsFaithful(create, items, ups[k], maxSequence, rels, top);
    if s.failure.None? {
      assert AssureOnTop(create, items, p, k, maxSequence, rels, top) == AssureOnTop(create, s.items, p, k + 1, maxSequence, rels, top);
      AssureOnTopKeepsFaithful(create, s.items, p, k + 1, maxSequence, rels, top);
    } else {
      assert AssureOnTop(create, items, p, k, maxSequence, rels, top) == s;
    }
  }

  /** One turn of the loop of assureForceItemsOnTopAlreadyExist. */
  lemma AssureOnTopStep(create: Creation, items: ForceItemMap, p: PlacedItem, k: nat, maxSequence: nat, rels: RelationMap, top: int)
    requires Layered(rels, top) && p.coords.y <= top && k < |ItemsOnTop(rels, p)|
    ensures ItemsOnTop(rels, p)[k].coords.y <= top
    ensures ItemsOnTop(rels, p)[k] in items ==>
      AssureOnTop(create, items, p, k, maxSequence, rels, top) == AssureOnTop(create, items, p, k + 1, maxSequence, rels, top)
    ensures ItemsOnTop(rels, p)[k] !in items ==>
      var s := CreateAndSave(create, items, ItemsOnTop(rels, p)[k], maxSequence, rels, top);
      AssureOnTop(create, items, p, k, maxSequence, rels, top) ==
        if s.failure.Some? then s else AssureOnTop(create, s.items, p, k + 1, maxSequence, rels, top)
  {
    LayeredRelationsOf(rels, top, p);
    assert ItemsOnTop(rels, p)[k] in ItemsOnTop(rels, p);
  }

  /**
   * getOrCreate from faithful records: it keeps the stored records and their
   * faithfulness, creates records only at the current horizon, throws only
   * what the creation throws, and otherwise leaves p with a record.
   */
  lemma GetOrCreateKeepsRecords(create: Creation, items: ForceItemMap, p: PlacedItem, maxSequence: nat, rels: RelationMap, top: int)
    requires Layered(rels, top) && p.coords.y <= top
    requires CreatesOwnRecords(create, rels) && ReadsRecordsOnTop(create, rels) && Faithful(create, rels, items)
    ensures var s := GetOrCreate(create, items, p, maxSequence, rels, top);
      Extends(items, s.items) && Faithful(create, rels, s.items) &&
      (forall q :: q in s.items && q !in items ==> |s.items[q].stabilityPerSequence| == maxSequence) &&
      (s.failure.Some? ==> CreationException(s.failure.value)) &&
      (s.failure.None? ==> p in s.items)
  {
    if p !in items {
      CreateAndSaveGrows(create, items, p, maxSequence, rels, top);
      CreateAndSaveKeepsFaithful(create, items, p, maxSequence, rels, top);
    }
  }

  /**
   * getOrCreate over a sound calculation, from faithful records: it throws
   * only what the calculation throws, and otherwise returns a record of p,
   * which is createRelatedForceItem's result for p from the records of the
   * items on top; a newly created one spans the current horizon.
   */
  lemma GetOrCreateFindsFaithfulRecord(calculate: Calculation, items: ForceItemMap, p: PlacedItem, maxSequence: nat, rels: RelationMap, top: int)
    requires Layered(rels, top) && p.coords.y <= top && SoundCalculation(calculate) && Faithful(CreationOf(calculate, rels), rels, items)
    ensures var s := GetOrCreate(CreationOf(calculate, rels), items, p, maxSequence, rels, top);
      (s.failure.Some? ==> CreationException(s.failure.value)) &&
      (s.failure.None? ==>
        Lookup(s.items, p).Some? && Lookup(s.items, p).value.placedItem == p &&
        CreateRelated(calculate, s.items, p, |Lookup(s.items, p).value.stabilityPerSequence|, rels) == Success(Lookup(s.items, p).value) &&
        (p !in items ==> |Lookup(s.items, p).value.stabilityPerSequence| == maxSequence))
  {
    CreationOfIsSound(calculate, rels);
    GetOrCreateKeepsRecords(CreationOf(calculate, rels), items, p, maxSequence, rels, top);
  }

  /**
   * The record manager. The relations stand for what the placed items
   * carry; the force calculation is ForceItemCalculation.createForceItem
   * over them and the items' geometry; top bounds the heights and is
   * needed only for the termination of the depth-first creation.
   */
  class ForceItemManager {
    const forceItemRepository: ForceItemRepository
    var maxSequence: nat
    const rels: RelationMap
    const calculate: Calculation
    ghost const top: int

    ghost predicate Valid() {
      Layered(rels, top)
    }

    constructor(maxSequence: nat, rels: RelationMap, g: GeometryOracle, ghost top: int)
      requires Layered(rels, top)
      ensures Valid() && this.maxSequence == maxSequence && this.rels == rels && calculate == ForceCalculation(rels, g) && this.top == top
      ensures fresh(forceItemRepository) && forceItemRepository.piToFiMap == map[]
    {
      this.maxSequence := maxSequence;
      this.rels := rels;
      this.calculate := ForceCalculation(rels, g);
      this.top := top;
      forceItemRepository := new ForceItemRepository();
    }

    /** getOrCreateForceItemFromPlacedItem; an exception of the creation comes back as a Failure. */
    method GetOrCreateForceItemFromPlacedItem(p: PlacedItem) returns (r: Result<Option<ForceItem>>)
      requires Valid() && p.coords.y <= top
      modifies forceItemRepository
      ensures var s := GetOrCreate(CreationOf(calculate, rels), old(forceItemRepository.piToFiMap), p, maxSequence, rels, top);
        forceItemRepository.piToFiMap == s.items &&
        r == (if s.failure.Some? then Failure(s.failure.value) else Success(Lookup(s.items, p)))
    {
      if forceItemRepository.RelatedForceItemExists(p) {
        return Success(forceItemRepository.GetRelatedForceItem(p));
      }
      var failure := CreateAndSaveRelatedForceItem(p);
      if failure.Some? {
        return Failure(failure.value);
      }
      r := Success(forceItemRepository.GetRelatedForceItem(p));
    }

    /** assureForceItemsOnTopAlreadyExist: every item on top of p without a record gets one, in order. */
    method AssureForceItemsOnTopAlreadyExist(p: PlacedItem) returns (failure: Option<Exception>)
      requires Valid() && p.coords.y <= top
      modifies forceItemRepository
      ensures Store(forceItemRepository.piToFiMap, failure) ==
              AssureOnTop(CreationOf(calculate, rels), old(forceItemRepository.piToFiMap), p, 0, maxSequence, rels, top)
      decreases top - p.coords.y, 0
    {
      var ups := ItemsOnTop(rels, p);
      ghost var goal := AssureOnTop(CreationOf(calculate, rels), forceItemRepository.piToFiMap, p, 0, maxSequence, rels, top);
      failure := None;
      var k := 0;
      while k < |ups| && failure.None?
        invariant k <= |ups|
        invariant failure.None? ==> AssureOnTop(CreationOf(calculate, rels), forceItemRepository.piToFiMap, p, k, maxSequence, rels, top) == goal
        invariant failure.Some? ==> Store(forceItemRepository.piToFiMap, failure) == goal
      {
        AssureOnTopStep(CreationOf(calculate, rels), forceItemRepository.piToFiMap, p, k, maxSequence, rels, top);
        if !forceItemRepository.RelatedForceItemExists(ups[k]) {
          assert ups[k] in ups;
          failure := CreateAndSaveRelatedForceItem(ups[k]);
        }
        k := k + 1;
      }
    }

    /** createAndSaveRelatedForceItem */
    method CreateAndSaveRelatedForceItem(p: PlacedItem) returns (failure: Option<Exception>)
      requires Valid() && p.coords.y <= top
      modifies forceItemRepository
      ensures Store(forceItemRepository.piToFiMap, failure) ==
              CreateAndSave(CreationOf(calculate, rels), old(forceItemRepository.piToFiMap), p, maxSequence, rels, top)
      decreases top - p.coords.y, 1
    {
      failure := AssureForceItemsOnTopAlreadyExist(p);
      if failure.Some? {
        return;
      }
      var f := CreateRelatedForceItem(p);
      if f.Failure? {
        return Some(f.error);
      }
      forceItemRepository.AddForceItem(f.value);
    }

    /** createRelatedForceItem */
    method CreateRelatedForceItem(p: PlacedItem) returns (r: Result<ForceItem>)
      ensures r == CreateRelated(calculate, forceItemRepository.piToFiMap, p, maxSequence, rels)
    {
      var onTop := forceItemRepository.GetForceItemsOnTop(p, rels);
      if onTop.Failure? {
        return Failure(onTop.error);
      }
      r := calculate(p, onTop.value, maxSequence);
    }

    function GetMaxSequence(): nat
      reads this
    {
      maxSequence
    }

    method SetMaxSequence(m: nat)
      modifies this
      ensures maxSequence == m
    {
      maxSequence := m;
    }
  }
}
