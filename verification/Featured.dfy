/** Featured slots: at most five active, distinct sort orders under a unique index, and the
    two-pass reorder in one transaction, which first moves the listed slots out of the way and then
    numbers them from 0. The passes are checked update by update, as the index does; `Fits` is the
    exact condition under which both get through. */
module Featured {
  import opened Options
  import opened Sorting

  type Id = string

  const ACTIVE_CAP := 5
  const OFFSET := 1_000_000
  const FEATURED_LIMIT := 5

  datatype Slot = Slot(assetId: Id, sortOrder: int, isActive: bool)
  type Slots = map<Id, Slot>

  datatype Error = AssetNotFound | SlotNotFound | CapReached | UniqueViolation

  predicate UniqueOrders(slots: Slots) {
    forall a, b :: a in slots && b in slots && a != b ==> slots[a].sortOrder != slots[b].sortOrder
  }

  function Active(slots: Slots): set<Id> {
    set id | id in slots && slots[id].isActive
  }

  // ---------------------------------------------------------------- one row at a time

  predicate OrderTaken(slots: Slots, id: Id, order: int) {
    exists other :: other in slots && other != id && slots[other].sortOrder == order
  }

  /** An update of one row's sort order, refused by the unique index when the order is taken. */
  function Placed(slots: Slots, id: Id, order: int): Option<Slots>
    requires id in slots
  {
    if OrderTaken(slots, id, order) then None else Some(slots[id := slots[id].(sortOrder := order)])
  }

  /** `ids[k..]` placed at `base + k`, `base + k + 1`, ..; None as soon as one update is refused. */
  function PlacedAll(slots: Slots, ids: seq<Id>, base: int, k: nat): Option<Slots>
    requires k <= |ids| && forall id :: id in ids ==> id in slots
    decreases |ids| - k
  {
    if k == |ids| then Some(slots)
    else match Placed(slots, ids[k], base + k)
      case None => None
      case Some(next) => PlacedAll(next, ids, base, k + 1)
  }

  /** Both passes of the transaction. */
  function Reordered(slots: Slots, ids: seq<Id>): Option<Slots>
    requires forall id :: id in ids ==> id in slots
  {
    match PlacedAll(slots, ids, OFFSET, 0)
    case None => None
    case Some(parked) => PlacedAllKeys(slots, ids, OFFSET, 0); PlacedAll(parked, ids, 0, 0)
  }

  lemma {:induction false} PlacedAllKeys(slots: Slots, ids: seq<Id>, base: int, k: nat)
    requires k <= |ids| && forall id :: id in ids ==> id in slots
    ensures var r := PlacedAll(slots, ids, base, k); r.Some? ==> r.value.Keys == slots.Keys && Active(r.value) == Active(slots)
    decreases |ids| - k
  {
    if k < |ids| && Placed(slots, ids[k], base + k).Some? {
      var next := Placed(slots, ids[k], base + k).value;
      PlacedAllKeys(next, ids, base, k + 1);
      assert Active(next) == Active(slots);
    }
  }

  // ---------------------------------------------------------------- the service

  ghost predicate AllPresent(slots: Slots, ids: seq<Id>) {
    Distinct(ids) && forall id :: id in ids ==> id in slots
  }

  ghost predicate CanUpdate(slots: Slots, id: Id, isActive: Option<bool>, sortOrder: Option<int>) {
    && id in slots
    && !OrderTaken(slots, id, sortOrder.GetOr(slots[id].sortOrder))
    && (isActive == Some(true) && !slots[id].isActive ==> |Active(slots)| < ACTIVE_CAP)
  }

  ghost function Updated(slots: Slots, id: Id, isActive: Option<bool>, sortOrder: Option<int>): Slots
    requires id in slots
  {
    var row := slots[id];
    slots[id := Slot(row.assetId, sortOrder.GetOr(row.sortOrder), isActive.GetOr(row.isActive))]
  }

  /** `(max(sortOrder) ?? -1) + 1`. */
  ghost predicate IsNextOrder(slots: Slots, order: int) {
    if slots == map[] then order == 0
    else (forall id :: id in slots ==> slots[id].sortOrder < order) && exists id :: id in slots && slots[id].sortOrder == order - 1
  }

  class FeaturedTable {
    var slots: Slots

    method NextOrder() returns (order: int)
      ensures IsNextOrder(slots, order)
    {
      order := 0;
      var todo := slots.Keys;
      ghost var seen: set<Id> := {};
      while todo != {}
        invariant seen + todo == slots.Keys && seen !! todo
        invariant seen == {} ==> order == 0
        invariant seen != {} ==> (forall id :: id in seen ==> slots[id].sortOrder < order) && exists id :: id in seen && slots[id].sortOrder == order - 1
        decreases todo
      {
        var id :| id in todo;
        if todo == slots.Keys || slots[id].sortOrder >= order {
          order := slots[id].sortOrder + 1;
        }
        todo, seen := todo - {id}, seen + {id};
      }
    }

    /** `id` is the fresh id the database assigns. */
    method Create(assets: set<Id>, id: Id, assetId: Id, isActive: bool) returns (r: Result<Id, Error>)
      requires id !in slots
      modifies this
      ensures r.Err? ==> slots == old(slots)
      ensures r == Err(AssetNotFound) <==> assetId !in assets
      ensures r == Err(CapReached) <==>
        assetId in assets && isActive && |set s | s in old(slots) && old(slots)[s].isActive| >= 5
      ensures r == Err(UniqueViolation) <==>
        && assetId in assets && (isActive ==> |set s | s in old(slots) && old(slots)[s].isActive| < 5)
        && exists other :: other in old(slots) && old(slots)[other].assetId == assetId
      ensures r.Ok? <==> assetId in assets && (isActive ==> |Active(old(slots))| < ACTIVE_CAP)
                         && forall other :: other in old(slots) ==> old(slots)[other].assetId != assetId
      ensures r.Ok? ==> r.value == id && exists order :: IsNextOrder(old(slots), order) && slots == old(slots)[id := Slot(assetId, order, isActive)]
    {
      if assetId !in assets {
        return Err(AssetNotFound);
      }
      if isActive && |Active(slots)| >= ACTIVE_CAP {
        return Err(CapReached);
      }
      var order := NextOrder();
      if exists other :: other in slots && slots[other].assetId == assetId {
        return Err(UniqueViolation);
      }
      slots := slots[id := Slot(assetId, order, isActive)];
      return Ok(id);
    }

    method Update(id: Id, isActive: Option<bool>, sortOrder: Option<int>) returns (r: Result<Id, Error>)
      modifies this
      ensures r.Err? ==> slots == old(slots)
      ensures r == Err(SlotNotFound) <==> id !in old(slots)
      ensures r.Ok? ==> CanUpdate(old(slots), id, isActive, sortOrder) && slots == Updated(old(slots), id, isActive, sortOrder)
      ensures id in old(slots) && CanUpdate(old(slots), id, isActive, sortOrder) ==> r == Ok(id)
      ensures r == Err(CapReached) <==>
        && id in old(slots) && isActive == Some(true) && !old(slots)[id].isActive
        && |set s | s in old(slots) && old(slots)[s].isActive| >= 5
      ensures r == Err(UniqueViolation) <==>
        && id in old(slots)
        && !(isActive == Some(true) && !old(slots)[id].isActive && |set s | s in old(slots) && old(slots)[s].isActive| >= 5)
        && exists other :: other in old(slots) && other != id && old(slots)[other].sortOrder ==
             if sortOrder.Some? then sortOrder.value else old(slots)[id].sortOrder
      ensures r.Ok? ==>
        && r.value == id && slots == old(slots)[id := slots[id]]
        && slots[id].assetId == old(slots)[id].assetId
        && slots[id].sortOrder == (if sortOrder.Some? then sortOrder.value else old(slots)[id].sortOrder)
        && slots[id].isActive == (if isActive.Some? then isActive.value else old(slots)[id].isActive)
    {
      if id !in slots {
        return Err(SlotNotFound);
      }
      var row := slots[id];
      if isActive == Some(true) && !row.isActive && |Active(slots)| >= ACTIVE_CAP {
        return Err(CapReached);
      }
      if OrderTaken(slots, id, sortOrder.GetOr(row.sortOrder)) {
        return Err(UniqueViolation);
      }
      slots := slots[id := Slot(row.assetId, sortOrder.GetOr(row.sortOrder), isActive.GetOr(row.isActive))];
      return Ok(id);
    }

    method Remove(id: Id) returns (r: Result<Id, Error>)
      modifies this
      ensures if id in old(slots) then r == Ok(id) && slots == old(slots) - {id} else r == Err(SlotNotFound) && slots == old(slots)
    {
      if id !in slots {
        return Err(SlotNotFound);
      }
      slots := slots - {id};
      return Ok(id);
    }

    method Reorder(orderedIds: seq<Id>) returns (r: Result<nat, Error>)
      modifies this
      ensures !AllPresent(old(slots), orderedIds) ==> r == Err(SlotNotFound) && slots == old(slots)
      ensures AllPresent(old(slots), orderedIds) ==>
        match Reordered(old(slots), orderedIds)
        case Some(after) => r == Ok(|orderedIds|) && slots == after
        case None => r == Err(UniqueViolation) && slots == old(slots)
    {
      var rows := set id | id in orderedIds && id in slots;
      FoundCount(slots, orderedIds);
      if |rows| != |orderedIds| {
        return Err(SlotNotFound);
      }
      var parked := PlaceAll(slots, orderedIds, OFFSET);
      if parked.None? {
        return Err(UniqueViolation);
      }
      PlacedAllKeys(slots, orderedIds, OFFSET, 0);
      var numbered := PlaceAll(parked.value, orderedIds, 0);
      if numbered.None? {
        return Err(UniqueViolation);
      }
      slots := numbered.value;
      return Ok(|orderedIds|);
    }
  }

  /** One pass: an update per id, in order, inside the transaction. */
  method PlaceAll(before: Slots, ids: seq<Id>, base: int) returns (after: Option<Slots>)
    requires forall id :: id in ids ==> id in before
    ensures after == PlacedAll(before, ids, base, 0)
  {
    var working := before;
    var k := 0;
    while k < |ids|
      invariant k <= |ids| && working.Keys == before.Keys
      invariant PlacedAll(working, ids, base, k) == PlacedAll(before, ids, base, 0)
    {
      if OrderTaken(working, ids[k], base + k) {
        return None;
      }
      working := working[ids[k] := working[ids[k]].(sortOrder := base + k)];
      k := k + 1;
    }
    return Some(working);
  }

  lemma FoundCount(slots: Slots, ids: seq<Id>)
    ensures |set id | id in ids && id in slots| == |ids| <==> AllPresent(slots, ids)
  {
    MemberCount(ids);
    var all, found := set id | id in ids, set id | id in ids && id in slots;
    assert found <= all;
    if found != all {
      assert all == found + (all - found);
      assert |found| < |all|;
    } else {
      forall id | id in ids ensures id in slots {
        assert id in all;
      }
    }
  }

  // ---------------------------------------------------------------- when the reorder commits

  /** No slot left out of the list sits where a pass will put one, and no listed slot sits on an
      earlier slot's parking place. */
  ghost predicate Fits(slots: Slots, ids: seq<Id>) {
    && (forall id :: id in slots && id !in ids ==>
         !(0 <= slots[id].sortOrder < |ids|) && !(OFFSET <= slots[id].sortOrder < OFFSET + |ids|))
    && (forall j :: 0 <= j < |ids| && ids[j] in slots ==> !(OFFSET <= slots[ids[j]].sortOrder < OFFSET + j))
  }

  /** The first `k` listed slots moved to `base`, `base + 1`, .. */
  ghost predicate Moved(from: Slots, to: Slots, ids: seq<Id>, base: int, k: nat) {
    && k <= |ids| && to.Keys == from.Keys
    && (forall j :: 0 <= j < k && ids[j] in from ==> to[ids[j]] == from[ids[j]].(sortOrder := base + j))
    && (forall j :: k <= j < |ids| && ids[j] in from ==> to[ids[j]] == from[ids[j]])
    && (forall id :: id in from && id !in ids ==> to[id] == from[id])
  }

  /** What one pass runs into. */
  ghost predicate Blocked(slots: Slots, ids: seq<Id>, base: int, k: nat) {
    (exists id :: id in slots && id !in ids && slots[id].sortOrder == base + k)
    || (exists j :: k < j < |ids| && ids[j] in slots && slots[ids[j]].sortOrder == base + k)
  }

  ghost predicate Unblocked(slots: Slots, ids: seq<Id>, base: int, k: nat) {
    forall i :: k <= i < |ids| ==> !Blocked(slots, ids, base, i)
  }

  lemma {:induction false} PassCommits(from: Slots, cur: Slots, ids: seq<Id>, base: int, k: nat)
    requires AllPresent(from, ids) && Moved(from, cur, ids, base, k)
    ensures PlacedAll(cur, ids, base, k).Some? <==> Unblocked(from, ids, base, k)
    ensures PlacedAll(cur, ids, base, k).Some? ==> Moved(from, PlacedAll(cur, ids, base, k).value, ids, base, |ids|)
    decreases |ids| - k
  {
    if k == |ids| {
      return;
    }
    TakenIsBlocked(from, cur, ids, base, k);
    if OrderTaken(cur, ids[k], base + k) {
      assert Blocked(from, ids, base, k) && PlacedAll(cur, ids, base, k).None?;
    } else {
      var next := Placed(cur, ids[k], base + k).value;
      assert PlacedAll(cur, ids, base, k) == PlacedAll(next, ids, base, k + 1);
      PlacedMoves(from, cur, ids, base, k);
      UnblockedStep(from, ids, base, k);
      PassCommits(from, next, ids, base, k + 1);
    }
  }

  lemma UnblockedStep(slots: Slots, ids: seq<Id>, base: int, k: nat)
    requires k < |ids| && !Blocked(slots, ids, base, k)
    ensures Unblocked(slots, ids, base, k) <==> Unblocked(slots, ids, base, k + 1)
  {
    if Unblocked(slots, ids, base, k + 1) {
      forall i | k <= i < |ids| ensures !Blocked(slots, ids, base, i) {
        assert i == k || k + 1 <= i;
      }
    }
  }

  lemma PlacedMoves(from: Slots, cur: Slots, ids: seq<Id>, base: int, k: nat)
    requires AllPresent(from, ids) && k < |ids| && Moved(from, cur, ids, base, k)
    requires !OrderTaken(cur, ids[k], base + k)
    ensures Moved(from, Placed(cur, ids[k], base + k).value, ids, base, k + 1)
  {
    assert ids[k] in from && cur[ids[k]] == from[ids[k]];
  }

  lemma TakenIsBlocked(from: Slots, cur: Slots, ids: seq<Id>, base: int, k: nat)
    requires AllPresent(from, ids) && k < |ids| && Moved(from, cur, ids, base, k)
    ensures OrderTaken(cur, ids[k], base + k) <==> Blocked(from, ids, base, k)
  {
    if other :| other in cur && other != ids[k] && cur[other].sortOrder == base + k {
      if other in ids {
        var j :| 0 <= j < |ids| && ids[j] == other;
        assert j > k;
      }
    }
    if id :| id in from && id !in ids && from[id].sortOrder == base + k {
      assert id in cur && id != ids[k] && cur[id].sortOrder == base + k;
    }
    if j :| k < j < |ids| && ids[j] in from && from[ids[j]].sortOrder == base + k {
      assert ids[j] in cur && ids[j] != ids[k] && cur[ids[j]].sortOrder == base + k;
    }
  }

  /** The list is numbered 0, 1, .. and nothing else has changed. */
  ghost predicate Numbered(from: Slots, to: Slots, ids: seq<Id>) {
    && to.Keys == from.Keys
    && (forall j :: 0 <= j < |ids| && ids[j] in from ==> to[ids[j]] == from[ids[j]].(sortOrder := j))
    && (forall id :: id in from && id !in ids ==> to[id] == from[id])
  }

  /** The transaction commits if and only if the list fits; it then numbers the list and keeps
      sort orders distinct. */
  lemma ReorderExactly(slots: Slots, ids: seq<Id>)
    requires UniqueOrders(slots) && AllPresent(slots, ids)
    ensures Reordered(slots, ids).Some? <==> Fits(slots, ids)
    ensures Reordered(slots, ids).Some? ==> Numbered(slots, Reordered(slots, ids).value, ids) && UniqueOrders(Reordered(slots, ids).value)
  {
    PassCommits(slots, slots, ids, OFFSET, 0);
    ParkingClear(slots, ids);
    if PlacedAll(slots, ids, OFFSET, 0).Some? {
      var parked := PlacedAll(slots, ids, OFFSET, 0).value;
      PlacesClear(slots, parked, ids);
      PassCommits(parked, parked, ids, 0, 0);
      if Reordered(slots, ids).Some? {
        NumberedUnique(slots, Reordered(slots, ids).value, ids);
      }
    }
  }

  ghost predicate ParksFree(slots: Slots, ids: seq<Id>) {
    && (forall id :: id in slots && id !in ids ==> !(OFFSET <= slots[id].sortOrder < OFFSET + |ids|))
    && (forall j :: 0 <= j < |ids| && ids[j] in slots ==> !(OFFSET <= slots[ids[j]].sortOrder < OFFSET + j))
  }

  ghost predicate PlacesFree(slots: Slots, ids: seq<Id>) {
    forall id :: id in slots && id !in ids ==> !(0 <= slots[id].sortOrder < |ids|)
  }

  lemma ParkingClear(slots: Slots, ids: seq<Id>)
    requires AllPresent(slots, ids)
    ensures (forall i :: 0 <= i < |ids| ==> !Blocked(slots, ids, OFFSET, i)) <==> ParksFree(slots, ids)
  {
    if id :| id in slots && id !in ids && OFFSET <= slots[id].sortOrder < OFFSET + |ids| {
      assert Blocked(slots, ids, OFFSET, slots[id].sortOrder - OFFSET);
    }
    if j :| 0 <= j < |ids| && ids[j] in slots && OFFSET <= slots[ids[j]].sortOrder < OFFSET + j {
      assert Blocked(slots, ids, OFFSET, slots[ids[j]].sortOrder - OFFSET);
    }
  }

  lemma PlacesClear(slots: Slots, parked: Slots, ids: seq<Id>)
    requires AllPresent(slots, ids) && Moved(slots, parked, ids, OFFSET, |ids|)
    ensures (forall i :: 0 <= i < |ids| ==> !Blocked(parked, ids, 0, i)) <==> PlacesFree(slots, ids)
  {
    if id :| id in slots && id !in ids && 0 <= slots[id].sortOrder < |ids| {
      assert Blocked(parked, ids, 0, slots[id].sortOrder);
    }
  }

  lemma NumberedUnique(from: Slots, to: Slots, ids: seq<Id>)
    requires UniqueOrders(from) && AllPresent(from, ids) && Numbered(from, to, ids)
    requires forall id :: id in from && id !in ids ==> !(0 <= from[id].sortOrder < |ids|)
    ensures UniqueOrders(to)
  {
  }

  /** Listing every slot always works while sort orders stay below the parking range. */
  lemma FullReorderCommits(slots: Slots, ids: seq<Id>)
    requires UniqueOrders(slots) && AllPresent(slots, ids)
    requires forall id :: id in slots ==> id in ids && slots[id].sortOrder < OFFSET
    ensures Reordered(slots, ids).Some?
  {
    ReorderExactly(slots, ids);
    forall j | 0 <= j < |ids| && ids[j] in slots ensures !(OFFSET <= slots[ids[j]].sortOrder < OFFSET + j) {
    }
  }

  /** So does a partial list whose left-out slots sit at or above its length. */
  lemma PartialReorderCommits(slots: Slots, ids: seq<Id>)
    requires UniqueOrders(slots) && AllPresent(slots, ids)
    requires forall id :: id in slots ==> slots[id].sortOrder < OFFSET && (id !in ids ==> slots[id].sortOrder >= |ids|)
    ensures Reordered(slots, ids).Some?
  {
    ReorderExactly(slots, ids);
  }

  /** But the transaction does trip over the unique index when a left-out slot is in the way. */
  lemma PartialReorderTrips(a: Id, b: Id, x: Id, y: Id)
    requires a != b
    ensures var slots := map[a := Slot(x, 0, true), b := Slot(y, 1, true)];
      UniqueOrders(slots) && AllPresent(slots, [b]) && Reordered(slots, [b]).None?
  {
    var slots := map[a := Slot(x, 0, true), b := Slot(y, 1, true)];
    assert a in slots && a !in [b] && 0 <= slots[a].sortOrder < |[b]|;
    ReorderExactly(slots, [b]);
  }

  // ---------------------------------------------------------------- the active cap

  datatype Op =
    | CreateOp(id: Id, assetId: Id, isActive: bool)
    | UpdateOp(id: Id, active: Option<bool>, sortOrder: Option<int>)
    | RemoveOp(id: Id)
    | ReorderOp(ids: seq<Id>)

  /** One service call, refused calls leaving the table alone. */
  ghost predicate Step(before: Slots, op: Op, after: Slots) {
    after == before ||
    match op {
      case CreateOp(id, assetId, isActive) =>
        id !in before && (isActive ==> |Active(before)| < ACTIVE_CAP)
        && exists order :: IsNextOrder(before, order) && after == before[id := Slot(assetId, order, isActive)]
      case UpdateOp(id, active, sortOrder) =>
        CanUpdate(before, id, active, sortOrder) && after == Updated(before, id, active, sortOrder)
      case RemoveOp(id) => after == before - {id}
      case ReorderOp(ids) => AllPresent(before, ids) && Reordered(before, ids) == Some(after)
    }
  }

  ghost predicate Inv(slots: Slots) {
    UniqueOrders(slots) && |Active(slots)| <= ACTIVE_CAP
  }

  lemma ActiveAfter(slots: Slots, id: Id, slot: Slot)
    ensures Active(slots[id := slot]) == if slot.isActive then Active(slots) + {id} else Active(slots) - {id}
  {
  }

  lemma CreateKeepsInv(before: Slots, id: Id, slot: Slot)
    requires Inv(before) && id !in before && IsNextOrder(before, slot.sortOrder)
    requires slot.isActive ==> |Active(before)| < ACTIVE_CAP
    ensures Inv(before[id := slot])
  {
    ActiveAfter(before, id, slot);
    SubsetSize(Active(before) - {id}, Active(before));
  }

  lemma UpdateKeepsInv(before: Slots, id: Id, active: Option<bool>, sortOrder: Option<int>)
    requires Inv(before) && CanUpdate(before, id, active, sortOrder)
    ensures Inv(Updated(before, id, active, sortOrder))
  {
    var slot := Updated(before, id, active, sortOrder)[id];
    UpdateKeepsOrders(before, id, slot);
    UpdateKeepsCap(before, id, slot);
  }

  lemma UpdateKeepsOrders(before: Slots, id: Id, slot: Slot)
    requires UniqueOrders(before) && !OrderTaken(before, id, slot.sortOrder)
    ensures UniqueOrders(before[id := slot])
  {
  }

  lemma UpdateKeepsCap(before: Slots, id: Id, slot: Slot)
    requires id in before && |Active(before)| <= ACTIVE_CAP
    requires slot.isActive && !before[id].isActive ==> |Active(before)| < ACTIVE_CAP
    ensures |Active(before[id := slot])| <= ACTIVE_CAP
  {
    ActiveAfter(before, id, slot);
    SubsetSize(Active(before) - {id}, Active(before));
    if before[id].isActive {
      assert Active(before) + {id} == Active(before);
    }
  }

  lemma StepKeepsInv(before: Slots, op: Op, after: Slots)
    requires Inv(before) && Step(before, op, after)
    ensures Inv(after)
  {
    if after != before {
      match op
      case CreateOp(id, assetId, isActive) =>
        var order :| IsNextOrder(before, order) && after == before[id := Slot(assetId, order, isActive)];
        CreateKeepsInv(before, id, Slot(assetId, order, isActive));
      case UpdateOp(id, active, sortOrder) => UpdateKeepsInv(before, id, active, sortOrder);
      case RemoveOp(id) =>
        assert Active(after) == Active(before) - {id};
        SubsetSize(Active(after), Active(before));
      case ReorderOp(ids) => ReorderKeepsInv(before, ids);
    }
  }

  lemma ReorderKeepsInv(before: Slots, ids: seq<Id>)
    requires Inv(before) && AllPresent(before, ids) && Reordered(before, ids).Some?
    ensures Inv(Reordered(before, ids).value) && Active(Reordered(before, ids).value) == Active(before)
  {
    ReorderExactly(before, ids);
    PlacedAllKeys(before, ids, OFFSET, 0);
    PlacedAllKeys(PlacedAll(before, ids, OFFSET, 0).value, ids, 0, 0);
  }

  ghost predicate Run(s: Slots, ops: seq<Op>, states: seq<Slots>) {
    |states| == |ops| + 1 && states[0] == s && forall k :: 0 <= k < |ops| ==> Step(states[k], ops[k], states[k + 1])
  }

  /** After any sequence of calls on an empty table sort orders are distinct and at most five slots
      are active. */
  lemma {:induction false} CapHolds(ops: seq<Op>, states: seq<Slots>, k: nat)
    requires Run(map[], ops, states) && k <= |ops|
    ensures |set id | id in states[k] && states[k][id].isActive| <= 5
    ensures forall a, b :: a in states[k] && b in states[k] && states[k][a].sortOrder == states[k][b].sortOrder ==> a == b
    decreases k
  {
    if k == 0 {
      assert Active(states[0]) == {};
    } else {
      CapHolds(ops, states, k - 1);
      StepKeepsInv(states[k - 1], ops[k - 1], states[k]);
    }
  }

  // ---------------------------------------------------------------- what Discover shows

  function Order(slots: Slots, id: Id): int {
    if id in slots then slots[id].sortOrder else 0
  }

  ghost function ByOrder(slots: Slots): (Id, Id) -> bool {
    (a: Id, b: Id) => Order(slots, a) <= Order(slots, b)
  }

  /** `WHERE isActive ORDER BY sortOrder LIMIT 5`. */
  ghost predicate FeaturedRead(slots: Slots, shown: seq<Id>) {
    && Distinct(shown) && SortedBy(ByOrder(slots), shown)
    && (forall id :: id in shown ==> id in Active(slots))
    && |shown| == if |Active(slots)| <= FEATURED_LIMIT then |Active(slots)| else FEATURED_LIMIT
  }

  ghost function ActiveIn(slots: Slots, ids: seq<Id>): seq<Id> {
    if |ids| == 0 then []
    else
      var last := ids[|ids| - 1];
      ActiveIn(slots, ids[..|ids| - 1]) + (if last in Active(slots) then [last] else [])
  }

  ghost function Listed(shown: seq<Id>, ids: seq<Id>): seq<Id> {
    if |shown| == 0 then []
    else
      var last := shown[|shown| - 1];
      Listed(shown[..|shown| - 1], ids) + (if last in ids then [last] else [])
  }

  /** With the cap kept, the limit drops no active slot. */
  lemma LimitDropsNone(slots: Slots, shown: seq<Id>)
    requires |Active(slots)| <= 5 && FeaturedRead(slots, shown)
    ensures forall id :: id in shown <==> id in slots && slots[id].isActive
  {
    MemberCount(shown);
    var members := set id | id in shown;
    SameSize(members, Active(slots));
    forall id ensures id in shown <==> id in Active(slots) {
      assert id in shown <==> id in members;
    }
  }

  lemma {:induction false} ActiveInMembers(slots: Slots, ids: seq<Id>)
    ensures forall id :: id in ActiveIn(slots, ids) <==> id in ids && id in Active(slots)
    ensures Distinct(ids) ==> Distinct(ActiveIn(slots, ids))
  {
    if |ids| > 0 {
      ActiveInMembers(slots, ids[..|ids| - 1]);
      assert ids == ids[..|ids| - 1] + [ids[|ids| - 1]];
    }
  }

  lemma {:induction false} ListedMembers(shown: seq<Id>, ids: seq<Id>)
    ensures forall id :: id in Listed(shown, ids) <==> id in shown && id in ids
    ensures Distinct(shown) ==> Distinct(Listed(shown, ids))
  {
    if |shown| > 0 {
      ListedMembers(shown[..|shown| - 1], ids);
      assert shown == shown[..|shown| - 1] + [shown[|shown| - 1]];
    }
  }

  lemma {:induction false} ListedSorted(slots: Slots, shown: seq<Id>, ids: seq<Id>)
    requires SortedBy(ByOrder(slots), shown)
    ensures SortedBy(ByOrder(slots), Listed(shown, ids))
  {
    if |shown| > 0 {
      var init := shown[..|shown| - 1];
      ListedSorted(slots, init, ids);
      ListedMembers(init, ids);
      var earlier := Listed(init, ids);
      forall i | 0 <= i < |earlier| ensures ByOrder(slots)(earlier[i], shown[|shown| - 1]) {
        assert earlier[i] in init;
        var k :| 0 <= k < |init| && init[k] == earlier[i];
        assert shown[k] == earlier[i];
      }
    }
  }

  /** `ids[..k]` carry the sort orders 0, 1, .. */
  lemma {:induction false} NumberedSorted(slots: Slots, ids: seq<Id>, k: nat)
    requires k <= |ids| && forall j :: 0 <= j < |ids| ==> ids[j] in slots && slots[ids[j]].sortOrder == j
    ensures SortedBy(ByOrder(slots), ActiveIn(slots, ids[..k]))
    ensures forall id :: id in ActiveIn(slots, ids[..k]) ==> id in slots && slots[id].sortOrder < k
  {
    if k > 0 {
      NumberedSorted(slots, ids, k - 1);
      assert ids[..k][..k - 1] == ids[..k - 1];
    }
  }

  /** After a committed reorder Discover shows the listed active slots in the sequence given. */
  lemma ShownInSequence(before: Slots, ids: seq<Id>, after: Slots, shown: seq<Id>)
    requires Inv(before) && AllPresent(before, ids) && Reordered(before, ids) == Some(after) && FeaturedRead(after, shown)
    ensures Listed(shown, ids) == ActiveIn(before, ids)
    ensures forall id :: id in shown <==> id in Active(before)
  {
    ReorderExactly(before, ids);
    ReorderKeepsInv(before, ids);
    LimitDropsNone(after, shown);
    SameActiveIn(before, after, ids);
    ListedIsActive(after, ids, shown);
  }

  lemma ListedIsActive(slots: Slots, ids: seq<Id>, shown: seq<Id>)
    requires UniqueOrders(slots) && Distinct(ids) && Distinct(shown) && SortedBy(ByOrder(slots), shown)
    requires forall id :: id in shown <==> id in Active(slots)
    requires forall j :: 0 <= j < |ids| ==> ids[j] in slots && slots[ids[j]].sortOrder == j
    ensures Listed(shown, ids) == ActiveIn(slots, ids)
  {
    ActiveInMembers(slots, ids);
    ListedMembers(shown, ids);
    ListedSorted(slots, shown, ids);
    NumberedSorted(slots, ids, |ids|);
    assert ids[..|ids|] == ids;
    OrdersTieFree(slots, Listed(shown, ids));
    OrdersTieFree(slots, ActiveIn(slots, ids));
    SameMembers(ByOrder(slots), Listed(shown, ids), ActiveIn(slots, ids));
    SortedUnique(ByOrder(slots), Listed(shown, ids), ActiveIn(slots, ids));
  }

  lemma OrdersTieFree(slots: Slots, ids: seq<Id>)
    requires UniqueOrders(slots) && Distinct(ids) && forall id :: id in ids ==> id in slots
    ensures TieFree(ByOrder(slots), ids) && TotalPreorder(ByOrder(slots))
  {
  }

  lemma {:induction false} SameActiveIn(a: Slots, b: Slots, ids: seq<Id>)
    requires Active(a) == Active(b)
    ensures ActiveIn(a, ids) == ActiveIn(b, ids)
  {
    if |ids| > 0 {
      SameActiveIn(a, b, ids[..|ids| - 1]);
    }
  }
}
