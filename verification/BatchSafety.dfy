/** Exactly which batches every table may take without ending up with overlapping rows. */
module BatchSafety {
  import opened TimeUnits
  import opened CalendarSlots
  import opened CalendarStores

  /** A table the batch may be saved into: it is free of overlap, and the batch passes the checks. */
  ghost predicate AcceptedBy(kind: Kind, owner: int, items: seq<Item>, rows: map<int, Slot>, nextId: nat) {
    nextId > 0 && WellFormed(rows, nextId) && OverlapFree(kind, rows) && ClearOfExisting(kind, rows, owner, items)
  }

  ghost predicate SaveSafe(kind: Kind, owner: int, items: seq<Item>, rows: map<int, Slot>, nextId: nat) {
    AcceptedBy(kind, owner, items, rows, nextId) ==> OverlapFree(kind, Saved(kind, rows, nextId, items))
  }

  /** No row is updated twice in the batch. */
  ghost predicate UpdatesOnce(items: seq<Item>) {
    forall i, j :: 0 <= i < j < |items| ==> items[i].id <= 0 || items[i].id != items[j].id
  }

  lemma WrittenIsSafe(kind: Kind, owner: int, items: seq<Item>, rows: map<int, Slot>, nextId: nat)
    requires owner != 0 && ItemsValid(kind, owner, items) && DecidingDaysWritten(kind, items)
    ensures SaveSafe(kind, owner, items, rows, nextId)
  {
    if AcceptedBy(kind, owner, items, rows, nextId) {
      WrittenDaysAreKept(kind, rows, nextId, items);
      SaveKeepsOverlapFree(kind, owner, rows, nextId, items);
    }
  }

  // ---------------------------------------------------------------- where the batch's rows end up

  /** A row after the updates of it, in their order. */
  function MergedBy(kind: Kind, row: Slot, updates: seq<Item>, id: int): Slot {
    if updates == [] then row
    else
      var before, last := MergedBy(kind, row, updates[..|updates| - 1], id), updates[|updates| - 1];
      if last.id == id then Merge(kind, before, last.slot) else before
  }

  lemma {:induction false} UpdatedIsMerged(kind: Kind, rows: map<int, Slot>, updates: seq<Item>, id: int)
    requires id in rows
    ensures id in Updated(kind, rows, updates)
            && Updated(kind, rows, updates)[id] == MergedBy(kind, rows[id], updates, id)
  {
    if updates != [] {
      UpdatedIsMerged(kind, rows, updates[..|updates| - 1], id);
    }
  }

  ghost predicate Names(updates: seq<Item>, id: int) {
    exists u :: u in updates && u.id == id
  }

  /** An update takes the row over, whoever owned it. */
  lemma {:induction false} MergedTakesOver(kind: Kind, owner: int, row: Slot, other: int, updates: seq<Item>, id: int)
    requires owner != 0 && forall u :: u in updates ==> u.slot.owner == owner
    ensures var a, b := MergedBy(kind, row, updates, id), MergedBy(kind, row.(owner := other), updates, id);
            && a.day == b.day && a.startMin == b.startMin && a.endMin == b.endMin
            && (if Names(updates, id) then a == b && a.owner == owner else a.planned == b.planned)
  {
    if updates != [] {
      var init, last := updates[..|updates| - 1], updates[|updates| - 1];
      assert last in updates;
      MergedTakesOver(kind, owner, row, other, init, id);
      assert Names(updates, id) <==> Names(init, id) || last.id == id;
    }
  }

  /** What a save leaves rows at: those its updates name, and the new ones. */
  datatype Place = Named(id: int) | New(index: nat) {
    function Id(nextId: nat): int { if Named? then id else nextId + index }
  }

  /** `found` stands for the row an update finds, any proper one. */
  ghost predicate Possible(kind: Kind, items: seq<Item>, p: Place, found: Slot) {
    match p
    case Named(id) => Names(Updates(items), id) && ProperRow(kind, found)
    case New(k) => k < |Creates(items)|
  }

  ghost function Final(kind: Kind, items: seq<Item>, p: Place, found: Slot): Slot
    requires Possible(kind, items, p, found)
  {
    match p
    case Named(id) => MergedBy(kind, found, Updates(items), id)
    case New(k) => Stored(kind, Creates(items)[k].slot)
  }

  /** Whatever rows are found, no two places of the batch end up overlapping. */
  ghost predicate FinalsApart(kind: Kind, items: seq<Item>) {
    forall p, q, found, found' :: p != q && Possible(kind, items, p, found) && Possible(kind, items, q, found') ==>
      !OverlapsWith(kind, Final(kind, items, p, found), Final(kind, items, q, found'))
  }

  /** Whatever rows are found, a row that a place of the batch ends up overlapping would have been refused: it overlaps
      one of the items. */
  ghost predicate FinalsShielded(kind: Kind, owner: int, items: seq<Item>) {
    forall p, found, row :: Possible(kind, items, p, found) && ProperRow(kind, row) && row.owner == owner ==>
      (OverlapsWith(kind, Final(kind, items, p, found), row) ==> Refused(kind, items, row))
  }

  ghost predicate Refused(kind: Kind, items: seq<Item>, row: Slot) {
    exists y :: y in items && OverlapsWith(kind, y.slot, row)
  }

  lemma OverlapIsSymmetric(kind: Kind, a: Slot, b: Slot)
    ensures OverlapsWith(kind, a, b) <==> OverlapsWith(kind, b, a)
  {
  }

  lemma FinalOwner(kind: Kind, owner: int, items: seq<Item>, p: Place, found: Slot)
    requires owner != 0 && ItemsValid(kind, owner, items) && Possible(kind, items, p, found)
    ensures Final(kind, items, p, found).owner == owner
  {
    if p.Named? {
      MergedTakesOver(kind, owner, found, found.owner, Updates(items), p.id);
    } else {
      assert Creates(items)[p.index] in Creates(items);
    }
  }

  // ---------------------------------------------------------------- apart and shielded is enough

  lemma StoredItemsAreProper(kind: Kind, owner: int, rows: map<int, Slot>, nextId: nat, items: seq<Item>)
    requires WellFormed(rows, nextId) && ProperRows(kind, rows) && ItemsValid(kind, owner, items)
    ensures ProperRows(kind, Created(kind, rows, Creates(items), nextId))
  {
    var creates := Creates(items);
    CreatedRows(kind, rows, creates, nextId);
    forall id | id in Created(kind, rows, creates, nextId) && id !in rows
      ensures ProperRow(kind, Created(kind, rows, creates, nextId)[id])
    {
      var x := creates[id - nextId];
      assert x in creates;
      MidnightFacts(x.slot.day, 0);
    }
  }

  /** Every row of a saved table is an old one or a place of the batch. */
  lemma RowPlace(kind: Kind, owner: int, rows: map<int, Slot>, nextId: nat, items: seq<Item>, id: int)
    returns (p: Place, found: Slot)
    requires WellFormed(rows, nextId) && ProperRows(kind, rows) && ItemsValid(kind, owner, items)
    requires id in Saved(kind, rows, nextId, items)
    ensures var row := Saved(kind, rows, nextId, items)[id];
            Untouched(rows, items, id, row)
            || (p.Id(nextId) == id && Possible(kind, items, p, found) && Final(kind, items, p, found) == row)
  {
    var creates, updates := Creates(items), Updates(items);
    var created := Created(kind, rows, creates, nextId);
    UnnamedRowsStay(kind, created, updates, id);
    CreatedRows(kind, rows, creates, nextId);
    if Names(updates, id) {
      StoredItemsAreProper(kind, owner, rows, nextId, items);
      UpdatedIsMerged(kind, created, updates, id);
      return Named(id), created[id];
    }
    return New(if id in rows then 0 else id - nextId), created[id];
  }

  lemma FinalClearOfOld(kind: Kind, owner: int, rows: map<int, Slot>, items: seq<Item>, p: Place, found: Slot, b: int)
    requires owner != 0 && ItemsValid(kind, owner, items) && FinalsShielded(kind, owner, items)
    requires ClearOfExisting(kind, rows, owner, items) && b in rows && ProperRow(kind, rows[b])
    requires Possible(kind, items, p, found) && Untouched(rows, items, b, rows[b])
    ensures !Clash(kind, Final(kind, items, p, found), rows[b]) && !Clash(kind, rows[b], Final(kind, items, p, found))
  {
    FinalOwner(kind, owner, items, p, found);
    OverlapIsSymmetric(kind, Final(kind, items, p, found), rows[b]);
    if rows[b].owner == owner && OverlapsWith(kind, Final(kind, items, p, found), rows[b]) {
      assert Refused(kind, items, rows[b]);
      var y :| y in items && OverlapsWith(kind, y.slot, rows[b]);
      SameDayIsCompared(kind, rows[b], owner, items, y);
      assert false;
    }
  }

  lemma ShieldedIsSafe(kind: Kind, owner: int, items: seq<Item>, rows: map<int, Slot>, nextId: nat)
    requires owner != 0 && ItemsValid(kind, owner, items) && FinalsApart(kind, items)
             && FinalsShielded(kind, owner, items)
    requires ProperRows(kind, rows)
    ensures SaveSafe(kind, owner, items, rows, nextId)
  {
    if AcceptedBy(kind, owner, items, rows, nextId) {
      var cur := Saved(kind, rows, nextId, items);
      forall a, b | a in cur && b in cur && a != b
        ensures !Clash(kind, cur[a], cur[b])
      {
        var p, found := RowPlace(kind, owner, rows, nextId, items, a);
        var q, found' := RowPlace(kind, owner, rows, nextId, items, b);
        if Untouched(rows, items, a, cur[a]) {
          if !Untouched(rows, items, b, cur[b]) {
            FinalClearOfOld(kind, owner, rows, items, q, found', a);
          }
        } else if Untouched(rows, items, b, cur[b]) {
          FinalClearOfOld(kind, owner, rows, items, p, found, b);
        }
      }
    }
  }

  // ---------------------------------------------------------------- apart and shielded is needed

  lemma {:induction false} IdBound(items: seq<Item>) returns (bound: nat)
    ensures bound > 0 && forall x :: x in items ==> x.id < bound
  {
    if items == [] {
      return 1;
    }
    var rest := IdBound(items[..|items| - 1]);
    var last := items[|items| - 1];
    assert forall x :: x in items ==> x in items[..|items| - 1] || x == last;
    return if last.id < rest then rest else last.id + 1;
  }

  lemma SharedMinuteClashes(kind: Kind, a: Slot, b: Slot, owner: int, day: int, minute: int)
    requires a.Takes(owner, day, minute) && b.Takes(owner, day, minute)
    ensures Clash(kind, a, b)
  {
  }

  /** A new item gets a row of its own, which no update names. */
  lemma CreatedRow(kind: Kind, rows: map<int, Slot>, nextId: nat, creates: seq<Item>, updates: seq<Item>, k: nat)
    requires WellFormed(rows, nextId) && k < |creates| && forall y :: y in updates ==> y.id < nextId
    ensures var cur := Updated(kind, Created(kind, rows, creates, nextId), updates);
            nextId + k in cur && cur[nextId + k] == Stored(kind, creates[k].slot)
  {
    CreatedRows(kind, rows, creates, nextId);
    UnnamedRowsStay(kind, Created(kind, rows, creates, nextId), updates, nextId + k);
  }

  /** A table in which the place finds a row, owned by somebody else: such rows are not compared. */
  function Finding(p: Place, row: Slot, owner: int, rows: map<int, Slot>): map<int, Slot> {
    if p.Named? then rows[p.id := row.(owner := owner)] else rows
  }

  lemma PlaceRow(kind: Kind, owner: int, rows: map<int, Slot>, nextId: nat, items: seq<Item>, p: Place, found: Slot)
    requires owner != 0 && ItemsValid(kind, owner, items) && WellFormed(rows, nextId)
    requires Possible(kind, items, p, found) && forall y :: y in items ==> y.id < nextId
    requires p.Named? ==> p.id in rows && rows[p.id] == found.(owner := rows[p.id].owner)
    ensures p.Id(nextId) in Saved(kind, rows, nextId, items)
            && Saved(kind, rows, nextId, items)[p.Id(nextId)] == Final(kind, items, p, found)
  {
    if p.Named? {
      CreatedRows(kind, rows, Creates(items), nextId);
      UpdatedIsMerged(kind, Created(kind, rows, Creates(items), nextId), Updates(items), p.id);
      MergedTakesOver(kind, owner, found, rows[p.id].owner, Updates(items), p.id);
    } else {
      CreatedRow(kind, rows, nextId, Creates(items), Updates(items), p.index);
    }
  }

  lemma PlaceIds(kind: Kind, items: seq<Item>, p: Place, found: Slot, nextId: nat)
    requires Possible(kind, items, p, found) && forall y :: y in items ==> y.id < nextId
    ensures if p.Named? then 0 < p.Id(nextId) < nextId else nextId <= p.Id(nextId)
  {
  }

  lemma TheyClash(kind: Kind, cur: map<int, Slot>, a: int, b: int)
    requires a in cur && b in cur && a != b && cur[a].owner == cur[b].owner && OverlapsWith(kind, cur[a], cur[b])
    ensures !OverlapFree(kind, cur)
  {
    assert Clash(kind, cur[a], cur[b]);
  }

  lemma ForeignRowsAccepted(kind: Kind, owner: int, items: seq<Item>, rows: map<int, Slot>, nextId: nat)
    requires nextId > 0 && ProperRows(kind, rows)
    requires forall id :: id in rows ==> 0 < id < nextId && rows[id].owner != owner
    requires forall a, b :: a in rows && b in rows && a != b ==> rows[a].owner != rows[b].owner
    ensures AcceptedBy(kind, owner, items, rows, nextId)
  {
  }

  lemma PlacesDiffer(kind: Kind, items: seq<Item>, p: Place, found: Slot, q: Place, found': Slot, nextId: nat)
    requires Possible(kind, items, p, found) && Possible(kind, items, q, found') && p != q
    requires forall y :: y in items ==> y.id < nextId
    ensures p.Id(nextId) != q.Id(nextId)
  {
    PlaceIds(kind, items, p, found, nextId);
    PlaceIds(kind, items, q, found', nextId);
  }

  /** A table of proper rows on which two places meet. */
  lemma PlacesMeet(kind: Kind, owner: int, items: seq<Item>, p: Place, found: Slot, q: Place, found': Slot)
    returns (rows: map<int, Slot>, nextId: nat)
    requires owner != 0 && ItemsValid(kind, owner, items) && p != q
    requires Possible(kind, items, p, found) && Possible(kind, items, q, found')
    requires OverlapsWith(kind, Final(kind, items, p, found), Final(kind, items, q, found'))
    ensures ProperRows(kind, rows) && !SaveSafe(kind, owner, items, rows, nextId)
  {
    nextId := IdBound(items);
    PlaceIds(kind, items, p, found, nextId);
    PlaceIds(kind, items, q, found', nextId);
    rows := Finding(p, found, owner + 1, Finding(q, found', owner + 2, map[]));
    ForeignRowsAccepted(kind, owner, items, rows, nextId);
    PlaceRow(kind, owner, rows, nextId, items, p, found);
    PlaceRow(kind, owner, rows, nextId, items, q, found');
    FinalOwner(kind, owner, items, p, found);
    FinalOwner(kind, owner, items, q, found');
    PlacesDiffer(kind, items, p, found, q, found', nextId);
    TheyClash(kind, Saved(kind, rows, nextId, items), p.Id(nextId), q.Id(nextId));
  }

  lemma WithRowAccepted(kind: Kind, owner: int, items: seq<Item>, rows: map<int, Slot>, there: nat)
    requires ProperRows(kind, rows) && there in rows && !Refused(kind, items, rows[there]) && rows[there].owner == owner
    requires forall id :: id in rows ==> 0 < id <= there
    requires forall a, b :: a in rows && b in rows && a != b ==> rows[a].owner != rows[b].owner
    ensures AcceptedBy(kind, owner, items, rows, there + 1)
  {
    forall x, id | x in items && id in rows && Compared(kind, rows[id], owner, items)
      ensures !OverlapsWith(kind, x.slot, rows[id])
    {
      assert id == there;
    }
  }

  lemma OldRowStays(kind: Kind, rows: map<int, Slot>, nextId: nat, items: seq<Item>, id: int)
    requires WellFormed(rows, nextId) && id in rows && forall x :: x in items ==> x.id < id
    ensures id in Saved(kind, rows, nextId, items) && Saved(kind, rows, nextId, items)[id] == rows[id]
  {
    CreatedRows(kind, rows, Creates(items), nextId);
    UnnamedRowsStay(kind, Created(kind, rows, Creates(items), nextId), Updates(items), id);
  }

  /** A table of proper rows on which a place meets a row of the owner that no item overlaps. */
  lemma PlaceMeetsRow(kind: Kind, owner: int, items: seq<Item>, p: Place, found: Slot, row: Slot)
    returns (rows: map<int, Slot>, nextId: nat)
    requires owner != 0 && ItemsValid(kind, owner, items) && Possible(kind, items, p, found)
    requires ProperRow(kind, row) && row.owner == owner && !Refused(kind, items, row)
    requires OverlapsWith(kind, Final(kind, items, p, found), row)
    ensures ProperRows(kind, rows) && !SaveSafe(kind, owner, items, rows, nextId)
  {
    var there := IdBound(items);
    nextId := there + 1;
    PlaceIds(kind, items, p, found, there);
    rows := Finding(p, found, owner + 1, map[there := row]);
    WithRowAccepted(kind, owner, items, rows, there);
    PlaceRow(kind, owner, rows, nextId, items, p, found);
    FinalOwner(kind, owner, items, p, found);
    OldRowStays(kind, rows, nextId, items, there);
    TheyClash(kind, Saved(kind, rows, nextId, items), p.Id(nextId), there);
  }

  /** Saving a batch, whatever rows it updates and how often, keeps every table of proper rows that accepts it free of
      overlap if and only if its places end up apart and shielded by its items. */
  lemma BatchSafeIff(kind: Kind, owner: int, items: seq<Item>)
    requires owner != 0 && ItemsValid(kind, owner, items)
    ensures (forall rows, nextId :: ProperRows(kind, rows) ==> SaveSafe(kind, owner, items, rows, nextId))
            <==> FinalsApart(kind, items) && FinalsShielded(kind, owner, items)
  {
    if !FinalsApart(kind, items) {
      var p, q, found, found' :| p != q && Possible(kind, items, p, found) && Possible(kind, items, q, found')
        && OverlapsWith(kind, Final(kind, items, p, found), Final(kind, items, q, found'));
      var rows, nextId := PlacesMeet(kind, owner, items, p, found, q, found');
    } else if !FinalsShielded(kind, owner, items) {
      var p, found, row :| Possible(kind, items, p, found) && ProperRow(kind, row) && row.owner == owner
        && OverlapsWith(kind, Final(kind, items, p, found), row) && !Refused(kind, items, row);
      var rows, nextId := PlaceMeetsRow(kind, owner, items, p, found, row);
    } else {
      forall rows: map<int, Slot>, nextId: nat | ProperRows(kind, rows)
        ensures SaveSafe(kind, owner, items, rows, nextId)
      {
        ShieldedIsSafe(kind, owner, items, rows, nextId);
      }
    }
  }

  lemma ThreeItems(items: seq<Item>)
    requires |items| == 3 && items[0].id <= 0 < items[1].id && 0 < items[2].id
    ensures Creates(items) == [items[0]] && Updates(items) == [items[1], items[2]]
  {
    var two := items[..2];
    var one := two[..1];
    assert one[..0] == [];
    assert Creates(one) == [items[0]] && Updates(one) == [];
    assert Creates(two) == [items[0]] && Updates(two) == [items[1]];
  }

  lemma TwoMerges(kind: Kind, row: Slot, b: Item, c: Item)
    requires b.id == c.id
    ensures MergedBy(kind, row, [b, c], c.id) == Merge(kind, Merge(kind, row, b.slot), c.slot)
  {
    var one, two := [b], [b, c];
    assert two[..1] == one && one[..0] == [];
    assert MergedBy(kind, row, one, c.id) == Merge(kind, row, b.slot);
  }

  /** An item that is stored where an update was validated that a later one has moved on. */
  ghost predicate ShieldedBatch(owner: int, day: int, items: seq<Item>) {
    && |items| == 3 && Midnight(day) == day > 0
    && items[0] == Item(0, Slot(owner, day + 1, 0, 10, true)) && items[1] == Item(5, Slot(owner, day, 0, 10, true))
    && items[2] == Item(5, Slot(owner, day + DAY_MS, 0, 10, true))
  }

  lemma ShieldedFinals(owner: int, day: int, items: seq<Item>, p: Place, found: Slot)
    requires owner != 0 && ShieldedBatch(owner, day, items) && Possible(Dated, items, p, found)
    ensures var s := Final(Dated, items, p, found);
            || (p == New(0) && s == Slot(owner, day, 0, 10, true))
            || (p == Named(5) && 0 <= s.startMin && s == Slot(owner, day + DAY_MS, s.startMin, 10, true))
  {
    ThreeItems(items);
    if p.Named? {
      assert p.id == 5;
      TwoMerges(Dated, found, items[1], items[2]);
    }
  }

  /** A repeated update can shield an item whose date has a time of day: the batch is safe although the day of that item
      is not written as it was validated. */
  lemma RepeatedUpdateShields(owner: int, day: int, items: seq<Item>)
    requires owner != 0 && ShieldedBatch(owner, day, items)
    ensures ItemsValid(Dated, owner, items) && !DecidingDaysWritten(Dated, items)
    ensures forall rows, nextId :: ProperRows(Dated, rows) ==> SaveSafe(Dated, owner, items, rows, nextId)
  {
    assert Decides(items, 0);
    forall p, q, found, found' | p != q && Possible(Dated, items, p, found) && Possible(Dated, items, q, found')
      ensures !OverlapsWith(Dated, Final(Dated, items, p, found), Final(Dated, items, q, found'))
    {
      ShieldedFinals(owner, day, items, p, found);
      ShieldedFinals(owner, day, items, q, found');
    }
    forall p, found, row | Possible(Dated, items, p, found) && ProperRow(Dated, row) && row.owner == owner
      ensures OverlapsWith(Dated, Final(Dated, items, p, found), row) ==> Refused(Dated, items, row)
    {
      ShieldedFinals(owner, day, items, p, found);
      assert items[1] in items && items[2] in items;
    }
    BatchSafeIff(Dated, owner, items);
  }

  // ---------------------------------------------------------------- batches that update no row twice

  /** Where item x lands although nothing was checked there: on its own midnight, or for a Sunday update on a Monday,
      when the row it names is a Monday's. */
  function LandingDay(kind: Kind, x: Item): int { if kind.Weekly? then 1 else Midnight(x.slot.day) }

  /** Rows of other owners are not compared, and an update takes them over. */
  function Foreign(owner: int, kind: Kind, x: Item): Slot { Slot(owner, LandingDay(kind, x), 0, 1, true) }

  lemma LandsFromForeign(kind: Kind, owner: int, other: int, x: Item, y: Item, minute: int)
    requires owner != 0 && y.slot.owner == owner && IsValid(kind, y.slot)
    requires Lands(kind, owner, y, LandingDay(kind, x), minute)
    ensures Merge(kind, Foreign(other, kind, x), y.slot).Takes(owner, LandingDay(kind, x), minute)
  {
  }

  /** Where x itself lands, at its first minute. */
  lemma HarmfulLands(kind: Kind, owner: int, other: int, x: Item)
    requires owner != 0 && x.slot.owner == owner && IsValid(kind, x.slot) && !DayWritten(kind, x)
    ensures var day, minute := LandingDay(kind, x), x.slot.startMin;
            && Merge(kind, Foreign(other, kind, x), x.slot).Takes(owner, day, minute)
            && (x.id <= 0 ==> Lands(kind, owner, x, day, minute))
            && !OverlapsWith(kind, x.slot, Probe(owner, day, minute))
  {
  }

  ghost predicate Lands(kind: Kind, owner: int, y: Item, day: int, minute: int) {
    Stored(kind, y.slot).Takes(owner, day, minute)
  }

  function Probe(owner: int, day: int, minute: int): Slot { Slot(owner, day, minute, minute + 1, true) }

  lemma ForeignIsProper(kind: Kind, owner: int, x: Item)
    requires IsValid(kind, x.slot) && !DayWritten(kind, x)
    ensures ProperRow(kind, Foreign(owner, kind, x))
    ensures ProperRow(kind, Probe(owner, LandingDay(kind, x), x.slot.startMin))
  {
    MidnightFacts(x.slot.day, 0);
    MidnightFacts(0, x.slot.day);
  }

  lemma {:induction false} MergedOnce(kind: Kind, row: Slot, updates: seq<Item>, k: nat)
    requires k < |updates| && forall l :: 0 <= l < |updates| && l != k ==> updates[l].id != updates[k].id
    ensures MergedBy(kind, row, updates, updates[k].id) == Merge(kind, row, updates[k].slot)
  {
    var n := |updates| - 1;
    if k < n {
      MergedOnce(kind, row, updates[..n], k);
    } else {
      MergedByOthers(kind, row, updates[..n], updates[k].id);
    }
  }

  lemma {:induction false} MergedByOthers(kind: Kind, row: Slot, updates: seq<Item>, id: int)
    requires forall l :: 0 <= l < |updates| ==> updates[l].id != id
    ensures MergedBy(kind, row, updates, id) == row
  {
    if updates != [] {
      MergedByOthers(kind, row, updates[..|updates| - 1], id);
    }
  }

  lemma {:induction false} UpdatesOfOnce(items: seq<Item>)
    requires UpdatesOnce(items)
    ensures forall k, l :: 0 <= k < l < |Updates(items)| ==> Updates(items)[k].id != Updates(items)[l].id
  {
    if items != [] {
      var rest, last := items[..|items| - 1], items[|items| - 1];
      UpdatesOfOnce(rest);
      forall x | x in Updates(rest)
        ensures x.id != last.id
      {
        var i :| 0 <= i < |rest| && rest[i] == x;
        assert items[i] == x;
      }
      var r := Updates(items);
      assert forall k :: 0 <= k < |Updates(rest)| ==> r[k] in Updates(rest);
    }
  }

  /** The place an item ends up at. */
  lemma PlaceOf(kind: Kind, items: seq<Item>, x: Item, found: Slot) returns (p: Place)
    requires UpdatesOnce(items) && x in items && ProperRow(kind, found)
    ensures Possible(kind, items, p, found)
    ensures if x.id > 0 then p == Named(x.id) && Final(kind, items, p, found) == Merge(kind, found, x.slot)
            else p.New? && Creates(items)[p.index] == x
  {
    if x.id > 0 {
      var updates := Updates(items);
      UpdatesOfOnce(items);
      var k :| 0 <= k < |updates| && updates[k] == x;
      MergedOnce(kind, found, updates, k);
      return Named(x.id);
    }
    var k :| 0 <= k < |Creates(items)| && Creates(items)[k] == x;
    return New(k);
  }

  lemma TakersOverlap(kind: Kind, a: Slot, b: Slot, owner: int, day: int, minute: int)
    requires a.Takes(owner, day, minute) && b.Takes(owner, day, minute)
    ensures OverlapsWith(kind, a, b)
  {
  }

  lemma OneUpdateEach(items: seq<Item>, x: Item, y: Item)
    requires UpdatesOnce(items) && x in items && y in items && x != y
    ensures x.id > 0 ==> x.id != y.id
  {
  }

  /** An item whose day is not written as it was validated ends up where another one is, or where nothing shields it. */
  lemma HarmfulIsUnsafe(kind: Kind, owner: int, items: seq<Item>, x: Item)
    requires owner != 0 && ItemsValid(kind, owner, items) && UpdatesOnce(items) && x in items && !DayWritten(kind, x)
    ensures !(FinalsApart(kind, items) && FinalsShielded(kind, owner, items))
  {
    var day, minute, found := LandingDay(kind, x), x.slot.startMin, Foreign(owner, kind, x);
    var row := Probe(owner, day, minute);
    ForeignIsProper(kind, owner, x);
    HarmfulLands(kind, owner, owner, x);
    var p := PlaceOf(kind, items, x, found);
    TakersOverlap(kind, Final(kind, items, p, found), row, owner, day, minute);
    if Refused(kind, items, row) {
      var y :| y in items && OverlapsWith(kind, y.slot, row);
      assert y != x && Lands(kind, owner, y, day, minute);
      LandsFromForeign(kind, owner, owner, x, y, minute);
      OneUpdateEach(items, x, y);
      var q := PlaceOf(kind, items, y, found);
      TakersOverlap(kind, Final(kind, items, p, found), Final(kind, items, q, found), owner, day, minute);
    }
  }

  lemma OnceAllDecide(kind: Kind, items: seq<Item>)
    requires UpdatesOnce(items)
    ensures DecidingDaysWritten(kind, items) <==> forall x :: x in items ==> DayWritten(kind, x)
  {
    forall i | 0 <= i < |items|
      ensures Decides(items, i)
    {
    }
  }

  /** For a batch that updates no row twice: it keeps every table that accepts it free of overlap if and only if each
      item's day is written as it was validated; already the tables of proper rows decide that. */
  lemma BatchSaveSafeIff(kind: Kind, owner: int, items: seq<Item>)
    requires owner != 0 && ItemsValid(kind, owner, items) && UpdatesOnce(items)
    ensures (forall rows, nextId :: SaveSafe(kind, owner, items, rows, nextId))
            <==> forall x :: x in items ==> DayWritten(kind, x)
    ensures (forall rows, nextId :: ProperRows(kind, rows) ==> SaveSafe(kind, owner, items, rows, nextId))
            <==> forall x :: x in items ==> DayWritten(kind, x)
  {
    BatchSafeIff(kind, owner, items);
    if x :| x in items && !DayWritten(kind, x) {
      HarmfulIsUnsafe(kind, owner, items, x);
    } else {
      OnceAllDecide(kind, items);
      forall rows: map<int, Slot>, nextId: nat
        ensures SaveSafe(kind, owner, items, rows, nextId)
      {
        WrittenIsSafe(kind, owner, items, rows, nextId);
      }
    }
  }

  /** Two rows of a saved batch take the same minute. */
  lemma NotSafe(kind: Kind, owner: int, items: seq<Item>, rows: map<int, Slot>, nextId: nat, a: int, b: int, day: int,
                minute: int)
    requires AcceptedBy(kind, owner, items, rows, nextId) && a != b
    requires var cur := Saved(kind, rows, nextId, items);
             a in cur && b in cur && cur[a].Takes(owner, day, minute) && cur[b].Takes(owner, day, minute)
    ensures !SaveSafe(kind, owner, items, rows, nextId)
  {
    var cur := Saved(kind, rows, nextId, items);
    SharedMinuteClashes(kind, cur[a], cur[b], owner, day, minute);
  }

  // ---------------------------------------------------------------- one item, on the rows of its owner

  /** The simplest harm: one item, and a table of proper rows that are all its owner's. */
  ghost predicate OwnProperRows(kind: Kind, owner: int, rows: map<int, Slot>) {
    ProperRows(kind, rows) && forall id :: id in rows ==> rows[id].owner == owner
  }

  /** A slot that is only the first minute of the day: as a Sunday update it cuts any row of its owner down. */
  predicate FirstMinuteOnly(x: Slot) { x.startMin == 0 && x.endMin == 1 }

  /** A table of proper rows that accepts the Sunday update and then holds two overlapping rows. */
  lemma SundayUpdateCollides(owner: int, item: Item) returns (rows: map<int, Slot>, nextId: nat)
    requires owner != 0 && ItemsValid(Weekly, owner, [item]) && item.id > 0
    requires item.slot.day == 0 && !FirstMinuteOnly(item.slot)
    ensures OwnProperRows(Weekly, owner, rows) && !SaveSafe(Weekly, owner, [item], rows, nextId)
  {
    assert [item][0] == item;
    var from, to := item.slot.startMin, item.slot.endMin;
    var cut := if from == 0 then 1 else from;
    var mine, other := Slot(owner, 1, 0, cut, true), Slot(owner, 1, cut, if from == 0 then to else MINUTES_A_DAY, true);
    rows, nextId := map[item.id := mine, item.id + 1 := other], item.id + 2;
    assert AcceptedBy(Weekly, owner, [item], rows, nextId);
    SavedSingle(Weekly, rows, nextId, item);
    NotSafe(Weekly, owner, [item], rows, nextId, item.id, item.id + 1, 1, cut);
  }

  lemma StoredIsProper(kind: Kind, x: Slot)
    requires !kind.Weekly? && IsValid(kind, x)
    ensures ProperRow(kind, Stored(kind, x)) && ProperRow(kind, Slot(x.owner, Midnight(x.day) + DAY_MS, 0, 1, true))
  {
    MidnightFacts(x.day, 0);
    MidnightFacts(0, x.day);
  }

  lemma TableFor(kind: Kind, owner: int, item: Item) returns (rows: map<int, Slot>, nextId: nat, theirs: int)
    requires !kind.Weekly? && owner != 0 && ItemsValid(kind, owner, [item]) && Midnight(item.slot.day) != item.slot.day
    ensures OwnProperRows(kind, owner, rows) && AcceptedBy(kind, owner, [item], rows, nextId)
    ensures theirs in rows && theirs != item.id && theirs != nextId && rows[theirs] == Stored(kind, item.slot)
    ensures item.id > 0 ==> item.id in rows && rows[item.id].startMin == 0
  {
    assert [item][0] == item;
    StoredIsProper(kind, item.slot);
    var other := Stored(kind, item.slot);
    if item.id > 0 {
      theirs, nextId := item.id + 1, item.id + 2;
      rows := map[item.id := Slot(owner, other.day + DAY_MS, 0, 1, true), item.id + 1 := other];
    } else {
      rows, nextId, theirs := map[1 := other], 2, 1;
    }
  }

  /** A table of the owner's proper rows that accepts the item because dates differ in their time of day, and stores
      both on the same day. */
  lemma UnalignedDateCollides(kind: Kind, owner: int, item: Item) returns (rows: map<int, Slot>, nextId: nat)
    requires !kind.Weekly? && owner != 0 && ItemsValid(kind, owner, [item]) && Midnight(item.slot.day) != item.slot.day
    ensures OwnProperRows(kind, owner, rows) && !SaveSafe(kind, owner, [item], rows, nextId)
  {
    assert [item][0] == item;
    var theirs;
    rows, nextId, theirs := TableFor(kind, owner, item);
    SavedSingle(kind, rows, nextId, item);
    var mine := if item.id > 0 then item.id else nextId;
    NotSafe(kind, owner, [item], rows, nextId, mine, theirs, Midnight(item.slot.day), item.slot.startMin);
  }
}
