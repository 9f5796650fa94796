/** The save, replace and move operations on slot tables, and exactly when they keep a table free of overlap. */
module CalendarStores {
  import opened TimeUnits
  import opened CalendarSlots

  /** A row as the windows need it: it lasts, lies within a day, and has a weekday or a day start. */
  ghost predicate ProperRow(kind: Kind, row: Slot) {
    && 0 <= row.startMin < row.endMin <= MINUTES_A_DAY
    && (if kind.Weekly? then 0 <= row.day <= 6 else row.day == Midnight(row.day))
  }

  ghost predicate ProperRows(kind: Kind, rows: map<int, Slot>) {
    forall id :: id in rows ==> ProperRow(kind, rows[id])
  }

  // ---------------------------------------------------------------- saving

  /** What a caller can check before saving: no update carries the weekday 0, and every date is a midnight. */
  predicate DayWritten(kind: Kind, x: Item) {
    if kind.Weekly? then x.id <= 0 || x.slot.day != 0 else Midnight(x.slot.day) == x.slot.day
  }

  /** The item decides what its row ends up with: it creates the row or is the last of the batch to update it. */
  ghost predicate Decides(items: seq<Item>, i: nat)
    requires i < |items|
  {
    items[i].id <= 0 || forall j :: i < j < |items| ==> items[j].id != items[i].id
  }

  ghost predicate DecidingDaysWritten(kind: Kind, items: seq<Item>) {
    forall i :: 0 <= i < |items| && Decides(items, i) ==> DayWritten(kind, items[i])
  }

  lemma DecidesInLonger(items: seq<Item>, last: Item, i: nat)
    requires i < |items| && Decides(items, i) && (items[i].id <= 0 || last.id != items[i].id)
    ensures Decides(items + [last], i)
  {
  }

  lemma {:induction false} LastUpdateDecides(items: seq<Item>, k: nat) returns (i: nat)
    requires LastOfItsRow(Updates(items), k)
    ensures i < |items| && items[i] == Updates(items)[k] && Decides(items, i)
  {
    var n := |items| - 1;
    var rest, last := Updates(items[..n]), items[n];
    if k == |rest| {
      return n;
    }
    assert Updates(items) == if last.id > 0 then rest + [last] else rest;
    assert forall l :: 0 <= l < |rest| ==> Updates(items)[l] == rest[l];
    i := LastUpdateDecides(items[..n], k);
    assert last.id > 0 ==> Updates(items)[|rest|] == last;
    assert items[i] in Updates(items);
    DecidesInLonger(items[..n], last, i);
    assert items == items[..n] + [last];
  }

  lemma {:induction false} CreateDecides(items: seq<Item>, x: Item) returns (i: nat)
    requires x in Creates(items)
    ensures i < |items| && items[i] == x && Decides(items, i)
  {
    i :| 0 <= i < |items| && items[i] == x;
  }

  lemma WrittenDaysAreKept(kind: Kind, rows: map<int, Slot>, nextId: nat, items: seq<Item>)
    requires nextId > 0 && WellFormed(rows, nextId) && DecidingDaysWritten(kind, items)
    ensures DaysKept(kind, rows, nextId, items)
  {
    var creates, updates := Creates(items), Updates(items);
    var created := Created(kind, rows, creates, nextId);
    var cur := Saved(kind, rows, nextId, items);
    forall x | x in creates
      ensures Stored(kind, x.slot) == x.slot
    {
      var i := CreateDecides(items, x);
    }
    forall k: nat | LastOfItsRow(updates, k) && updates[k].id in cur
      ensures cur[updates[k].id].day == updates[k].slot.day
    {
      var i := LastUpdateDecides(items, k);
      assert updates[k] in updates;
      UnnamedRowsStay(kind, created, updates, updates[k].id);
      LastUpdateWins(kind, created, updates, k);
    }
  }

  // ---------------------------------------------------------------- what the checks and writes mean, column by column

  /** Every item is the owner's, lies within a day and has a weekday or a date, and no two meet. */
  ghost predicate ProperItems(kind: Kind, owner: int, items: seq<Item>) {
    && (forall i :: 0 <= i < |items| ==>
          var x := items[i].slot;
          && x.owner == owner && 0 <= x.startMin < x.endMin <= 1440
          && (kind == Weekly ==> 0 <= x.day <= 6) && (kind != Weekly ==> x.day > 0))
    && (forall i, j :: 0 <= i < j < |items| ==>
          var x, y := items[i].slot, items[j].slot; x.day != y.day || x.endMin <= y.startMin || y.endMin <= x.startMin)
  }

  lemma ItemsValidIff(kind: Kind, owner: int, items: seq<Item>)
    ensures ItemsValid(kind, owner, items) <==> ProperItems(kind, owner, items)
  {
  }

  lemma ItemsOfOwner(kind: Kind, owner: int, items: seq<Item>)
    requires ItemsValid(kind, owner, items)
    ensures forall x :: x in items ==> x.slot.owner == owner
  {
  }

  /** An item and a row share time; a row turned inside out shares time with nothing, except that for exceptions it
      meets what contains it. */
  ghost predicate Meets(kind: Kind, x: Slot, row: Slot) {
    && x.startMin < row.endMin && row.startMin < x.endMin
    && (kind == Dated || (row.startMin < row.endMin && x.startMin < x.endMin))
  }

  /** No item meets a row of its owner on its own day, other than the row it will overwrite. Rows of a dated table count
      when their day is one from the first to the last of the batch. */
  ghost predicate NothingInTheWay(kind: Kind, rows: map<int, Slot>, owner: int, items: seq<Item>) {
    forall x, id :: x in items && id in rows && rows[id].owner == owner && rows[id].day == x.slot.day
                    && (x.id <= 0 || x.id != id) && (kind == Weekly || WithinBatch(items, rows[id].day)) ==>
                      !Meets(kind, x.slot, rows[id])
  }

  ghost predicate WithinBatch(items: seq<Item>, day: int) {
    && (exists y :: y in items && y.slot.day - y.slot.day % 86_400_000 <= day)
    && (exists z :: z in items && day <= z.slot.day - z.slot.day % 86_400_000)
  }

  lemma {:induction false} ExtremeDays(items: seq<Item>)
    requires items != []
    ensures exists y :: y in items && y.slot.day == MinDay(items)
    ensures exists z :: z in items && z.slot.day == MaxDay(items)
  {
    var n := |items| - 1;
    if n > 0 {
      ExtremeDays(items[..n]);
    }
    assert items[n] in items && forall x :: x in items[..n] ==> x in items;
  }

  lemma ComparedIff(kind: Kind, row: Slot, owner: int, items: seq<Item>)
    requires items != []
    ensures Compared(kind, row, owner, items) <==> row.owner == owner && (kind == Weekly || WithinBatch(items, row.day))
  {
    ExtremeDays(items);
    forall x | x in items
      ensures Midnight(MinDay(items)) <= Midnight(x.slot.day) <= Midnight(MaxDay(items))
    {
      MidnightFacts(MinDay(items), x.slot.day);
      MidnightFacts(x.slot.day, MaxDay(items));
    }
  }

  lemma ClearOfExistingIff(kind: Kind, rows: map<int, Slot>, owner: int, items: seq<Item>)
    requires forall x :: x in items ==> x.slot.owner == owner
    ensures ClearOfExisting(kind, rows, owner, items) <==> NothingInTheWay(kind, rows, owner, items)
  {
    forall x, id | x in items && id in rows
      ensures Compared(kind, rows[id], owner, items)
              <==> rows[id].owner == owner && (kind == Weekly || WithinBatch(items, rows[id].day))
      ensures rows[id].owner == owner ==>
                (OverlapsWith(kind, x.slot, rows[id]) <==> rows[id].day == x.slot.day && Meets(kind, x.slot, rows[id]))
    {
      ComparedIff(kind, rows[id], owner, items);
    }
  }

  /** The day a write leaves in a dated table is the start of the day, in a weekly one the weekday. */
  function DayColumn(kind: Kind, day: int): int {
    if kind == Weekly then day else day - day % 86_400_000
  }

  /** The rows after a batch: rows that no item names stay; each new item has a row of its own with its columns; the
      last item that names a row writes its columns, except those that are zero, which are left as the row had them. */
  ghost predicate BatchSaved(kind: Kind, before: map<int, Slot>, after: map<int, Slot>, nextId: nat, items: seq<Item>) {
    && (forall id :: id in after <==> id in before || nextId <= id < nextId + |Creates(items)|)
    && (forall id :: id in before ==> Unnamed(items, id) ==> after[id] == before[id])
    && (forall k :: 0 <= k < |Creates(items)| ==> Unnamed(items, nextId + k) ==>
          CreateSaved(kind, Creates(items)[k].slot, after[nextId + k]))
    && (forall i :: 0 <= i < |items| && items[i].id > 0 && items[i].id in before ==>
          UpdateSaved(kind, before[items[i].id], after[items[i].id], items, i))
  }

  ghost predicate Unnamed(items: seq<Item>, id: int) {
    forall x :: x in items ==> x.id != id
  }

  ghost predicate CreateSaved(kind: Kind, x: Slot, row: Slot) {
    row == Slot(x.owner, DayColumn(kind, x.day), x.startMin, x.endMin, x.planned)
  }

  ghost predicate UpdateSaved(kind: Kind, before: Slot, after: Slot, items: seq<Item>, i: nat)
    requires i < |items|
  {
    (forall j :: i < j < |items| ==> items[j].id != items[i].id) ==>
      && Written(kind, items[i].slot, after)
      && ((forall j :: 0 <= j < i ==> items[j].id != items[i].id) ==> Kept(kind, items[i].slot, before, after))
  }

  ghost predicate Written(kind: Kind, x: Slot, row: Slot) {
    && (x.owner != 0 ==> row.owner == x.owner)
    && (kind != Weekly || x.day != 0 ==> row.day == DayColumn(kind, x.day))
    && (x.startMin != 0 ==> row.startMin == x.startMin)
    && (x.endMin != 0 ==> row.endMin == x.endMin)
    && row.planned == x.planned
  }

  ghost predicate Kept(kind: Kind, x: Slot, before: Slot, after: Slot) {
    && (x.owner == 0 ==> after.owner == before.owner)
    && (kind == Weekly && x.day == 0 ==> after.day == before.day)
    && (x.startMin == 0 ==> after.startMin == before.startMin)
    && (x.endMin == 0 ==> after.endMin == before.endMin)
  }

  lemma MergeWrites(kind: Kind, row: Slot, x: Slot)
    ensures Written(kind, x, Merge(kind, row, x)) && Kept(kind, x, row, Merge(kind, row, x))
  {
  }

  lemma UpdatesNotOf(items: seq<Item>, id: int)
    requires forall j :: 0 <= j < |items| ==> items[j].id != id
    ensures forall l :: 0 <= l < |Updates(items)| ==> Updates(items)[l].id != id
  {
    forall l | 0 <= l < |Updates(items)|
      ensures Updates(items)[l].id != id
    {
      assert Updates(items)[l] in Updates(items);
    }
  }

  /** An update's place keeps its properties when one more update follows that is not of the same row. */
  lemma PlaceKept(rest: seq<Item>, more: seq<Item>, last: Item, k: nat)
    requires k < |rest| && (more == rest || more == rest + [last])
    ensures more[k] == rest[k]
    ensures LastOfItsRow(rest, k) && last.id != rest[k].id ==> LastOfItsRow(more, k)
    ensures (forall l :: 0 <= l < k ==> rest[l].id != rest[k].id) ==>
              forall l :: 0 <= l < k ==> more[l].id != rest[k].id
  {
  }

  lemma {:induction false} PlaceInUpdates(items: seq<Item>, i: nat) returns (k: nat)
    requires i < |items| && items[i].id > 0
    ensures k < |Updates(items)| && Updates(items)[k] == items[i]
    ensures (forall j :: i < j < |items| ==> items[j].id != items[i].id) ==> LastOfItsRow(Updates(items), k)
    ensures (forall j :: 0 <= j < i ==> items[j].id != items[i].id) ==>
              forall l :: 0 <= l < k ==> Updates(items)[l].id != items[i].id
  {
    var n := |items| - 1;
    var rest, last := Updates(items[..n]), items[n];
    assert Updates(items) == if last.id > 0 then rest + [last] else rest;
    if i == n {
      k := |rest|;
      if forall j :: 0 <= j < i ==> items[j].id != items[i].id {
        UpdatesNotOf(items[..n], items[i].id);
      }
    } else {
      k := PlaceInUpdates(items[..n], i);
      assert items[..n][i] == items[i];
      PlaceKept(rest, Updates(items), last, k);
    }
  }

  lemma UpdateIsWritten(kind: Kind, rows: map<int, Slot>, nextId: nat, items: seq<Item>, i: nat)
    requires WellFormed(rows, nextId) && i < |items| && items[i].id > 0 && items[i].id in rows
    ensures var after := Saved(kind, rows, nextId, items);
            items[i].id in after && UpdateSaved(kind, rows[items[i].id], after[items[i].id], items, i)
  {
    var updates, created := Updates(items), Created(kind, rows, Creates(items), nextId);
    CreatedRows(kind, rows, Creates(items), nextId);
    UnnamedRowsStay(kind, created, updates, items[i].id);
    if forall j :: i < j < |items| ==> items[j].id != items[i].id {
      var k := PlaceInUpdates(items, i);
      LastUpdateWins(kind, created, updates, k);
      MergeWrites(kind, Updated(kind, created, updates[..k])[items[i].id], items[i].slot);
      UnnamedRowsStay(kind, created, updates[..k], items[i].id);
    }
  }

  lemma RowAfter(kind: Kind, rows: map<int, Slot>, nextId: nat, creates: seq<Item>, updates: seq<Item>, id: int)
    requires WellFormed(rows, nextId)
    ensures var after := Updated(kind, Created(kind, rows, creates, nextId), updates);
            && (id in after <==> id in rows || nextId <= id < nextId + |creates|)
            && (Unnamed(updates, id) && id in rows ==> after[id] == rows[id])
            && (Unnamed(updates, id) && nextId <= id < nextId + |creates| ==>
                  CreateSaved(kind, creates[id - nextId].slot, after[id]))
  {
    CreatedRows(kind, rows, creates, nextId);
    UnnamedRowsStay(kind, Created(kind, rows, creates, nextId), updates, id);
    if nextId <= id < nextId + |creates| {
      assert Created(kind, rows, creates, nextId)[nextId + (id - nextId)] == Stored(kind, creates[id - nextId].slot);
    }
  }

  lemma UnnamedRow(kind: Kind, rows: map<int, Slot>, nextId: nat, items: seq<Item>, id: int)
    requires WellFormed(rows, nextId)
    ensures id in Saved(kind, rows, nextId, items) <==> id in rows || nextId <= id < nextId + |Creates(items)|
    ensures Unnamed(items, id) ==>
              && (id in rows ==> Saved(kind, rows, nextId, items)[id] == rows[id])
              && (nextId <= id < nextId + |Creates(items)| ==>
                    CreateSaved(kind, Creates(items)[id - nextId].slot, Saved(kind, rows, nextId, items)[id]))
  {
    RowAfter(kind, rows, nextId, Creates(items), Updates(items), id);
    assert Unnamed(items, id) ==> Unnamed(Updates(items), id);
  }

  lemma BatchIsSaved(kind: Kind, rows: map<int, Slot>, nextId: nat, items: seq<Item>)
    requires WellFormed(rows, nextId)
    ensures BatchSaved(kind, rows, Saved(kind, rows, nextId, items), nextId, items)
  {
    var after := Saved(kind, rows, nextId, items);
    forall id {
      UnnamedRow(kind, rows, nextId, items, id);
    }
    forall i | 0 <= i < |items| && items[i].id > 0 && items[i].id in rows
      ensures UpdateSaved(kind, rows[items[i].id], after[items[i].id], items, i)
    {
      UpdateIsWritten(kind, rows, nextId, items, i);
    }
  }

  lemma SingleParts(item: Item)
    ensures Creates([item]) == if item.id > 0 then [] else [item]
    ensures Updates([item]) == if item.id > 0 then [item] else []
  {
  }

  lemma SavedSingle(kind: Kind, rows: map<int, Slot>, nextId: nat, item: Item)
    ensures Saved(kind, rows, nextId, [item])
            == if item.id > 0 then UpdatedBy(kind, rows, item) else rows[nextId := Stored(kind, item.slot)]
  {
    SingleParts(item);
    var one := [item];
    assert one[..|one| - 1] == [];
    if item.id > 0 {
      assert Updated(kind, rows, one) == UpdatedBy(kind, Updated(kind, rows, []), item);
    } else {
      assert Created(kind, rows, one, nextId) == Created(kind, rows, [], nextId)[nextId := Stored(kind, item.slot)];
    }
  }

  /** A Sunday update is safe too when the row is on Sunday already. */
  lemma SundayRowMayBeUpdated(owner: int, rows: map<int, Slot>, nextId: nat, item: Item)
    requires owner != 0 && nextId > 0 && OverlapFree(Weekly, rows) && WellFormed(rows, nextId)
    requires ItemsValid(Weekly, owner, [item]) && ClearOfExisting(Weekly, rows, owner, [item])
    requires item.id in rows && rows[item.id].day == item.slot.day == 0
    ensures OverlapFree(Weekly, Saved(Weekly, rows, nextId, [item]))
  {
    SingleParts(item);
    SavedSingle(Weekly, rows, nextId, item);
    SaveKeepsOverlapFree(Weekly, owner, rows, nextId, [item]);
  }

  // ---------------------------------------------------------------- replacing

  function DaysOf(items: seq<Item>): set<int> { set x | x in items :: x.slot.day }

  function WithoutDays(rows: map<int, Slot>, owner: int, days: set<int>): map<int, Slot> {
    map id | id in rows && !(rows[id].owner == owner && rows[id].day in days) :: rows[id]
  }

  function WithoutRange(rows: map<int, Slot>, owner: int, from: int, to: int): map<int, Slot> {
    map id | id in rows && !(rows[id].owner == owner && Midnight(from) <= rows[id].day <= Midnight(to)) :: rows[id]
  }

  ghost predicate StoredApart(kind: Kind, items: seq<Item>) {
    forall i, j :: 0 <= i < j < |items| ==>
        !OverlapsWith(kind, Stored(kind, items[i].slot), Stored(kind, items[j].slot))
  }

  lemma CreatedKeepsOverlapFree(kind: Kind, owner: int, rows: map<int, Slot>, items: seq<Item>, firstId: nat)
    requires WellFormed(rows, firstId) && OverlapFree(kind, rows) && StoredApart(kind, items)
    requires forall x :: x in items ==> x.slot.owner == owner
    requires forall x, id :: x in items && id in rows && rows[id].owner == owner ==>
             rows[id].day != Stored(kind, x.slot).day
    ensures OverlapFree(kind, Created(kind, rows, items, firstId))
  {
    CreatedRows(kind, rows, items, firstId);
    var cur := Created(kind, rows, items, firstId);
    forall a, b | a in cur && b in cur && a != b
      ensures !Clash(kind, cur[a], cur[b])
    {
      if a !in rows && b !in rows {
        var i, j := a - firstId, b - firstId;
        assert i < j ==> !OverlapsWith(kind, Stored(kind, items[i].slot), Stored(kind, items[j].slot));
        assert j < i ==> !OverlapsWith(kind, Stored(kind, items[j].slot), Stored(kind, items[i].slot));
      } else if a !in rows {
        assert items[a - firstId] in items;
      } else if b !in rows {
        assert items[b - firstId] in items;
      }
    }
  }

  function ReplacedWeek(rows: map<int, Slot>, nextId: nat, owner: int, items: seq<Item>): map<int, Slot> {
    Created(Weekly, WithoutDays(rows, owner, DaysOf(items)), items, nextId)
  }

  /** Replacing whole weekdays is always safe. */
  lemma ReplaceWeekKeepsOverlapFree(owner: int, rows: map<int, Slot>, nextId: nat, items: seq<Item>)
    requires WellFormed(rows, nextId) && OverlapFree(Weekly, rows) && ItemsValid(Weekly, owner, items)
    ensures OverlapFree(Weekly, ReplacedWeek(rows, nextId, owner, items))
  {
    var rest := WithoutDays(rows, owner, DaysOf(items));
    assert forall a, b :: a in rest && b in rest && a != b ==> !Clash(Weekly, rows[a], rows[b]);
    CreatedKeepsOverlapFree(Weekly, owner, rest, items, nextId);
  }

  /** The user's rows of the weekdays named by the items are gone, each item is a new row, and all other rows are as
      they were. */
  ghost predicate WeekReplaced(before: map<int, Slot>, after: map<int, Slot>, nextId: nat, userId: int,
                               items: seq<Item>) {
    && (forall id :: id in before ==>
          && (id in after <==> before[id].owner != userId || forall x :: x in items ==> x.slot.day != before[id].day)
          && (id in after ==> after[id] == before[id]))
    && (forall id :: id in after && id !in before <==> nextId <= id < nextId + |items|)
    && (forall k :: 0 <= k < |items| ==> after[nextId + k] == items[k].slot)
  }

  lemma WeekIsReplaced(rows: map<int, Slot>, nextId: nat, userId: int, items: seq<Item>)
    requires WellFormed(rows, nextId)
    ensures WeekReplaced(rows, ReplacedWeek(rows, nextId, userId, items), nextId, userId, items)
  {
    CreatedRows(Weekly, WithoutDays(rows, userId, DaysOf(items)), items, nextId);
  }

  /** A row of the user whose day is between those of two times. */
  ghost predicate OfUserOnDays(row: Slot, userId: int, from: int, to: int) {
    row.owner == userId && from - from % 86_400_000 <= row.day <= to - to % 86_400_000
  }

  /** The user's rows of the days of the range are gone, each item is a new row under the start of its day, and all
      other rows are as they were. */
  ghost predicate RangeReplaced(before: map<int, Slot>, after: map<int, Slot>, nextId: nat, userId: int, from: int,
                                to: int, items: seq<Item>) {
    && (forall id :: id in before ==>
          && (id in after <==> !OfUserOnDays(before[id], userId, from, to))
          && (id in after ==> after[id] == before[id]))
    && (forall id :: id in after && id !in before <==> nextId <= id < nextId + |items|)
    && (forall k :: 0 <= k < |items| ==>
          after[nextId + k] == items[k].slot.(day := items[k].slot.day - items[k].slot.day % 86_400_000))
  }

  lemma RangeIsReplaced(rows: map<int, Slot>, nextId: nat, userId: int, from: int, to: int, items: seq<Item>)
    requires WellFormed(rows, nextId)
    ensures RangeReplaced(rows, ReplacedRange(rows, nextId, userId, from, to, items), nextId, userId, from, to, items)
  {
    CreatedRows(Dated, WithoutRange(rows, userId, from, to), items, nextId);
  }

  function ReplacedRange(rows: map<int, Slot>, nextId: nat, owner: int, from: int, to: int, items: seq<Item>)
    : map<int, Slot>
  {
    Created(Dated, WithoutRange(rows, owner, from, to), items, nextId)
  }

  ghost predicate InsideRange(from: int, to: int, items: seq<Item>) {
    forall x :: x in items ==> Midnight(from) <= Midnight(x.slot.day) <= Midnight(to)
  }

  ghost predicate ReplaceSafe(owner: int, from: int, to: int, items: seq<Item>, rows: map<int, Slot>, nextId: nat) {
    nextId > 0 && WellFormed(rows, nextId) && OverlapFree(Dated, rows) ==>
      OverlapFree(Dated, ReplacedRange(rows, nextId, owner, from, to, items))
  }

  lemma ReplaceRangeKeepsOverlapFree(owner: int, from: int, to: int, rows: map<int, Slot>, nextId: nat,
                                     items: seq<Item>)
    requires WellFormed(rows, nextId) && OverlapFree(Dated, rows) && ItemsValid(Dated, owner, items)
    requires InsideRange(from, to, items) && StoredApart(Dated, items)
    ensures OverlapFree(Dated, ReplacedRange(rows, nextId, owner, from, to, items))
  {
    var rest := WithoutRange(rows, owner, from, to);
    assert forall a, b :: a in rest && b in rest && a != b ==> !Clash(Dated, rows[a], rows[b]);
    CreatedKeepsOverlapFree(Dated, owner, rest, items, nextId);
  }

  /** Replacing a date range is safe for every table if and only if the items lie in the range and stay apart once
      their dates are cut to midnight. */
  lemma ReplaceSafeIff(owner: int, from: int, to: int, items: seq<Item>)
    requires ItemsValid(Dated, owner, items)
    ensures (forall rows, nextId :: ReplaceSafe(owner, from, to, items, rows, nextId))
            <==> InsideRange(from, to, items) && StoredApart(Dated, items)
  {
    if InsideRange(from, to, items) && StoredApart(Dated, items) {
      forall rows: map<int, Slot>, nextId: nat
        ensures ReplaceSafe(owner, from, to, items, rows, nextId)
      {
        if nextId > 0 && WellFormed(rows, nextId) && OverlapFree(Dated, rows) {
          ReplaceRangeKeepsOverlapFree(owner, from, to, rows, nextId, items);
        }
      }
    } else if !InsideRange(from, to, items) {
      var i :| 0 <= i < |items| && !(Midnight(from) <= Midnight(items[i].slot.day) <= Midnight(to));
      ItemOutsideCollides(owner, from, to, items, i);
    } else {
      SameMidnightCollides(owner, from, to, items);
    }
  }

  lemma SameMidnightCollides(owner: int, from: int, to: int, items: seq<Item>)
    requires ItemsValid(Dated, owner, items) && !StoredApart(Dated, items)
    ensures exists rows, nextId :: !ReplaceSafe(owner, from, to, items, rows, nextId)
  {
    var i, j :| 0 <= i < j < |items| && OverlapsWith(Dated, Stored(Dated, items[i].slot), Stored(Dated, items[j].slot));
    var rows: map<int, Slot> := map[];
    CreatedRows(Dated, WithoutRange(rows, owner, from, to), items, 1);
    var cur := ReplacedRange(rows, 1, owner, from, to, items);
    assert Clash(Dated, cur[1 + i], cur[1 + j]);
    assert !ReplaceSafe(owner, from, to, items, rows, 1);
  }

  lemma ItemOutsideCollides(owner: int, from: int, to: int, items: seq<Item>, i: nat)
    requires ItemsValid(Dated, owner, items) && i < |items|
    requires !(Midnight(from) <= Midnight(items[i].slot.day) <= Midnight(to))
    ensures exists rows, nextId :: !ReplaceSafe(owner, from, to, items, rows, nextId)
  {
    var rows: map<int, Slot> := map[1 := Stored(Dated, items[i].slot)];
    var rest := WithoutRange(rows, owner, from, to);
    CreatedRows(Dated, rest, items, 2);
    var cur := ReplacedRange(rows, 2, owner, from, to, items);
    assert cur[1] == cur[2 + i] == Stored(Dated, items[i].slot);
    assert Clash(Dated, cur[1], cur[2 + i]);
    assert !ReplaceSafe(owner, from, to, items, rows, 2);
  }

  // ---------------------------------------------------------------- moving an event

  function MovedSlot(row: Slot, newDate: int, newStart: int, newEnd: int): Slot {
    Merge(Planned, row, Slot(row.owner, newDate, newStart, newEnd, row.planned))
  }

  /** What is reported: the plan's other events of the new day that the requested interval meets. */
  predicate Conflicts(rows: map<int, Slot>, eventId: int, newDate: int, newStart: int, newEnd: int, id: int)
    requires eventId in rows && id in rows
  {
    && id != eventId && rows[id].owner == rows[eventId].owner
    && Midnight(newDate) <= rows[id].day <= Midnight(newDate)
    && newStart < rows[id].endMin && newEnd > rows[id].startMin
  }

  predicate TimeAllowed(newStart: int, newEnd: int) { 0 <= newStart < newEnd <= MINUTES_A_DAY }

  lemma MoveKeepsOverlapFree(rows: map<int, Slot>, nextId: nat, eventId: int, newDate: int, newStart: int, newEnd: int)
    requires WellFormed(rows, nextId) && OverlapFree(Planned, rows) && eventId in rows && TimeAllowed(newStart, newEnd)
    requires forall id :: id in rows ==> !Conflicts(rows, eventId, newDate, newStart, newEnd, id)
    ensures OverlapFree(Planned, rows[eventId := MovedSlot(rows[eventId], newDate, newStart, newEnd)])
  {
  }

  /** The start a move ends up with: a requested 0 leaves the row's. */
  function WrittenStart(row: Slot, newStart: int): int {
    if newStart == 0 then row.startMin else newStart
  }

  /** After a move the plan is free of overlap if and only if no proper event would have been reported for the interval
      that is really written; when the start is written as requested and no row is turned inside out, that is the report
      given. */
  lemma ConflictReportExact(rows: map<int, Slot>, nextId: nat, eventId: int, newDate: int, newStart: int, newEnd: int)
    requires WellFormed(rows, nextId) && OverlapFree(Planned, rows) && eventId in rows && TimeAllowed(newStart, newEnd)
    ensures var start := WrittenStart(rows[eventId], newStart);
            && (OverlapFree(Planned, rows[eventId := MovedSlot(rows[eventId], newDate, newStart, newEnd)])
                <==> start >= newEnd || forall id :: id in rows ==>
                       rows[id].startMin >= rows[id].endMin || !Conflicts(rows, eventId, newDate, start, newEnd, id))
            && (newStart > 0 ==> start == newStart < newEnd)
  {
    var start := WrittenStart(rows[eventId], newStart);
    var cur := rows[eventId := MovedSlot(rows[eventId], newDate, newStart, newEnd)];
    if id :| id in rows && start < newEnd && rows[id].startMin < rows[id].endMin
             && Conflicts(rows, eventId, newDate, start, newEnd, id) {
      assert Clash(Planned, cur[eventId], cur[id]);
    } else {
      forall a, b | a in cur && b in cur && a != b
        ensures !Clash(Planned, cur[a], cur[b])
      {
        assert a != eventId && b != eventId ==> !Clash(Planned, rows[a], rows[b]);
      }
    }
  }

  // ---------------------------------------------------------------- runs

  datatype Operation =
    | Save(owner: int, items: seq<Item>)
    | ReplaceWeek(owner: int, items: seq<Item>)
    | ReplaceRange(owner: int, from: int, to: int, items: seq<Item>)
    | DeleteRange(owner: int, from: int, to: int)
    | Move(eventId: int, newDate: int, newStart: int, newEnd: int)

  datatype Table = Table(rows: map<int, Slot>, nextId: nat) {
    ghost predicate Valid() { nextId > 0 && WellFormed(rows, nextId) }
  }

  /** Whether the operation gets past its checks. */
  ghost predicate Accepted(kind: Kind, t: Table, op: Operation) {
    match op
    case Save(owner, items) => ItemsValid(kind, owner, items) && ClearOfExisting(kind, t.rows, owner, items)
    case ReplaceWeek(owner, items) => kind.Weekly? && ItemsValid(kind, owner, items)
    case ReplaceRange(owner, from, to, items) => kind.Dated? && from <= to && ItemsValid(kind, owner, items)
    case DeleteRange(owner, from, to) => kind.Dated? && from <= to
    case Move(eventId, _, newStart, newEnd) =>
      kind.Planned? && eventId in t.rows && t.rows[eventId].planned && TimeAllowed(newStart, newEnd)
  }

  ghost function After(kind: Kind, t: Table, op: Operation): Table {
    if !Accepted(kind, t, op) then t
    else match op
      case Save(owner, items) => Table(Saved(kind, t.rows, t.nextId, items), t.nextId + |Creates(items)|)
      case ReplaceWeek(owner, items) => Table(ReplacedWeek(t.rows, t.nextId, owner, items), t.nextId + |items|)
      case ReplaceRange(owner, from, to, items) =>
        Table(ReplacedRange(t.rows, t.nextId, owner, from, to, items), t.nextId + |items|)
      case DeleteRange(owner, from, to) => Table(WithoutRange(t.rows, owner, from, to), t.nextId)
      case Move(eventId, newDate, newStart, newEnd) =>
        Table(t.rows[eventId := MovedSlot(t.rows[eventId], newDate, newStart, newEnd)], t.nextId)
  }

  /** What the operation needs to be harmless, checked before the call; for a move, the report it gives. */
  ghost predicate Careful(t: Table, kind: Kind, op: Operation) {
    match op
    case Save(owner, items) => owner != 0 && DecidingDaysWritten(kind, items)
    case ReplaceWeek(_, _) => true
    case ReplaceRange(_, from, to, items) => InsideRange(from, to, items) && StoredApart(Dated, items)
    case DeleteRange(_, _, _) => true
    case Move(eventId, newDate, newStart, newEnd) =>
      eventId in t.rows ==> forall id :: id in t.rows ==> !Conflicts(t.rows, eventId, newDate, newStart, newEnd, id)
  }

  ghost function Run(kind: Kind, t: Table, ops: seq<Operation>): Table
    decreases |ops|
  {
    if ops == [] then t else After(kind, Run(kind, t, ops[..|ops| - 1]), ops[|ops| - 1])
  }

  lemma {:induction false} UpdatedWellFormed(kind: Kind, rows: map<int, Slot>, items: seq<Item>, nextId: nat)
    requires WellFormed(rows, nextId) && forall x :: x in items ==> IsValid(kind, x.slot)
    ensures WellFormed(Updated(kind, rows, items), nextId)
  {
    if items != [] {
      UpdatedWellFormed(kind, rows, items[..|items| - 1], nextId);
      assert items[|items| - 1] in items;
    }
  }

  lemma AfterIsValid(kind: Kind, t: Table, op: Operation)
    requires t.Valid()
    ensures After(kind, t, op).Valid()
  {
    if Accepted(kind, t, op) {
      match op
      case Save(owner, items) =>
        CreatedWellFormed(kind, t.rows, Creates(items), t.nextId);
        UpdatedWellFormed(kind, Created(kind, t.rows, Creates(items), t.nextId), Updates(items),
                          t.nextId + |Creates(items)|);
      case ReplaceWeek(owner, items) =>
        CreatedWellFormed(kind, WithoutDays(t.rows, owner, DaysOf(items)), items, t.nextId);
      case ReplaceRange(owner, from, to, items) =>
        CreatedWellFormed(kind, WithoutRange(t.rows, owner, from, to), items, t.nextId);
      case DeleteRange(owner, from, to) =>
      case Move(eventId, newDate, newStart, newEnd) =>
    }
  }

  lemma StepKeepsOverlapFree(kind: Kind, t: Table, op: Operation)
    requires t.Valid() && OverlapFree(kind, t.rows) && Careful(t, kind, op)
    ensures OverlapFree(kind, After(kind, t, op).rows)
  {
    if Accepted(kind, t, op) {
      match op
      case Save(owner, items) =>
        WrittenDaysAreKept(kind, t.rows, t.nextId, items);
        SaveKeepsOverlapFree(kind, owner, t.rows, t.nextId, items);
      case ReplaceWeek(owner, items) =>
        ReplaceWeekKeepsOverlapFree(owner, t.rows, t.nextId, items);
      case ReplaceRange(owner, from, to, items) =>
        ReplaceRangeKeepsOverlapFree(owner, from, to, t.rows, t.nextId, items);
      case DeleteRange(owner, from, to) =>
        var rest := WithoutRange(t.rows, owner, from, to);
        assert forall a, b :: a in rest && b in rest && a != b ==> !Clash(kind, t.rows[a], t.rows[b]);
      case Move(eventId, newDate, newStart, newEnd) =>
        MoveKeepsOverlapFree(t.rows, t.nextId, eventId, newDate, newStart, newEnd);
    }
  }

  /** Every run of careful operations, accepted and refused ones mixed, keeps the table free of overlap. */
  lemma {:induction false} RunKeepsOverlapFree(kind: Kind, t: Table, ops: seq<Operation>)
    requires t.Valid() && OverlapFree(kind, t.rows)
    requires forall i :: 0 <= i < |ops| ==> Careful(Run(kind, t, ops[..i]), kind, ops[i])
    ensures Run(kind, t, ops).Valid() && OverlapFree(kind, Run(kind, t, ops).rows)
    decreases |ops|
  {
    if ops != [] {
      var n := |ops| - 1;
      assert forall i :: 0 <= i < n ==> ops[..n][..i] == ops[..i];
      RunKeepsOverlapFree(kind, t, ops[..n]);
      AfterIsValid(kind, Run(kind, t, ops[..n]), ops[n]);
      StepKeepsOverlapFree(kind, Run(kind, t, ops[..n]), ops[n]);
    }
  }

  /** A save in terms of the columns of items and rows. */
  lemma SaveMeans(kind: Kind, t: Table, owner: int, items: seq<Item>)
    requires t.Valid()
    ensures Accepted(kind, t, Save(owner, items)) <==>
            ProperItems(kind, owner, items) && NothingInTheWay(kind, t.rows, owner, items)
    ensures Accepted(kind, t, Save(owner, items)) ==>
              BatchSaved(kind, t.rows, After(kind, t, Save(owner, items)).rows, t.nextId, items)
  {
    ItemsValidIff(kind, owner, items);
    if ItemsValid(kind, owner, items) {
      ItemsOfOwner(kind, owner, items);
      ClearOfExistingIff(kind, t.rows, owner, items);
      BatchIsSaved(kind, t.rows, t.nextId, items);
    }
  }
}
