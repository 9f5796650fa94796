/** Tables of time slots: weekly availability, dated exceptions and the events of a plan share their save path. */
module CalendarSlots {
  import opened TimeUnits

  /** Dates are written to the tables cut down to midnight UTC. */
  function Midnight(ms: int): int { ms - ms % DAY_MS }

  lemma MidnightFacts(a: int, b: int)
    ensures Midnight(Midnight(a)) == Midnight(a) <= a
    ensures a <= b ==> Midnight(a) <= Midnight(b)
  {
  }

  datatype Kind = Weekly | Dated | Planned

  /** `owner` is the user, for events the plan; `day` is the weekday (0 is Sunday) or a date in ms; `planned` is the
      event status and true elsewhere. */
  datatype Slot = Slot(owner: int, day: int, startMin: int, endMin: int, planned: bool) {
    predicate Takes(who: int, onDay: int, minute: int) { owner == who && day == onDay && startMin <= minute < endMin }
  }

  datatype Item = Item(id: int, slot: Slot)

  predicate OverlapsWith(kind: Kind, a: Slot, b: Slot) {
    if a.day != b.day || (kind.Planned? && a.owner != b.owner) then false
    else if kind.Dated? then a.startMin < b.endMin && b.startMin < a.endMin
    else Max(a.startMin, b.startMin) < Min(a.endMin, b.endMin)
  }

  predicate IsValid(kind: Kind, x: Slot) {
    && (if kind.Weekly? then 0 <= x.day <= 6 else x.day > 0)
    && 0 <= x.startMin < x.endMin <= MINUTES_A_DAY
  }

  ghost predicate Clash(kind: Kind, a: Slot, b: Slot) {
    a.owner == b.owner && OverlapsWith(kind, a, b)
  }

  /** No two rows of one owner overlap. */
  ghost predicate OverlapFree(kind: Kind, rows: map<int, Slot>) {
    forall a, b :: a in rows && b in rows && a != b ==> !Clash(kind, rows[a], rows[b])
  }

  /** Overlap is about shared minutes, whatever formula a table uses. */
  lemma OverlapMeansSharedMinute(kind: Kind, a: Slot, b: Slot)
    requires IsValid(kind, a) && IsValid(kind, b)
    ensures Clash(kind, a, b) <==> exists m :: a.Takes(a.owner, a.day, m) && b.Takes(a.owner, a.day, m)
  {
    if Clash(kind, a, b) {
      var m := Max(a.startMin, b.startMin);
      assert a.Takes(a.owner, a.day, m) && b.Takes(a.owner, a.day, m);
    }
  }

  // ---------------------------------------------------------------- what the writes store

  function Stored(kind: Kind, x: Slot): Slot {
    if kind.Weekly? then x else x.(day := Midnight(x.day))
  }

  /** An update leaves a column as it is where the new value is zero; a date is never zero, a weekday and a start can
      be. */
  function Merge(kind: Kind, row: Slot, item: Slot): Slot {
    Slot(if item.owner == 0 then row.owner else item.owner,
         if kind.Weekly? && item.day == 0 then row.day else Stored(kind, item).day,
         if item.startMin == 0 then row.startMin else item.startMin,
         if item.endMin == 0 then row.endMin else item.endMin,
         item.planned)
  }

  /** An update of a valid row by a valid item leaves it valid if and only if the new start is written or the old start
      is before the new end (and, for dates, the day is not the first of the epoch, which the check takes for
      missing). */
  lemma MergedRowValidIff(kind: Kind, row: Slot, item: Slot)
    requires IsValid(kind, row) && IsValid(kind, item)
    ensures IsValid(kind, Merge(kind, row, item)) <==>
            (item.startMin != 0 || row.startMin < item.endMin) && (kind.Weekly? || Midnight(item.day) > 0)
  {
  }

  function Created(kind: Kind, rows: map<int, Slot>, items: seq<Item>, firstId: nat): map<int, Slot> {
    if items == [] then rows
    else
      var n := |items| - 1;
      Created(kind, rows, items[..n], firstId)[firstId + n := Stored(kind, items[n].slot)]
  }

  function UpdatedBy(kind: Kind, rows: map<int, Slot>, item: Item): map<int, Slot> {
    if item.id in rows then rows[item.id := Merge(kind, rows[item.id], item.slot)] else rows
  }

  function Updated(kind: Kind, rows: map<int, Slot>, items: seq<Item>): map<int, Slot> {
    if items == [] then rows
    else UpdatedBy(kind, Updated(kind, rows, items[..|items| - 1]), items[|items| - 1])
  }

  /** A batch of updates touches no row it does not name, and adds none. */
  lemma {:induction false} UnnamedRowsStay(kind: Kind, rows: map<int, Slot>, items: seq<Item>, id: int)
    ensures id in Updated(kind, rows, items) <==> id in rows
    ensures id in rows && (forall x :: x in items ==> x.id != id) ==> Updated(kind, rows, items)[id] == rows[id]
  {
    if items != [] {
      UnnamedRowsStay(kind, rows, items[..|items| - 1], id);
    }
  }

  /** The last update of a row decides it: on top of what the earlier ones left, its non-zero columns are written. */
  lemma {:induction false} LastUpdateWins(kind: Kind, rows: map<int, Slot>, items: seq<Item>, i: nat)
    requires i < |items| && items[i].id in rows && forall j :: i < j < |items| ==> items[j].id != items[i].id
    ensures var id := items[i].id;
            && id in Updated(kind, rows, items) && id in Updated(kind, rows, items[..i])
            && Updated(kind, rows, items)[id] == Merge(kind, Updated(kind, rows, items[..i])[id], items[i].slot)
    decreases |items|
  {
    UnnamedRowsStay(kind, rows, items[..i], items[i].id);
    if i < |items| - 1 {
      var rest := items[..|items| - 1];
      assert rest[..i] == items[..i];
      LastUpdateWins(kind, rows, rest, i);
    }
  }

  function Creates(items: seq<Item>): (r: seq<Item>)
    ensures forall x :: x in r <==> x in items && x.id <= 0
  {
    if items == [] then []
    else Creates(items[..|items| - 1]) + (if items[|items| - 1].id > 0 then [] else [items[|items| - 1]])
  }

  function Updates(items: seq<Item>): (r: seq<Item>)
    ensures forall x :: x in r <==> x in items && x.id > 0
  {
    if items == [] then []
    else Updates(items[..|items| - 1]) + (if items[|items| - 1].id > 0 then [items[|items| - 1]] else [])
  }

  function Saved(kind: Kind, rows: map<int, Slot>, nextId: nat, items: seq<Item>): map<int, Slot> {
    Updated(kind, Created(kind, rows, Creates(items), nextId), Updates(items))
  }

  // ---------------------------------------------------------------- validation

  ghost predicate ItemsValid(kind: Kind, owner: int, items: seq<Item>) {
    && (forall i :: 0 <= i < |items| ==> items[i].slot.owner == owner && IsValid(kind, items[i].slot))
    && (forall i, j :: 0 <= i < j < |items| ==> !OverlapsWith(kind, items[i].slot, items[j].slot))
  }

  function MinDay(items: seq<Item>): (d: int)
    requires items != []
    ensures forall x :: x in items ==> d <= x.slot.day
  {
    var last := items[|items| - 1].slot.day;
    if |items| == 1 then last else Min(MinDay(items[..|items| - 1]), last)
  }

  function MaxDay(items: seq<Item>): (d: int)
    requires items != []
    ensures forall x :: x in items ==> x.slot.day <= d
  {
    var last := items[|items| - 1].slot.day;
    if |items| == 1 then last else Max(MaxDay(items[..|items| - 1]), last)
  }

  /** The rows a batch is compared with: the owner's, for dated tables those from the first to the last date of the
      batch. */
  predicate Compared(kind: Kind, row: Slot, owner: int, items: seq<Item>) {
    && row.owner == owner
    && (kind.Weekly? || (items != [] && Midnight(MinDay(items)) <= row.day <= Midnight(MaxDay(items))))
  }

  ghost predicate ClearOfExisting(kind: Kind, rows: map<int, Slot>, owner: int, items: seq<Item>) {
    forall x, id :: x in items && id in rows && Compared(kind, rows[id], owner, items) && !(x.id > 0 && x.id == id) ==>
                      !OverlapsWith(kind, x.slot, rows[id])
  }

  /** What a table always holds: positive ids below the next one, and no start before midnight. */
  ghost predicate WellFormed(rows: map<int, Slot>, nextId: nat) {
    forall id :: id in rows ==> 0 < id < nextId && 0 <= rows[id].startMin && 0 < rows[id].endMin
  }

  lemma {:induction false} CreatedWellFormed(kind: Kind, rows: map<int, Slot>, items: seq<Item>, firstId: nat)
    requires firstId > 0 && WellFormed(rows, firstId) && forall x :: x in items ==> IsValid(kind, x.slot)
    ensures WellFormed(Created(kind, rows, items, firstId), firstId + |items|)
  {
    if items != [] {
      CreatedWellFormed(kind, rows, items[..|items| - 1], firstId);
      assert items[|items| - 1] in items;
    }
  }

  lemma {:induction false} CreatedRows(kind: Kind, rows: map<int, Slot>, items: seq<Item>, firstId: nat)
    requires WellFormed(rows, firstId)
    ensures var cur := Created(kind, rows, items, firstId);
            && (forall id :: id in cur <==> id in rows || firstId <= id < firstId + |items|)
            && (forall id :: id in rows ==> cur[id] == rows[id])
            && (forall i :: 0 <= i < |items| ==> cur[firstId + i] == Stored(kind, items[i].slot))
  {
    if items != [] {
      CreatedRows(kind, rows, items[..|items| - 1], firstId);
    }
  }

  lemma CreatesDistinct(kind: Kind, owner: int, items: seq<Item>)
    requires ItemsValid(kind, owner, items)
    ensures ItemsValid(kind, owner, Creates(items))
    ensures forall i, j :: 0 <= i < j < |Creates(items)| ==> Creates(items)[i] != Creates(items)[j]
  {
    if items != [] {
      var rest, last := items[..|items| - 1], items[|items| - 1];
      CreatesDistinct(kind, owner, rest);
      forall x | x in Creates(rest)
        ensures !OverlapsWith(kind, x.slot, last.slot)
      {
        var i :| 0 <= i < |rest| && rest[i] == x;
        assert items[i] == x;
      }
      var r := Creates(items);
      forall i, j | 0 <= i < j < |r|
        ensures !OverlapsWith(kind, r[i].slot, r[j].slot)
      {
        assert i < |Creates(rest)| ==> r[i] in Creates(rest);
      }
    }
    var r := Creates(items);
    forall i, j | 0 <= i < j < |r|
      ensures r[i] != r[j]
    {
      assert !OverlapsWith(kind, r[i].slot, r[j].slot) && IsValid(kind, r[i].slot);
    }
  }

  // ---------------------------------------------------------------- where each row of a saved table comes from

  /** The row lies inside the item that was validated. */
  ghost predicate Within(row: Slot, item: Slot) {
    row.owner == item.owner && row.day == item.day && item.startMin <= row.startMin && row.endMin <= item.endMin
  }

  lemma NarrowerOverlapsLess(kind: Kind, a: Slot, a': Slot, b: Slot, b': Slot)
    requires Within(a, a') && Within(b, b') && OverlapsWith(kind, a, b)
    ensures OverlapsWith(kind, a', b') && OverlapsWith(kind, b', a')
  {
  }

  lemma MergedWithin(kind: Kind, row: Slot, item: Slot)
    requires IsValid(kind, item) && item.owner != 0 && 0 <= row.startMin && Merge(kind, row, item).day == item.day
    ensures Within(Merge(kind, row, item), item)
  {
  }

  /** A later update of the same row follows nowhere in the batch. */
  ghost predicate LastOfItsRow(updates: seq<Item>, k: nat) {
    k < |updates| && forall l :: k < l < |updates| ==> updates[l].id != updates[k].id
  }

  lemma {:induction false} LastUpdate(updates: seq<Item>, id: int) returns (k: nat)
    requires exists u :: u in updates && u.id == id
    ensures LastOfItsRow(updates, k) && updates[k].id == id
  {
    var n := |updates| - 1;
    if updates[n].id == id {
      return n;
    }
    assert forall u :: u in updates ==> u in updates[..n] || u == updates[n];
    k := LastUpdate(updates[..n], id);
  }

  /** The weekday or date that ends up in a row is the one that was validated; of several updates of a row the last one
      counts. */
  ghost predicate DaysKept(kind: Kind, rows: map<int, Slot>, nextId: nat, items: seq<Item>) {
    && (forall x :: x in Creates(items) ==> Stored(kind, x.slot) == x.slot)
    && (forall k: nat :: LastOfItsRow(Updates(items), k) && Updates(items)[k].id in Saved(kind, rows, nextId, items) ==>
          Saved(kind, rows, nextId, items)[Updates(items)[k].id].day == Updates(items)[k].slot.day)
  }

  /** The row an item ends up in: the one it names, or the one created for it. */
  ghost predicate RowOf(items: seq<Item>, nextId: nat, x: Item, id: int) {
    if x.id > 0 then id == x.id else nextId <= id < nextId + |Creates(items)| && Creates(items)[id - nextId] == x
  }

  /** The row lies inside an item, on the item's day as it is stored. */
  ghost predicate Origin(kind: Kind, items: seq<Item>, nextId: nat, x: Item, id: int, row: Slot) {
    && x in items && RowOf(items, nextId, x, id) && Within(row, x.slot)
    && (kind.Weekly? || Midnight(x.slot.day) == x.slot.day)
  }

  /** The row is an old one that no item names. */
  ghost predicate Untouched(rows: map<int, Slot>, items: seq<Item>, id: int, row: Slot) {
    id in rows && row == rows[id] && forall x :: x in items && x.id > 0 ==> x.id != id
  }

  lemma UpdatedRowWithin(kind: Kind, owner: int, created: map<int, Slot>, nextId: nat, items: seq<Item>, k: nat)
    requires owner != 0 && ItemsValid(kind, owner, items) && LastOfItsRow(Updates(items), k)
    requires WellFormed(created, nextId) && Updates(items)[k].id in created
    requires var u, cur := Updates(items)[k], Updated(kind, created, Updates(items));
             u.id in cur ==> cur[u.id].day == u.slot.day
    ensures var u, cur := Updates(items)[k], Updated(kind, created, Updates(items));
            u.id in cur && Within(cur[u.id], u.slot) && (kind.Weekly? || Midnight(u.slot.day) == u.slot.day)
  {
    var updates := Updates(items);
    assert updates[k] in items;
    LastUpdateWins(kind, created, updates, k);
    StartsStayNatural(kind, created, updates[..k], updates[k].id);
    MergedWithin(kind, Updated(kind, created, updates[..k])[updates[k].id], updates[k].slot);
    MidnightFacts(updates[k].slot.day, 0);
  }

  lemma {:induction false} StartsStayNatural(kind: Kind, rows: map<int, Slot>, updates: seq<Item>, id: int)
    requires id in rows && 0 <= rows[id].startMin && forall u :: u in updates ==> 0 <= u.slot.startMin
    ensures id in Updated(kind, rows, updates) && 0 <= Updated(kind, rows, updates)[id].startMin
  {
    if updates != [] {
      StartsStayNatural(kind, rows, updates[..|updates| - 1], id);
      assert updates[|updates| - 1] in updates;
    }
  }

  lemma CreatedRowWithin(kind: Kind, items: seq<Item>, nextId: nat, creates: seq<Item>, id: int)
    requires creates == Creates(items) && nextId <= id < nextId + |creates| && creates[id - nextId] in items
    requires creates[id - nextId].id <= 0 && Stored(kind, creates[id - nextId].slot) == creates[id - nextId].slot
    ensures Origin(kind, items, nextId, creates[id - nextId], id, Stored(kind, creates[id - nextId].slot))
  {
    MidnightFacts(creates[id - nextId].slot.day, 0);
  }

  lemma UpdatedRowOrigin(kind: Kind, owner: int, rows: map<int, Slot>, nextId: nat, items: seq<Item>, id: int)
    returns (x: Item)
    requires owner != 0 && nextId > 0 && WellFormed(rows, nextId) && ItemsValid(kind, owner, items)
    requires DaysKept(kind, rows, nextId, items) && id in Saved(kind, rows, nextId, items)
    requires exists u :: u in Updates(items) && u.id == id
    ensures Origin(kind, items, nextId, x, id, Saved(kind, rows, nextId, items)[id])
  {
    var k := LastUpdate(Updates(items), id);
    x := Updates(items)[k];
    CreatesDistinct(kind, owner, items);
    CreatedWellFormed(kind, rows, Creates(items), nextId);
    UnnamedRowsStay(kind, Created(kind, rows, Creates(items), nextId), Updates(items), id);
    UpdatedRowWithin(kind, owner, Created(kind, rows, Creates(items), nextId), nextId + |Creates(items)|, items, k);
    assert x in Updates(items);
  }

  /** Every row of a saved table is an old one or lies inside one of the items. */
  lemma SavedRow(kind: Kind, owner: int, rows: map<int, Slot>, nextId: nat, items: seq<Item>, id: int)
    returns (x: Item)
    requires owner != 0 && nextId > 0 && WellFormed(rows, nextId) && ItemsValid(kind, owner, items)
    requires DaysKept(kind, rows, nextId, items) && id in Saved(kind, rows, nextId, items)
    ensures var row := Saved(kind, rows, nextId, items)[id];
            Origin(kind, items, nextId, x, id, row) || Untouched(rows, items, id, row)
  {
    if exists u :: u in Updates(items) && u.id == id {
      x := UpdatedRowOrigin(kind, owner, rows, nextId, items, id);
      return;
    }
    UnnamedRowsStay(kind, Created(kind, rows, Creates(items), nextId), Updates(items), id);
    CreatedRows(kind, rows, Creates(items), nextId);
    if id in rows {
      return Item(0, rows[id]);
    }
    x := Creates(items)[id - nextId];
    assert x in Creates(items);
    CreatedRowWithin(kind, items, nextId, Creates(items), id);
  }

  lemma ItemsApart(kind: Kind, owner: int, items: seq<Item>, x: Item, y: Item)
    requires ItemsValid(kind, owner, items) && x in items && y in items && x != y
    ensures !OverlapsWith(kind, x.slot, y.slot)
  {
  }

  lemma SameDayIsCompared(kind: Kind, row: Slot, owner: int, items: seq<Item>, x: Item)
    requires x in items && row.owner == owner && row.day == x.slot.day
    requires kind.Weekly? || Midnight(row.day) == row.day
    ensures Compared(kind, row, owner, items)
  {
    if !kind.Weekly? {
      MidnightFacts(MinDay(items), x.slot.day);
      MidnightFacts(x.slot.day, MaxDay(items));
    }
  }

  lemma ClearOfUntouched(kind: Kind, owner: int, rows: map<int, Slot>, nextId: nat, items: seq<Item>,
                         x: Item, a: int, rowA: Slot, b: int)
    requires ItemsValid(kind, owner, items) && ClearOfExisting(kind, rows, owner, items)
    requires Origin(kind, items, nextId, x, a, rowA) && b in rows && Untouched(rows, items, b, rows[b])
    ensures !Clash(kind, rowA, rows[b]) && !Clash(kind, rows[b], rowA)
  {
    if Clash(kind, rowA, rows[b]) || Clash(kind, rows[b], rowA) {
      SameDayIsCompared(kind, rows[b], owner, items, x);
      assert !OverlapsWith(kind, x.slot, rows[b]);
      if OverlapsWith(kind, rowA, rows[b]) {
        NarrowerOverlapsLess(kind, rowA, x.slot, rows[b], rows[b]);
      } else {
        NarrowerOverlapsLess(kind, rows[b], rows[b], rowA, x.slot);
      }
      assert false;
    }
  }

  lemma OriginsApart(kind: Kind, owner: int, items: seq<Item>, nextId: nat, x: Item, a: int, rowA: Slot,
                     y: Item, b: int, rowB: Slot)
    requires ItemsValid(kind, owner, items) && a != b
    requires Origin(kind, items, nextId, x, a, rowA) && Origin(kind, items, nextId, y, b, rowB)
    ensures !Clash(kind, rowA, rowB)
  {
    CreatesDistinct(kind, owner, items);
    assert x != y;
    ItemsApart(kind, owner, items, x, y);
    if OverlapsWith(kind, rowA, rowB) {
      NarrowerOverlapsLess(kind, rowA, x.slot, rowB, y.slot);
      assert false;
    }
  }

  /** An accepted batch keeps the table free of overlap when every row ends up on the day that was validated, creates
      and updates mixed, whoever owned the rows it names. */
  lemma SaveKeepsOverlapFree(kind: Kind, owner: int, rows: map<int, Slot>, nextId: nat, items: seq<Item>)
    requires owner != 0 && nextId > 0 && OverlapFree(kind, rows) && WellFormed(rows, nextId)
    requires ItemsValid(kind, owner, items) && ClearOfExisting(kind, rows, owner, items)
    requires DaysKept(kind, rows, nextId, items)
    ensures OverlapFree(kind, Saved(kind, rows, nextId, items))
  {
    var cur := Saved(kind, rows, nextId, items);
    forall a, b | a in cur && b in cur && a != b
      ensures !Clash(kind, cur[a], cur[b])
    {
      var x := SavedRow(kind, owner, rows, nextId, items, a);
      var y := SavedRow(kind, owner, rows, nextId, items, b);
      if Origin(kind, items, nextId, x, a, cur[a]) && Origin(kind, items, nextId, y, b, cur[b]) {
        OriginsApart(kind, owner, items, nextId, x, a, cur[a], y, b, cur[b]);
      } else if Origin(kind, items, nextId, x, a, cur[a]) {
        ClearOfUntouched(kind, owner, rows, nextId, items, x, a, cur[a], b);
      } else if Origin(kind, items, nextId, y, b, cur[b]) {
        ClearOfUntouched(kind, owner, rows, nextId, items, y, b, cur[b], a);
      }
    }
  }
}
