/** Runs of requests on the availability and exception tables, and the windows generated from what they leave behind. */
module CalendarRuns {
  import opened TimeUnits
  import opened CalendarSlots
  import opened CalendarStores
  import opened BatchSafety
  import opened WindowCoverage
  import opened ScheduleWindowService
  import opened WindowGeneration
  import opened ExceptionUpdates

  // ---------------------------------------------------------------- what callers can ask for

  /** The request bindings mark start, end and day as required, and that refuses a zero. */
  predicate RequestItem(x: Item) { x.slot.startMin != 0 && x.slot.endMin != 0 && x.slot.day != 0 }

  ghost predicate Requested(op: Operation) {
    match op
    case Save(owner, items) => owner != 0 && forall x :: x in items ==> RequestItem(x)
    case ReplaceWeek(_, items) => forall x :: x in items ==> RequestItem(x)
    case ReplaceRange(_, from, to, items) => from != 0 && to != 0 && forall x :: x in items ==> RequestItem(x)
    case DeleteRange(_, from, to) => from != 0 && to != 0
    case Move(_, newDate, newStart, newEnd) => newDate != 0 && newStart != 0 && newEnd != 0
  }

  /** Every update writes its start. */
  ghost predicate StartsWritten(op: Operation) {
    match op
    case Save(_, items) => forall x :: x in items && x.id > 0 ==> x.slot.startMin != 0
    case Move(_, _, newStart, _) => newStart != 0
    case _ => true
  }

  // ---------------------------------------------------------------- rows stay proper

  lemma MergedIsProper(kind: Kind, row: Slot, item: Slot)
    requires ProperRow(kind, row) && IsValid(kind, item) && item.startMin != 0
    ensures ProperRow(kind, Merge(kind, row, item))
  {
    MidnightFacts(item.day, 0);
    MidnightFacts(0, item.day);
  }

  lemma StoredRowIsProper(kind: Kind, item: Slot)
    requires IsValid(kind, item)
    ensures ProperRow(kind, Stored(kind, item))
  {
    MidnightFacts(item.day, 0);
    MidnightFacts(0, item.day);
  }

  lemma {:induction false} UpdatedAreProper(kind: Kind, rows: map<int, Slot>, updates: seq<Item>)
    requires ProperRows(kind, rows)
    requires forall u :: u in updates ==> IsValid(kind, u.slot) && u.slot.startMin != 0
    ensures ProperRows(kind, Updated(kind, rows, updates))
  {
    if updates != [] {
      var init, u := updates[..|updates| - 1], updates[|updates| - 1];
      UpdatedAreProper(kind, rows, init);
      assert u in updates;
      if u.id in Updated(kind, rows, init) {
        MergedIsProper(kind, Updated(kind, rows, init)[u.id], u.slot);
      }
    }
  }

  lemma {:induction false} CreatedAreProper(kind: Kind, rows: map<int, Slot>, items: seq<Item>, firstId: nat)
    requires ProperRows(kind, rows) && forall x :: x in items ==> IsValid(kind, x.slot)
    ensures ProperRows(kind, Created(kind, rows, items, firstId))
  {
    if items != [] {
      CreatedAreProper(kind, rows, items[..|items| - 1], firstId);
      StoredRowIsProper(kind, items[|items| - 1].slot);
    }
  }

  lemma StepKeepsProper(kind: Kind, t: Table, op: Operation)
    requires ProperRows(kind, t.rows) && StartsWritten(op)
    ensures ProperRows(kind, After(kind, t, op).rows)
  {
    if Accepted(kind, t, op) {
      match op
      case Save(owner, items) =>
        CreatedAreProper(kind, t.rows, Creates(items), t.nextId);
        UpdatedAreProper(kind, Created(kind, t.rows, Creates(items), t.nextId), Updates(items));
      case ReplaceWeek(owner, items) =>
        CreatedAreProper(kind, WithoutDays(t.rows, owner, DaysOf(items)), items, t.nextId);
      case ReplaceRange(owner, from, to, items) =>
        CreatedAreProper(kind, WithoutRange(t.rows, owner, from, to), items, t.nextId);
      case DeleteRange(owner, from, to) =>
      case Move(eventId, newDate, newStart, newEnd) =>
        MovedIsProper(t.rows[eventId], newDate, newStart, newEnd);
    }
  }

  lemma MovedIsProper(row: Slot, newDate: int, newStart: int, newEnd: int)
    requires ProperRow(Planned, row) && TimeAllowed(newStart, newEnd) && newStart != 0
    ensures ProperRow(Planned, MovedSlot(row, newDate, newStart, newEnd))
  {
    MidnightFacts(newDate, 0);
  }

  /** Every run of operations that write their starts, accepted and refused ones mixed, leaves no row inside out,
      whatever else goes wrong. */
  lemma {:induction false} RunKeepsRowsProper(kind: Kind, t: Table, ops: seq<Operation>)
    requires ProperRows(kind, t.rows) && forall i :: 0 <= i < |ops| ==> StartsWritten(ops[i])
    ensures ProperRows(kind, Run(kind, t, ops).rows)
    decreases |ops|
  {
    if ops != [] {
      var n := |ops| - 1;
      RunKeepsRowsProper(kind, t, ops[..n]);
      StepKeepsProper(kind, Run(kind, t, ops[..n]), ops[n]);
    }
  }

  // ---------------------------------------------------------------- runs of requests

  /** What remains to be careful about in a request: for dated tables, dates at midnight and inside the range that is
      replaced; for a move, the report it gives. */
  ghost predicate Clean(t: Table, kind: Kind, op: Operation) {
    match op
    case Save(_, items) => kind.Weekly? || forall x :: x in items ==> Midnight(x.slot.day) == x.slot.day
    case ReplaceRange(_, from, to, items) =>
      kind.Dated? ==> InsideRange(from, to, items) && forall x :: x in items ==> Midnight(x.slot.day) == x.slot.day
    case Move(_, _, _, _) => kind.Planned? ==> Careful(t, kind, op)
    case _ => true
  }

  lemma AlignedItemsApart(owner: int, items: seq<Item>)
    requires ItemsValid(Dated, owner, items) && forall x :: x in items ==> Midnight(x.slot.day) == x.slot.day
    ensures StoredApart(Dated, items)
  {
    forall i, j | 0 <= i < j < |items|
      ensures !OverlapsWith(Dated, Stored(Dated, items[i].slot), Stored(Dated, items[j].slot))
    {
      assert items[i] in items && items[j] in items;
    }
  }

  lemma RequestStep(kind: Kind, t: Table, op: Operation)
    requires t.Valid() && OverlapFree(kind, t.rows) && Requested(op) && Clean(t, kind, op)
    ensures After(kind, t, op).Valid() && OverlapFree(kind, After(kind, t, op).rows)
  {
    AfterIsValid(kind, t, op);
    if Accepted(kind, t, op) {
      if op.ReplaceRange? {
        AlignedItemsApart(op.owner, op.items);
      }
      if op.Save? {
        forall i | 0 <= i < |op.items| && Decides(op.items, i)
          ensures DayWritten(kind, op.items[i])
        {
          assert op.items[i] in op.items && RequestItem(op.items[i]);
        }
      }
      StepKeepsOverlapFree(kind, t, op);
    }
  }

  /** Every run of requests keeps a table free of overlap and its rows proper: the availability table without further
      ado, the dated ones when the dates are clean. */
  lemma {:induction false} RequestsKeepTable(kind: Kind, t: Table, ops: seq<Operation>)
    requires t.Valid() && OverlapFree(kind, t.rows) && ProperRows(kind, t.rows)
    requires forall i :: 0 <= i < |ops| ==>
               Requested(ops[i]) && (kind.Weekly? || Clean(Run(kind, t, ops[..i]), kind, ops[i]))
    ensures var after := Run(kind, t, ops);
            after.Valid() && OverlapFree(kind, after.rows) && ProperRows(kind, after.rows)
    decreases |ops|
  {
    if ops != [] {
      var n := |ops| - 1;
      assert forall i :: 0 <= i < n ==> ops[..n][..i] == ops[..i];
      RequestsKeepTable(kind, t, ops[..n]);
      RequestStep(kind, Run(kind, t, ops[..n]), ops[n]);
      StepKeepsProper(kind, Run(kind, t, ops[..n]), ops[n]);
    }
  }

  /** For a batch a caller can send, safety turns on the dates alone: every table of proper rows takes it without
      overlap if and only if it is for the availability table or all its dates are midnights. */
  lemma RequestedBatchSafeIff(kind: Kind, owner: int, items: seq<Item>)
    requires owner != 0 && ItemsValid(kind, owner, items) && UpdatesOnce(items)
    requires forall x :: x in items ==> RequestItem(x)
    ensures (forall rows, nextId :: ProperRows(kind, rows) ==> SaveSafe(kind, owner, items, rows, nextId))
            <==> kind.Weekly? || forall x :: x in items ==> Midnight(x.slot.day) == x.slot.day
  {
    BatchSaveSafeIff(kind, owner, items);
    if kind.Weekly? {
      assert forall x :: x in items && RequestItem(x) ==> DayWritten(kind, x);
    } else {
      assert forall x :: x in items ==> (DayWritten(kind, x) <==> Midnight(x.slot.day) == x.slot.day);
    }
  }

  // ---------------------------------------------------------------- from the tables to the windows

  function AsAvailability(row: Slot): Availability { Availability(row.owner, row.day, row.startMin, row.endMin) }

  /** The ids of the user's rows, in whatever order they are read. */
  ghost predicate Lists(ids: seq<int>, rows: map<int, Slot>, userId: int) {
    && (forall i, j :: 0 <= i < j < |ids| ==> ids[i] != ids[j])
    && (forall i :: 0 <= i < |ids| ==> ids[i] in rows && rows[ids[i]].owner == userId)
    && (forall id :: id in rows && rows[id].owner == userId ==> id in ids)
  }

  function AvailabilityRows(rows: map<int, Slot>, ids: seq<int>): (r: seq<Availability>)
    requires forall i :: 0 <= i < |ids| ==> ids[i] in rows
    ensures |r| == |ids| && forall i :: 0 <= i < |ids| ==> r[i] == AsAvailability(rows[ids[i]])
  {
    seq(|ids|, i requires 0 <= i < |ids| => AsAvailability(rows[ids[i]]))
  }

  function ExceptionRows(rows: map<int, Slot>, ids: seq<int>): (r: seq<CalendarException>)
    requires forall i :: 0 <= i < |ids| ==> ids[i] in rows
    ensures |r| == |ids| && forall i :: 0 <= i < |ids| ==> r[i] == AsException(rows[ids[i]])
  {
    seq(|ids|, i requires 0 <= i < |ids| => AsException(rows[ids[i]]))
  }

  lemma ReadCalendar(rows: map<int, Slot>, ids: seq<int>, userId: int)
    requires Lists(ids, rows, userId) && OverlapFree(Weekly, rows) && ProperRows(Weekly, rows)
    ensures Disjoint(AvailabilityRows(rows, ids)) && WeekdaysValid(AvailabilityRows(rows, ids))
  {
    forall i, j | 0 <= i < j < |ids|
      ensures !ItemsOverlap(AsAvailability(rows[ids[i]]), AsAvailability(rows[ids[j]]))
    {
      assert !Clash(Weekly, rows[ids[i]], rows[ids[j]]);
    }
    forall i | 0 <= i < |ids|
      ensures 0 <= rows[ids[i]].day <= 6
    {
      var id := ids[i];
      assert id in rows && ProperRow(Weekly, rows[id]);
    }
  }

  lemma MidnightIsDayStart(day: int)
    requires day == Midnight(day)
    ensures DayStartUTC(day) == day
  {
  }

  lemma ReadExceptions(rows: map<int, Slot>, ids: seq<int>, userId: int)
    requires Lists(ids, rows, userId) && ProperRows(Dated, rows)
    ensures NonEmpty(ExceptionRows(rows, ids)) && DatesAre(ExceptionRows(rows, ids), DayStartUTC)
  {
    forall i | 0 <= i < |ids|
      ensures rows[ids[i]].startMin < rows[ids[i]].endMin && DayStartUTC(rows[ids[i]].day) == rows[ids[i]].day
    {
      var id := ids[i];
      assert id in rows && ProperRow(Dated, rows[id]);
      MidnightIsDayStart(rows[id].day);
    }
  }

  /** Some row of the user takes the minute. */
  ghost predicate RowTakes(rows: map<int, Slot>, userId: int, day: int, m: int) {
    exists id :: id in rows && rows[id].Takes(userId, day, m)
  }

  lemma ExceptedIffRow(rows: map<int, Slot>, ids: seq<int>, userId: int, day: int, m: int)
    requires Lists(ids, rows, userId) && ProperRows(Dated, rows)
    ensures Excepted(ExceptionRows(rows, ids), DayStartUTC, day, m) <==> RowTakes(rows, userId, day, m)
  {
    var exs := ExceptionRows(rows, ids);
    ReadExceptions(rows, ids, userId);
    if i :| 0 <= i < |exs| && DayStartUTC(exs[i].dateMs) == day && exs[i].Covers(m) {
      var id := ids[i];
      assert id in rows && rows[id].Takes(userId, day, m);
    }
    if id :| id in rows && rows[id].Takes(userId, day, m) {
      var i :| 0 <= i < |ids| && ids[i] == id;
      assert exs[i] == AsException(rows[id]);
      assert DayStartUTC(exs[i].dateMs) == day && exs[i].Covers(m);
    }
  }

  lemma OfferedIffRow(rows: map<int, Slot>, ids: seq<int>, userId: int, weekday: int, m: int)
    requires Lists(ids, rows, userId)
    ensures (exists i :: 0 <= i < |AvailabilityRows(rows, ids)| && AvailabilityRows(rows, ids)[i].dayOfWeek == weekday
                         && AvailabilityRows(rows, ids)[i].startMin <= m < AvailabilityRows(rows, ids)[i].endMin)
            <==> RowTakes(rows, userId, weekday, m)
  {
    var avail := AvailabilityRows(rows, ids);
    if i :| 0 <= i < |avail| && avail[i].dayOfWeek == weekday && avail[i].startMin <= m < avail[i].endMin {
      var id := ids[i];
      assert id in rows && rows[id].Takes(userId, weekday, m);
    }
    if id :| id in rows && rows[id].Takes(userId, weekday, m) {
      var i :| 0 <= i < |ids| && ids[i] == id;
      assert avail[i] == AsAvailability(rows[id]);
      assert avail[i].dayOfWeek == weekday && avail[i].startMin <= m < avail[i].endMin;
    }
  }

  /** The windows generated from the two tables, for any order in which the rows are read and the exceptions sorted,
      offer a minute once if an availability row of its weekday takes it, no exception row of its day does and the day
      is in the range, and otherwise never. */
  lemma WindowsOfTables(weekly: map<int, Slot>, dated: map<int, Slot>, availIds: seq<int>, exceptionIds: seq<int>,
                        userId: int, fromMs: int, toMs: int, order: int -> seq<CalendarException>, day: int, m: int)
    requires OverlapFree(Weekly, weekly) && ProperRows(Weekly, weekly) && ProperRows(Dated, dated)
    requires Lists(availIds, weekly, userId) && Lists(exceptionIds, dated, userId)
    requires OrdersOf(order, CalendarWindows(AvailabilityRows(weekly, availIds), fromMs, toMs),
                      ExceptionRows(dated, exceptionIds), DayStartUTC)
    ensures var expanded := CalendarWindows(AvailabilityRows(weekly, availIds), fromMs, toMs);
            Coverage(Subtracted(expanded, order, DayStartUTC), day, m)
            == Bit(DayInRange(day, DayStartUTC(fromMs), DayStartUTC(toMs))
                   && RowTakes(weekly, userId, GetDayOfWeek(day), m) && !RowTakes(dated, userId, day, m))
  {
    var avail, exs := AvailabilityRows(weekly, availIds), ExceptionRows(dated, exceptionIds);
    var expanded := CalendarWindows(avail, fromMs, toMs);
    ReadCalendar(weekly, availIds, userId);
    ReadExceptions(dated, exceptionIds, userId);
    NonEmptyDoublesNothing(expanded, exs, DayStartUTC);
    EveryOrderCalendarIff(avail, exs, fromMs, toMs);
    assert IsCalendar(Subtracted(expanded, order, DayStartUTC), avail, exs, fromMs, toMs);
    PromisedOnce(avail, exs, fromMs, toMs, day, m);
    ExceptedIffRow(dated, exceptionIds, userId, day, m);
    OfferedIffRow(weekly, availIds, userId, GetDayOfWeek(day), m);
  }

  const EMPTY: Table := Table(map[], 1)

  ghost predicate CarefulRun(kind: Kind, ops: seq<Operation>) {
    forall i :: 0 <= i < |ops| ==> Careful(Run(kind, EMPTY, ops[..i]), kind, ops[i]) && StartsWritten(ops[i])
  }

  /** After every careful run on the availability table and every run on the exception table that writes its starts, the
      generated windows offer each minute exactly as the rows say. */
  lemma RunsOfferOnce(weekOps: seq<Operation>, exceptionOps: seq<Operation>, availIds: seq<int>, exceptionIds: seq<int>,
                      userId: int, fromMs: int, toMs: int, order: int -> seq<CalendarException>, day: int, m: int)
    requires CarefulRun(Weekly, weekOps) && forall i :: 0 <= i < |exceptionOps| ==> StartsWritten(exceptionOps[i])
    requires Lists(availIds, Run(Weekly, EMPTY, weekOps).rows, userId)
    requires Lists(exceptionIds, Run(Dated, EMPTY, exceptionOps).rows, userId)
    requires OrdersOf(order, CalendarWindows(AvailabilityRows(Run(Weekly, EMPTY, weekOps).rows, availIds),
                                      fromMs, toMs),
                      ExceptionRows(Run(Dated, EMPTY, exceptionOps).rows, exceptionIds), DayStartUTC)
    ensures var weekly, dated := Run(Weekly, EMPTY, weekOps).rows, Run(Dated, EMPTY, exceptionOps).rows;
            var expanded := CalendarWindows(AvailabilityRows(weekly, availIds), fromMs, toMs);
            Coverage(Subtracted(expanded, order, DayStartUTC), day, m)
            == Bit(DayInRange(day, DayStartUTC(fromMs), DayStartUTC(toMs))
                   && RowTakes(weekly, userId, GetDayOfWeek(day), m) && !RowTakes(dated, userId, day, m))
  {
    RunKeepsOverlapFree(Weekly, EMPTY, weekOps);
    RunKeepsRowsProper(Weekly, EMPTY, weekOps);
    RunKeepsRowsProper(Dated, EMPTY, exceptionOps);
    WindowsOfTables(Run(Weekly, EMPTY, weekOps).rows, Run(Dated, EMPTY, exceptionOps).rows, availIds, exceptionIds,
                    userId, fromMs, toMs, order, day, m);
  }

  /** Requests need no care on the availability table. */
  lemma RequestsAreCareful(ops: seq<Operation>)
    requires forall i :: 0 <= i < |ops| ==> Requested(ops[i]) && (ops[i].Save? || ops[i].ReplaceWeek?)
    ensures CarefulRun(Weekly, ops)
  {
    forall i | 0 <= i < |ops|
      ensures Careful(Run(Weekly, EMPTY, ops[..i]), Weekly, ops[i]) && StartsWritten(ops[i])
    {
      if ops[i].Save? {
        forall k | 0 <= k < |ops[i].items| && Decides(ops[i].items, k)
          ensures DayWritten(Weekly, ops[i].items[k])
        {
          assert ops[i].items[k] in ops[i].items && RequestItem(ops[i].items[k]);
        }
      }
    }
  }
}
