/** Splitting a scheduled event in two, and the part numbering of its task. */
module EventSplitting {
  import opened TimeUnits
  import opened ScheduleEntities

  const DEFAULT_MIN_SPLIT_DURATION: int := 30

  datatype SplitError = EventNotFound | EventCannotBeSplit | EventInvalidSplitPoint | StoreFailed

  datatype SplitResult = Parts(original: Event, newPart: Event, totalParts: int) | Failed(error: SplitError)

  // ---------------------------------------------------------------- numbering

  ghost function CountParts(rows: seq<Event>, task: int): nat {
    if rows == [] then 0
    else CountParts(rows[..|rows| - 1], task) + (if rows[|rows| - 1].scheduleTaskId == task then 1 else 0)
  }

  /** One part is over before the other begins. */
  predicate Before(a: Event, b: Event) {
    a.dateMs < b.dateMs || (a.dateMs == b.dateMs && a.endMin <= b.startMin)
  }

  ghost predicate HasPart(rows: seq<Event>, task: int, p: int) {
    exists i :: 0 <= i < |rows| && rows[i].scheduleTaskId == task && rows[i].partIndex == p
  }

  /** The n parts of a task carry the numbers 1 to n, each once, in chronological order, and all say n. */
  ghost predicate NumberedParts(rows: seq<Event>, task: int) {
    var n := CountParts(rows, task);
    && (forall i :: 0 <= i < |rows| && rows[i].scheduleTaskId == task ==>
          rows[i].totalParts == n && 1 <= rows[i].partIndex <= n && rows[i].startMin < rows[i].endMin)
    && (forall i, j :: 0 <= i < j < |rows| && rows[i].scheduleTaskId == task && rows[j].scheduleTaskId == task ==>
          rows[i].partIndex != rows[j].partIndex)
    && (forall i, j :: 0 <= i < |rows| && 0 <= j < |rows|
                       && rows[i].scheduleTaskId == rows[j].scheduleTaskId == task ==>
          rows[i].partIndex < rows[j].partIndex ==> Before(rows[i], rows[j]))
    && (forall p :: 1 <= p <= n ==> HasPart(rows, task, p))
  }

  ghost predicate WellNumbered(rows: seq<Event>) {
    forall task :: NumberedParts(rows, task)
  }

  /** How often the task's parts cover a minute of a day. */
  ghost function Covered(rows: seq<Event>, task: int, date: int, minute: int): nat {
    if rows == [] then 0
    else
      var e := rows[|rows| - 1];
      Covered(rows[..|rows| - 1], task, date, minute)
      + (if e.scheduleTaskId == task && e.Covers(date, minute) then 1 else 0)
  }

  /** A minute of a day is covered if and only if a part of the task on that day starts no later and ends after it. */
  lemma {:induction false} CoveredIff(rows: seq<Event>, task: int, date: int, minute: int)
    ensures Covered(rows, task, date, minute) > 0 <==>
            exists i :: 0 <= i < |rows| && rows[i].scheduleTaskId == task && rows[i].dateMs == date
                        && rows[i].startMin <= minute < rows[i].endMin
  {
    if rows != [] {
      var n := |rows| - 1;
      CoveredIff(rows[..n], task, date, minute);
      assert forall i :: 0 <= i < n ==> rows[..n][i] == rows[i];
    }
  }

  ghost function TotalMinutes(rows: seq<Event>, task: int): int {
    if rows == [] then 0
    else
      var e := rows[|rows| - 1];
      TotalMinutes(rows[..|rows| - 1], task) + (if e.scheduleTaskId == task then e.Duration() else 0)
  }

  // ---------------------------------------------------------------- what a split does to the rows

  function Shifted(e: Event, task: int, after: int): Event {
    if e.scheduleTaskId == task && e.partIndex > after then e.(partIndex := e.partIndex + 1) else e
  }

  function WithTotal(e: Event, task: int, total: int): Event {
    if e.scheduleTaskId == task then e.(totalParts := total) else e
  }

  function SecondHalf(e: Event, splitPoint: int, id: int): Event {
    Event(id, e.planId, e.scheduleTaskId, e.dateMs, splitPoint, e.endMin, e.partIndex + 1, e.totalParts + 1,
          Some(e.id), EventStatus.Planned, e.isPinned, e.title, None)
  }

  /** Row i once row k has been cut at the split point. */
  function Rewritten(rows: seq<Event>, k: nat, splitPoint: int, i: nat): Event
    requires k < |rows| && i < |rows|
  {
    if i == k then rows[k].(endMin := splitPoint, totalParts := rows[k].totalParts + 1)
    else WithTotal(Shifted(rows[i], rows[k].scheduleTaskId, rows[k].partIndex), rows[k].scheduleTaskId,
                   rows[k].totalParts + 1)
  }

  function RewrittenRows(rows: seq<Event>, k: nat, splitPoint: int): (r: seq<Event>)
    requires k < |rows|
    ensures |r| == |rows| && forall i :: 0 <= i < |r| ==> r[i] == Rewritten(rows, k, splitPoint, i)
  {
    seq(|rows|, i requires 0 <= i < |rows| => Rewritten(rows, k, splitPoint, i))
  }

  function SplitRows(rows: seq<Event>, k: nat, splitPoint: int, id: int): seq<Event>
    requires k < |rows|
  {
    RewrittenRows(rows, k, splitPoint) + [SecondHalf(rows[k], splitPoint, id)]
  }

  lemma {:induction false} CountDependsOnTasks(rows: seq<Event>, rows': seq<Event>, task: int)
    requires |rows| == |rows'| && forall i :: 0 <= i < |rows| ==> rows'[i].scheduleTaskId == rows[i].scheduleTaskId
    ensures CountParts(rows', task) == CountParts(rows, task)
  {
    if rows != [] {
      CountDependsOnTasks(rows[..|rows| - 1], rows'[..|rows| - 1], task);
    }
  }

  lemma CountAfterSplit(rows: seq<Event>, k: nat, splitPoint: int, id: int, task: int)
    requires k < |rows|
    ensures CountParts(SplitRows(rows, k, splitPoint, id), task)
            == CountParts(rows, task) + (if rows[k].scheduleTaskId == task then 1 else 0)
  {
    var mid, rows' := RewrittenRows(rows, k, splitPoint), SplitRows(rows, k, splitPoint, id);
    CountDependsOnTasks(rows, mid, task);
    assert rows'[..|rows' | - 1] == mid;
  }

  /** Order and distinctness of two parts of the split task; index |rows| is the new part. */
  lemma PairAfterSplit(rows: seq<Event>, k: nat, splitPoint: int, id: int, i: nat, j: nat)
    requires k < |rows| && NumberedParts(rows, rows[k].scheduleTaskId)
    requires rows[k].startMin < splitPoint < rows[k].endMin
    requires i <= |rows| && j <= |rows| && i != j
    requires var rows' := SplitRows(rows, k, splitPoint, id);
             rows'[i].scheduleTaskId == rows'[j].scheduleTaskId == rows[k].scheduleTaskId
    ensures var rows' := SplitRows(rows, k, splitPoint, id);
            && rows'[i].partIndex != rows'[j].partIndex
            && (rows'[i].partIndex < rows'[j].partIndex ==> Before(rows'[i], rows'[j]))
  {
    var rows' := SplitRows(rows, k, splitPoint, id);
    assert i < |rows| ==> rows'[i] == Rewritten(rows, k, splitPoint, i);
    assert j < |rows| ==> rows'[j] == Rewritten(rows, k, splitPoint, j);
    if i == |rows| {
      assert j != k ==> rows[j].partIndex != rows[k].partIndex;
    } else if j == |rows| {
      assert i != k ==> rows[i].partIndex != rows[k].partIndex;
    } else {
      assert rows[i].partIndex != rows[j].partIndex;
    }
  }

  /** Every number from 1 to n + 1 is given out again. */
  lemma PartAfterSplit(rows: seq<Event>, k: nat, splitPoint: int, id: int, p: int)
    requires k < |rows| && NumberedParts(rows, rows[k].scheduleTaskId)
    requires 1 <= p <= CountParts(rows, rows[k].scheduleTaskId) + 1
    ensures HasPart(SplitRows(rows, k, splitPoint, id), rows[k].scheduleTaskId, p)
  {
    var task, rows' := rows[k].scheduleTaskId, SplitRows(rows, k, splitPoint, id);
    if p == rows[k].partIndex + 1 {
      assert rows'[|rows|] == SecondHalf(rows[k], splitPoint, id);
    } else {
      var q := if p <= rows[k].partIndex then p else p - 1;
      assert HasPart(rows, task, q);
      var i :| 0 <= i < |rows| && rows[i].scheduleTaskId == task && rows[i].partIndex == q;
      assert rows'[i] == Rewritten(rows, k, splitPoint, i);
    }
  }

  lemma SplitTaskKeepsNumbering(rows: seq<Event>, k: nat, splitPoint: int, id: int)
    requires k < |rows| && NumberedParts(rows, rows[k].scheduleTaskId)
    requires rows[k].startMin < splitPoint < rows[k].endMin
    ensures NumberedParts(SplitRows(rows, k, splitPoint, id), rows[k].scheduleTaskId)
  {
    var task, rows' := rows[k].scheduleTaskId, SplitRows(rows, k, splitPoint, id);
    CountAfterSplit(rows, k, splitPoint, id, task);
    forall i | 0 <= i < |rows'| && rows'[i].scheduleTaskId == task
      ensures rows'[i].totalParts == CountParts(rows', task) && 1 <= rows'[i].partIndex <= CountParts(rows', task)
              && rows'[i].startMin < rows'[i].endMin
    {
      assert i < |rows| ==> rows'[i] == Rewritten(rows, k, splitPoint, i);
    }
    forall i, j | 0 <= i < |rows'| && 0 <= j < |rows'| && i != j && rows'[i].scheduleTaskId == task
        && rows'[j].scheduleTaskId == task
      ensures rows'[i].partIndex != rows'[j].partIndex
      ensures rows'[i].partIndex < rows'[j].partIndex ==> Before(rows'[i], rows'[j])
    {
      PairAfterSplit(rows, k, splitPoint, id, i, j);
    }
    forall p | 1 <= p <= CountParts(rows', task)
      ensures HasPart(rows', task, p)
    {
      PartAfterSplit(rows, k, splitPoint, id, p);
    }
  }

  /** Parts of other tasks keep every column. */
  lemma OtherTaskUntouched(rows: seq<Event>, k: nat, splitPoint: int, id: int, task: int)
    requires k < |rows| && task != rows[k].scheduleTaskId
    ensures var rows' := SplitRows(rows, k, splitPoint, id);
            forall i :: 0 <= i < |rows'| && rows'[i].scheduleTaskId == task ==> i < |rows| && rows'[i] == rows[i]
    ensures NumberedParts(rows, task) ==> NumberedParts(SplitRows(rows, k, splitPoint, id), task)
  {
    var rows' := SplitRows(rows, k, splitPoint, id);
    CountAfterSplit(rows, k, splitPoint, id, task);
    assert forall i :: 0 <= i < |rows| ==> rows'[i] == Rewritten(rows, k, splitPoint, i);
    if NumberedParts(rows, task) {
      forall p | 1 <= p <= CountParts(rows, task)
        ensures HasPart(rows', task, p)
      {
        assert HasPart(rows, task, p);
        var i :| 0 <= i < |rows| && rows[i].scheduleTaskId == task && rows[i].partIndex == p;
        assert rows'[i].partIndex == p;
      }
    }
  }

  lemma SplitKeepsNumbering(rows: seq<Event>, k: nat, splitPoint: int, id: int)
    requires k < |rows| && WellNumbered(rows) && rows[k].startMin < splitPoint < rows[k].endMin
    ensures WellNumbered(SplitRows(rows, k, splitPoint, id))
  {
    forall task
      ensures NumberedParts(SplitRows(rows, k, splitPoint, id), task)
    {
      assert NumberedParts(rows, task);
      if task == rows[k].scheduleTaskId {
        SplitTaskKeepsNumbering(rows, k, splitPoint, id);
      } else {
        OtherTaskUntouched(rows, k, splitPoint, id, task);
      }
    }
  }

  // ---------------------------------------------------------------- conservation

  /** What one event contributes to a minute, and to the total. */
  ghost predicate At(e: Event, task: int, date: int, minute: int) {
    e.scheduleTaskId == task && e.Covers(date, minute)
  }

  lemma {:induction false} CoverageOfRewritten(rows: seq<Event>, rows': seq<Event>, k: nat, task: int, date: int,
                                               minute: int)
    requires |rows'| == |rows|
    requires forall i :: 0 <= i < |rows| && i != k ==>
             At(rows'[i], task, date, minute) == At(rows[i], task, date, minute)
    ensures k < |rows| ==> Covered(rows', task, date, minute) + Bit(At(rows[k], task, date, minute))
                           == Covered(rows, task, date, minute) + Bit(At(rows'[k], task, date, minute))
    ensures k >= |rows| ==> Covered(rows', task, date, minute) == Covered(rows, task, date, minute)
  {
    if rows != [] {
      CoverageOfRewritten(rows[..|rows| - 1], rows'[..|rows| - 1], k, task, date, minute);
    }
  }

  lemma SplitConservesCoverage(rows: seq<Event>, k: nat, splitPoint: int, id: int, task: int, date: int, minute: int)
    requires k < |rows| && rows[k].startMin < splitPoint < rows[k].endMin
    ensures Covered(SplitRows(rows, k, splitPoint, id), task, date, minute) == Covered(rows, task, date, minute)
  {
    var mid, rows' := RewrittenRows(rows, k, splitPoint), SplitRows(rows, k, splitPoint, id);
    CoverageOfRewritten(rows, mid, k, task, date, minute);
    assert rows'[..|rows'| - 1] == mid;
  }

  ghost function MinutesFor(e: Event, task: int): int { if e.scheduleTaskId == task then e.Duration() else 0 }

  lemma {:induction false} MinutesOfRewritten(rows: seq<Event>, rows': seq<Event>, k: nat, task: int)
    requires |rows'| == |rows|
    requires forall i :: 0 <= i < |rows| && i != k ==> MinutesFor(rows'[i], task) == MinutesFor(rows[i], task)
    ensures k < |rows| ==> TotalMinutes(rows', task) + MinutesFor(rows[k], task)
                           == TotalMinutes(rows, task) + MinutesFor(rows'[k], task)
    ensures k >= |rows| ==> TotalMinutes(rows', task) == TotalMinutes(rows, task)
  {
    if rows != [] {
      MinutesOfRewritten(rows[..|rows| - 1], rows'[..|rows| - 1], k, task);
    }
  }

  lemma SplitConservesMinutes(rows: seq<Event>, k: nat, splitPoint: int, id: int, task: int)
    requires k < |rows|
    ensures TotalMinutes(SplitRows(rows, k, splitPoint, id), task) == TotalMinutes(rows, task)
  {
    var mid, rows' := RewrittenRows(rows, k, splitPoint), SplitRows(rows, k, splitPoint, id);
    MinutesOfRewritten(rows, mid, k, task);
    assert rows'[..|rows'| - 1] == mid;
  }

  // ---------------------------------------------------------------- requests

  datatype Request = Request(eventId: int, splitPoint: int, minSplitDuration: int, storeFails: bool) {
    function MinDuration(): int { if minSplitDuration <= 0 then DEFAULT_MIN_SPLIT_DURATION else minSplitDuration }
  }

  predicate CanSplit(e: Event, minDuration: int) {
    e.CanBeModified() && e.Duration() >= 2 * minDuration
  }

  predicate PointAllowed(e: Event, splitPoint: int, minDuration: int) {
    splitPoint - e.startMin >= minDuration && e.endMin - splitPoint >= minDuration
  }

  datatype Table = Table(rows: seq<Event>, nextId: nat) {
    /** Keys are distinct and below the next one, and the columns a split writes are not negative. */
    ghost predicate Keyed() {
      DistinctEventIds(rows) && forall i :: 0 <= i < |rows| ==>
          rows[i].id < nextId && rows[i].startMin >= 0 && rows[i].totalParts >= 0
    }
  }

  /** Position of the event, or |rows|. */
  function Find(rows: seq<Event>, id: int): (k: nat)
    ensures k <= |rows| && (k < |rows| ==> rows[k].id == id)
    ensures forall i :: 0 <= i < k ==> rows[i].id != id
  {
    if rows == [] || rows[0].id == id then 0 else 1 + Find(rows[1..], id)
  }

  /** The first check a request fails, if any. */
  function Refusal(rows: seq<Event>, req: Request): Option<SplitError> {
    var k := Find(rows, req.eventId);
    if k == |rows| then Some(EventNotFound)
    else if !CanSplit(rows[k], req.MinDuration()) then Some(EventCannotBeSplit)
    else if !PointAllowed(rows[k], req.splitPoint, req.MinDuration()) then Some(EventInvalidSplitPoint)
    else if req.storeFails then Some(StoreFailed)
    else None
  }

  function After(t: Table, req: Request): Table {
    if Refusal(t.rows, req).Some? then t
    else Table(SplitRows(t.rows, Find(t.rows, req.eventId), req.splitPoint, t.nextId), t.nextId + 1)
  }

  function Run(t: Table, reqs: seq<Request>): Table
    decreases |reqs|
  {
    if reqs == [] then t else After(Run(t, reqs[..|reqs| - 1]), reqs[|reqs| - 1])
  }

  lemma SplitKeepsIds(rows: seq<Event>, k: nat, splitPoint: int, id: nat)
    requires k < |rows| && Table(rows, id).Keyed() && splitPoint >= 0
    ensures Table(SplitRows(rows, k, splitPoint, id), id + 1).Keyed()
  {
    var rows' := SplitRows(rows, k, splitPoint, id);
    forall i | 0 <= i < |rows|
      ensures rows'[i].id == rows[i].id && rows'[i].startMin == rows[i].startMin && rows'[i].totalParts >= 0
    {
      assert rows'[i] == Rewritten(rows, k, splitPoint, i);
    }
  }

  lemma StepKeepsKeys(t: Table, req: Request)
    requires t.Keyed()
    ensures After(t, req).Keyed()
  {
    if Refusal(t.rows, req) == None {
      SplitKeepsIds(t.rows, Find(t.rows, req.eventId), req.splitPoint, t.nextId);
    }
  }

  lemma StepKeepsNumbering(t: Table, req: Request)
    requires WellNumbered(t.rows)
    ensures WellNumbered(After(t, req).rows)
  {
    if Refusal(t.rows, req) == None {
      SplitKeepsNumbering(t.rows, Find(t.rows, req.eventId), req.splitPoint, t.nextId);
    }
  }

  /** The number a split reports is the number of parts the task then has. */
  lemma ReportedTotal(t: Table, req: Request)
    requires WellNumbered(t.rows) && Refusal(t.rows, req) == None
    ensures var k := Find(t.rows, req.eventId);
            t.rows[k].totalParts + 1 == CountParts(After(t, req).rows, t.rows[k].scheduleTaskId)
  {
    var k := Find(t.rows, req.eventId);
    assert NumberedParts(t.rows, t.rows[k].scheduleTaskId);
    CountAfterSplit(t.rows, k, req.splitPoint, t.nextId, t.rows[k].scheduleTaskId);
  }

  /** Any run of splits, accepted and refused ones mixed: every task keeps its minutes and the time its parts cover, and
      a consistent numbering stays consistent. */
  lemma {:induction false} RunKeepsNumberingAndTime(t: Table, reqs: seq<Request>, task: int, date: int, minute: int)
    ensures t.Keyed() ==> Run(t, reqs).Keyed()
    ensures WellNumbered(t.rows) ==> WellNumbered(Run(t, reqs).rows)
    ensures TotalMinutes(Run(t, reqs).rows, task) == TotalMinutes(t.rows, task)
    ensures Covered(Run(t, reqs).rows, task, date, minute) == Covered(t.rows, task, date, minute)
    decreases |reqs|
  {
    if reqs != [] {
      var mid, req := Run(t, reqs[..|reqs| - 1]), reqs[|reqs| - 1];
      RunKeepsNumberingAndTime(t, reqs[..|reqs| - 1], task, date, minute);
      if mid.Keyed() {
        StepKeepsKeys(mid, req);
      }
      if WellNumbered(mid.rows) {
        StepKeepsNumbering(mid, req);
      }
      if Refusal(mid.rows, req) == None {
        var k := Find(mid.rows, req.eventId);
        SplitConservesMinutes(mid.rows, k, req.splitPoint, mid.nextId, task);
        SplitConservesCoverage(mid.rows, k, req.splitPoint, mid.nextId, task, date, minute);
      }
    }
  }

  /** Two parts that follow each other where there was one, alike in everything a part does not own. */
  predicate HalvesOf(whole: Event, first: Event, second: Event) {
    && first.startMin == whole.startMin && first.endMin == second.startMin && second.endMin == whole.endMin
    && first.partIndex == whole.partIndex && second.partIndex == first.partIndex + 1
       && first.totalParts == second.totalParts
    && first.planId == second.planId == whole.planId && first.dateMs == second.dateMs == whole.dateMs
    && first.scheduleTaskId == second.scheduleTaskId == whole.scheduleTaskId
    && first.isPinned == second.isPinned == whole.isPinned && first.title == second.title == whole.title
    && first.measured == whole.measured && second.measured == None && first.CanBeModified() && second.CanBeModified()
  }

  predicate GoodHalves(whole: Event, first: Event, second: Event, req: Request) {
    && HalvesOf(whole, first, second)
    && first.id == req.eventId && second.linkedEventId == Some(req.eventId)
    && first.endMin == req.splitPoint == second.startMin
    && first.Duration() >= req.MinDuration() && second.Duration() >= req.MinDuration()
  }

  /** The rows after event i was cut at the point, column by column. */
  ghost predicate CutAt(before: seq<Event>, after: seq<Event>, i: nat, point: int, newId: nat)
    requires i < |before|
  {
    var e := before[i];
    && |after| == |before| + 1
    && after[i] == e.(endMin := point, totalParts := e.totalParts + 1)
    && after[|before|] == Event(newId, e.planId, e.scheduleTaskId, e.dateMs, point, e.endMin, e.partIndex + 1,
                                e.totalParts + 1, Some(e.id), Planned, e.isPinned, e.title, None)
    && forall j :: 0 <= j < |before| && j != i ==>
         after[j] == if before[j].scheduleTaskId != e.scheduleTaskId then before[j]
                     else before[j].(totalParts := e.totalParts + 1,
                                     partIndex := if before[j].partIndex > e.partIndex then before[j].partIndex + 1
                                                  else before[j].partIndex)
  }

  /** The answer about event e, check by check. */
  ghost predicate Answered(e: Event, req: Request, result: SplitResult) {
    var min := if req.minSplitDuration <= 0 then 30 else req.minSplitDuration;
    var splittable := e.status == Planned && e.endMin - e.startMin >= 2 * min;
    var fits := req.splitPoint - e.startMin >= min && e.endMin - req.splitPoint >= min;
    && (result.Parts? <==> e.status == Planned && fits && !req.storeFails)
    && (result == Failed(EventCannotBeSplit) <==> !splittable)
    && (result == Failed(EventInvalidSplitPoint) <==> splittable && !fits)
    && (result == Failed(StoreFailed) <==> splittable && fits && req.storeFails)
  }

  lemma Answer(t: Table, req: Request, result: SplitResult)
    requires t.Keyed()
    requires result.Failed? <==> Refusal(t.rows, req).Some?
    requires result.Failed? ==> Refusal(t.rows, req) == Some(result.error)
    ensures result == Failed(EventNotFound) <==> forall i :: 0 <= i < |t.rows| ==> t.rows[i].id != req.eventId
    ensures forall i :: 0 <= i < |t.rows| && t.rows[i].id == req.eventId ==>
              && Answered(t.rows[i], req, result)
              && (result.Parts? ==> CutAt(t.rows, After(t, req).rows, i, req.splitPoint, t.nextId))
  {
    var k := Find(t.rows, req.eventId);
    if k < |t.rows| {
      assert forall i :: 0 <= i < |t.rows| && t.rows[i].id == req.eventId ==> i == k;
      SplitCuts(t.rows, k, req.splitPoint, t.nextId);
    }
  }

  lemma NumberingAfter(t: Table, req: Request)
    requires t.Keyed()
    ensures After(t, req).Keyed() && (WellNumbered(t.rows) ==> WellNumbered(After(t, req).rows))
    ensures WellNumbered(t.rows) && Refusal(t.rows, req) == None ==>
              var k := Find(t.rows, req.eventId);
              t.rows[k].totalParts + 1 == CountParts(After(t, req).rows, t.rows[k].scheduleTaskId)
  {
    StepKeepsKeys(t, req);
    if WellNumbered(t.rows) {
      StepKeepsNumbering(t, req);
      if Refusal(t.rows, req) == None {
        ReportedTotal(t, req);
      }
    }
  }

  lemma SplitCuts(rows: seq<Event>, k: nat, point: int, id: nat)
    requires k < |rows|
    ensures CutAt(rows, SplitRows(rows, k, point, id), k, point, id)
  {
    var rows' := SplitRows(rows, k, point, id);
    forall j | 0 <= j < |rows|
      ensures rows'[j] == Rewritten(rows, k, point, j)
    {
    }
  }

  // ---------------------------------------------------------------- the store

  class EventStore {
    var rows: seq<Event>
    var nextId: nat

    ghost function Contents(): Table
      reads this
    {
      Table(rows, nextId)
    }

    constructor (rows: seq<Event>, nextId: nat)
      requires Table(rows, nextId).Keyed()
      ensures Contents() == Table(rows, nextId)
    {
      this.rows, this.nextId := rows, nextId;
    }

    method GetById(id: int) returns (k: nat)
      ensures k == Find(rows, id)
    {
      k := 0;
      while k < |rows| && rows[k].id != id
        invariant k <= |rows| && k + Find(rows[k..], id) == Find(rows, id)
      {
        assert rows[k..][1..] == rows[k + 1..];
        k := k + 1;
      }
    }

    method IncrementPartIndexAfter(task: int, after: int)
      modifies this`rows
      ensures |rows| == |old(rows)|
      ensures forall i :: 0 <= i < |rows| ==>
                var e := old(rows)[i];
                rows[i] ==
                if e.scheduleTaskId == task && e.partIndex > after then e.(partIndex := e.partIndex + 1) else e
    {
      rows := seq(|rows|, i requires 0 <= i < |rows| reads this => Shifted(rows[i], task, after));
    }

    method UpdateTotalPartsForTask(task: int, total: int)
      modifies this`rows
      ensures |rows| == |old(rows)|
      ensures forall i :: 0 <= i < |rows| ==>
                var e := old(rows)[i];
                rows[i] == if e.scheduleTaskId == task then e.(totalParts := total) else e
    {
      rows := seq(|rows|, i requires 0 <= i < |rows| reads this => WithTotal(rows[i], task, total));
    }

    /** An event is split if and only if it is planned and both sides of the point have the minimum length, 30 minutes
        unless a positive one is asked for; the refusals follow in this order. The cut event keeps its id and its place
        and ends at the point, a planned part that links to it follows under the next id, the parts behind move up by
        one, and all parts of the task carry the new total, which is their number if the numbering was consistent. */
    method SplitEvent(req: Request) returns (result: SplitResult)
      requires Contents().Keyed()
      modifies this
      ensures Contents() == After(old(Contents()), req)
      ensures Contents().Keyed() && (old(WellNumbered(rows)) ==> WellNumbered(rows))
      ensures result == Failed(EventNotFound) <==> forall i :: 0 <= i < |old(rows)| ==> old(rows)[i].id != req.eventId
      ensures forall i :: 0 <= i < |old(rows)| && old(rows)[i].id == req.eventId ==>
                && Answered(old(rows)[i], req, result)
                && (result.Parts? ==> CutAt(old(rows), rows, i, req.splitPoint, old(nextId)))
      ensures result.Failed? ==> rows == old(rows)
      ensures result.Parts? ==>
                && result.original in rows && result.newPart in rows
                && GoodHalves(old(rows)[Find(old(rows), req.eventId)], result.original, result.newPart, req)
                && result.totalParts == result.original.totalParts
                && (old(WellNumbered(rows)) ==> result.totalParts == CountParts(rows, result.original.scheduleTaskId))
    {
      ghost var before := Contents();
      result := CheckAndSplit(req);
      NumberingAfter(before, req);
      Answer(before, req, result);
    }

    /** The checks, then the statements, which a store failure rolls back. */
    method CheckAndSplit(req: Request) returns (result: SplitResult)
      modifies this
      ensures Contents() == After(old(Contents()), req)
      ensures result.Failed? <==> old(Refusal(rows, req)).Some?
      ensures result.Failed? ==> old(Refusal(rows, req)) == Some(result.error)
      ensures result.Parts? ==>
                && result.original in rows && result.newPart in rows
                && GoodHalves(old(rows)[Find(old(rows), req.eventId)], result.original, result.newPart, req)
                && result.totalParts == result.original.totalParts
                && result.totalParts == old(rows)[Find(old(rows), req.eventId)].totalParts + 1
    {
      var k := GetById(req.eventId);
      if k == |rows| {
        return Failed(EventNotFound);
      }
      var event := rows[k];
      if !CanSplit(event, req.MinDuration()) {
        return Failed(EventCannotBeSplit);
      }
      if !PointAllowed(event, req.splitPoint, req.MinDuration()) {
        return Failed(EventInvalidSplitPoint);
      }
      if req.storeFails {
        return Failed(StoreFailed);
      }
      var newPart;
      event, newPart := WriteSplit(k, req.splitPoint);
      return Parts(event, newPart, event.totalParts);
    }

    /** The statements of the transaction: the parts behind are renumbered, all parts get the new total, the event is
        cut, and the new part is created. */
    method WriteSplit(k: nat, splitPoint: int) returns (event: Event, newPart: Event)
      requires k < |rows|
      modifies this`rows, this`nextId
      ensures rows == SplitRows(old(rows), k, splitPoint, old(nextId)) && nextId == old(nextId) + 1
      ensures event in rows && event == old(rows)[k].(endMin := splitPoint, totalParts := old(rows)[k].totalParts + 1)
      ensures newPart in rows && newPart == SecondHalf(old(rows)[k], splitPoint, old(nextId))
    {
      event := rows[k];
      newPart := SecondHalf(event, splitPoint, nextId);
      var newTotalParts := event.totalParts + 1;
      IncrementPartIndexAfter(event.scheduleTaskId, event.partIndex);
      UpdateTotalPartsForTask(event.scheduleTaskId, newTotalParts);
      event := event.(endMin := splitPoint, totalParts := newTotalParts);
      rows := rows[k := event];
      assert rows == RewrittenRows(old(rows), k, splitPoint);
      rows := rows + [newPart];
      nextId := nextId + 1;
      assert rows[k] == event && rows[|rows| - 1] == newPart;
    }
  }
}
