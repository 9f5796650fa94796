/** Copying a plan's tasks and events into a new plan, with ids renamed. */
module PlanCloning {
  import opened ScheduleEntities

  // ---------------------------------------------------------------- tables

  function TasksOf(rows: seq<ScheduleTask>, planId: int): (r: seq<ScheduleTask>)
    ensures forall t :: t in r <==> t in rows && t.planId == planId
  {
    if rows == [] then []
    else TasksOf(rows[..|rows| - 1], planId) + (if rows[|rows| - 1].planId == planId then [rows[|rows| - 1]] else [])
  }

  /** Events of a plan whose date lies in the range, both ends included. */
  function EventsBetween(rows: seq<Event>, planId: int, from: int, to: int): (r: seq<Event>)
    ensures forall e :: e in r <==> e in rows && e.planId == planId && from <= e.dateMs <= to
  {
    if rows == [] then []
    else
      var e := rows[|rows| - 1];
      EventsBetween(rows[..|rows| - 1], planId, from, to) +
      (if e.planId == planId && from <= e.dateMs <= to then [e] else [])
  }

  /** What a batch insert stores: the rows with consecutive fresh ids. */
  function Numbered(rows: seq<ScheduleTask>, firstId: nat): (r: seq<ScheduleTask>)
    ensures |r| == |rows| && forall i :: 0 <= i < |r| ==> r[i] == rows[i].(id := firstId + i)
  {
    seq(|rows|, i requires 0 <= i < |rows| => rows[i].(id := firstId + i))
  }

  function NumberedEvents(rows: seq<Event>, firstId: nat): (r: seq<Event>)
    ensures |r| == |rows| && forall i :: 0 <= i < |r| ==> r[i] == rows[i].(id := firstId + i)
  {
    seq(|rows|, i requires 0 <= i < |rows| => rows[i].(id := firstId + i))
  }

  function CopyTask(t: ScheduleTask, planId: int): ScheduleTask {
    ScheduleTask(0, planId, t.taskId, t.details)
  }

  /** An event whose task has no entry in the mapping keeps pointing at the old task. */
  function CopyEvent(e: Event, planId: int, mapping: map<int, int>): Event {
    e.(id := 0, planId := planId,
       scheduleTaskId := if e.scheduleTaskId in mapping then mapping[e.scheduleTaskId] else e.scheduleTaskId)
  }

  ghost predicate DistinctTaskIds(ts: seq<ScheduleTask>) {
    forall i, j :: 0 <= i < j < |ts| ==> ts[i].taskId != ts[j].taskId
  }

  /** Each plan holds a task at most once. */
  ghost predicate UniquePerPlan(ts: seq<ScheduleTask>) {
    forall i, j :: 0 <= i < j < |ts| && ts[i].planId == ts[j].planId ==> ts[i].taskId != ts[j].taskId
  }

  ghost predicate DistinctIds(ts: seq<ScheduleTask>) {
    forall i, j :: 0 <= i < j < |ts| ==> ts[i].id != ts[j].id
  }

  /** Adding a row that clashes with none of the earlier ones. */
  lemma AppendTask(ts: seq<ScheduleTask>, t: ScheduleTask)
    ensures DistinctIds(ts) && (forall o :: o in ts ==> o.id != t.id) ==> DistinctIds(ts + [t])
    ensures UniquePerPlan(ts) && (forall o :: o in ts && o.planId == t.planId ==> o.taskId != t.taskId) ==>
            UniquePerPlan(ts + [t])
  {
  }

  lemma {:induction false} TasksOfDistinct(rows: seq<ScheduleTask>, planId: int)
    requires DistinctIds(rows)
    ensures DistinctIds(TasksOf(rows, planId))
  {
    if rows != [] {
      var rest, last := rows[..|rows| - 1], rows[|rows| - 1];
      TasksOfDistinct(rest, planId);
      AppendTask(TasksOf(rest, planId), last);
    }
  }

  lemma {:induction false} TasksOfUnique(rows: seq<ScheduleTask>, planId: int)
    requires UniquePerPlan(rows)
    ensures UniquePerPlan(TasksOf(rows, planId)) && DistinctTaskIds(TasksOf(rows, planId))
  {
    if rows != [] {
      var rest, last := rows[..|rows| - 1], rows[|rows| - 1];
      TasksOfUnique(rest, planId);
      AppendTask(TasksOf(rest, planId), last);
    }
    OnePlanUnique(TasksOf(rows, planId), planId);
  }

  lemma OnePlanUnique(ts: seq<ScheduleTask>, planId: int)
    requires UniquePerPlan(ts) && forall t :: t in ts ==> t.planId == planId
    ensures DistinctTaskIds(ts)
  {
  }

  /** Last row with the given TaskID, if any. */
  ghost function LastIndex(ts: seq<ScheduleTask>, taskId: int): (i: int)
    ensures -1 <= i < |ts|
    ensures i >= 0 ==> ts[i].taskId == taskId
    ensures forall j :: i < j < |ts| ==> ts[j].taskId != taskId
  {
    if ts == [] then -1
    else if ts[|ts| - 1].taskId == taskId then |ts| - 1
    else LastIndex(ts[..|ts| - 1], taskId)
  }

  /** The last row with the TaskID of row i. */
  ghost function LastLike(ts: seq<ScheduleTask>, i: nat): (k: nat)
    requires i < |ts|
    ensures i <= k < |ts| && ts[k].taskId == ts[i].taskId
  {
    LastIndex(ts, ts[i].taskId)
  }

  /** What the id mapping contains: source id to clone id, for the last row of each TaskID and for no other. */
  ghost predicate MapsLast(src: seq<ScheduleTask>, clones: seq<ScheduleTask>, mapping: map<int, int>) {
    && |clones| == |src|
    && (forall i :: 0 <= i < |src| ==>
          src[LastLike(src, i)].id in mapping && mapping[src[LastLike(src, i)].id] == clones[LastLike(src, i)].id)
    && (forall id :: id in mapping ==> exists i :: 0 <= i < |src| && LastLike(src, i) == i && src[i].id == id)
  }

  /** The mapping knows every task of the source plan if and only if TaskIDs are unique in it. */
  lemma MappingTotalIff(src: seq<ScheduleTask>, clones: seq<ScheduleTask>, mapping: map<int, int>)
    requires MapsLast(src, clones, mapping) && DistinctIds(src)
    ensures (forall i :: 0 <= i < |src| ==> src[i].id in mapping) <==> DistinctTaskIds(src)
  {
    if forall i :: 0 <= i < |src| ==> src[i].id in mapping {
      forall i, j | 0 <= i < j < |src|
        ensures src[i].taskId != src[j].taskId
      {
        var k :| 0 <= k < |src| && LastLike(src, k) == k && src[k].id == src[i].id;
        assert k == i;
      }
    }
    if DistinctTaskIds(src) {
      forall i | 0 <= i < |src|
        ensures src[i].id in mapping
      {
        assert LastLike(src, i) == i;
      }
    }
  }

  /** With TaskIDs unique in the plan the mapping is a bijection from the source ids onto the clone ids, and it leads
      from each task to the clone with the same TaskID. */
  lemma MappingIsBijection(src: seq<ScheduleTask>, clones: seq<ScheduleTask>, mapping: map<int, int>)
    requires MapsLast(src, clones, mapping) && DistinctIds(src) && DistinctIds(clones) && DistinctTaskIds(src)
    ensures forall i :: 0 <= i < |src| ==> src[i].id in mapping && mapping[src[i].id] == clones[i].id
    ensures forall id :: id in mapping ==> exists i :: 0 <= i < |src| && src[i].id == id
    ensures forall a, b :: a in mapping && b in mapping && a != b ==> mapping[a] != mapping[b]
  {
    forall i | 0 <= i < |src|
      ensures src[i].id in mapping && mapping[src[i].id] == clones[i].id
    {
      assert LastLike(src, i) == i;
    }
    forall a, b | a in mapping && b in mapping && a != b
      ensures mapping[a] != mapping[b]
    {
      var i :| 0 <= i < |src| && LastLike(src, i) == i && src[i].id == a;
      var j :| 0 <= j < |src| && LastLike(src, j) == j && src[j].id == b;
      assert i < j ==> clones[i].id != clones[j].id;
      assert j < i ==> clones[j].id != clones[i].id;
    }
  }

  /** First pass of the renaming: TaskID to the id of the last source row that has it. */
  method OldIds(src: seq<ScheduleTask>) returns (ids: map<int, int>)
    ensures forall t :: t in ids <==> LastIndex(src, t) >= 0
    ensures forall t :: t in ids ==> ids[t] == src[LastIndex(src, t)].id
  {
    ids := map[];
    for k := 0 to |src|
      invariant forall t :: t in ids <==> LastIndex(src[..k], t) >= 0
      invariant forall t :: t in ids ==> ids[t] == src[LastIndex(src[..k], t)].id
    {
      assert src[..k + 1][..k] == src[..k];
      ids := ids[src[k].taskId := src[k].id];
    }
    assert src[..|src|] == src;
  }

  /** The mapping once the first k clones have been entered; a later clone of the same TaskID overwrites. */
  ghost predicate MapsSoFar(src: seq<ScheduleTask>, clones: seq<ScheduleTask>, mapping: map<int, int>, k: nat)
    requires |clones| == |src| && k <= |src|
  {
    && (forall i :: 0 <= i < k ==> EnteredUpTo(src, clones, mapping, k, i))
    && (forall id :: id in mapping ==> exists i :: 0 <= i < |src| && LastLike(src, i) == i && src[i].id == id)
  }

  ghost predicate EnteredUpTo(src: seq<ScheduleTask>, clones: seq<ScheduleTask>, mapping: map<int, int>, k: nat, i: nat)
    requires |clones| == |src| && i < k <= |src|
  {
    var last := LastLike(src, i);
    src[last].id in mapping && (last < k ==> mapping[src[last].id] == clones[last].id)
  }

  lemma MappingStep(src: seq<ScheduleTask>, clones: seq<ScheduleTask>, mapping: map<int, int>, k: nat)
    requires |clones| == |src| && k < |src| && DistinctIds(src) && MapsSoFar(src, clones, mapping, k)
    ensures MapsSoFar(src, clones, mapping[src[LastLike(src, k)].id := clones[k].id], k + 1)
  {
    var last := LastLike(src, k);
    var more := mapping[src[last].id := clones[k].id];
    var upTo := k + 1;
    assert LastLike(src, last) == last;
    forall i | 0 <= i < upTo
      ensures EnteredUpTo(src, clones, more, upTo, i)
    {
      if i < k {
        assert EnteredUpTo(src, clones, mapping, k, i);
        var l := LastLike(src, i);
        assert l != last ==> src[l].id != src[last].id;
        assert l == k ==> last == k;
      }
    }
  }

  lemma MapsAll(src: seq<ScheduleTask>, clones: seq<ScheduleTask>, mapping: map<int, int>)
    requires |clones| == |src| && MapsSoFar(src, clones, mapping, |src|)
    ensures MapsLast(src, clones, mapping)
  {
    forall i | 0 <= i < |src|
      ensures src[LastLike(src, i)].id in mapping && mapping[src[LastLike(src, i)].id] == clones[LastLike(src, i)].id
    {
      assert EnteredUpTo(src, clones, mapping, |src|, i);
    }
  }

  /** Second pass: source id to clone id, matched by TaskID. */
  method IdMapping(src: seq<ScheduleTask>, clones: seq<ScheduleTask>, oldIds: map<int, int>)
    returns (mapping: map<int, int>)
    requires |clones| == |src| && DistinctIds(src)
    requires forall i :: 0 <= i < |src| ==> clones[i].taskId == src[i].taskId
    requires forall t :: t in oldIds <==> LastIndex(src, t) >= 0
    requires forall t :: t in oldIds ==> oldIds[t] == src[LastIndex(src, t)].id
    ensures MapsLast(src, clones, mapping)
  {
    mapping := map[];
    for k := 0 to |clones|
      invariant MapsSoFar(src, clones, mapping, k)
    {
      var newTask := clones[k];
      ghost var last := LastLike(src, k);
      MappingStep(src, clones, mapping, k);
      if newTask.taskId in oldIds {
        assert oldIds[newTask.taskId] == src[last].id;
        mapping := mapping[oldIds[newTask.taskId] := newTask.id];
      }
    }
    MapsAll(src, clones, mapping);
  }

  // ---------------------------------------------------------------- integrity

  ghost predicate PointsIntoPlan(ts: seq<ScheduleTask>, e: Event) {
    exists i :: 0 <= i < |ts| && ts[i].id == e.scheduleTaskId && ts[i].planId == e.planId
  }

  datatype Tables = Tables(tasks: seq<ScheduleTask>, events: seq<Event>,
                           nextTaskId: nat, nextEventId: nat, nextPlanId: nat) {
    /** Keys are distinct and below the next ones, and a link names an event that has existed. */
    ghost predicate Keyed() {
      && DistinctIds(tasks) && DistinctEventIds(events)
      && (forall i :: 0 <= i < |tasks| ==> tasks[i].id < nextTaskId && tasks[i].planId < nextPlanId)
      && (forall i :: 0 <= i < |events| ==> KeyedEvent(events[i]))
    }

    ghost predicate KeyedEvent(e: Event) {
      e.id < nextEventId && e.planId < nextPlanId && (e.linkedEventId.Some? ==> e.linkedEventId.value < nextEventId)
    }

    /** Each plan holds a task at most once, and every event points into its plan. */
    ghost predicate Sound() {
      UniquePerPlan(tasks) && forall i :: 0 <= i < |events| ==> PointsIntoPlan(tasks, events[i])
    }
  }

  /** The clone of plan `planId`'s rows: same tasks under new ids, same events pointing at the clones of their tasks. */
  ghost predicate Isomorphic(src: seq<ScheduleTask>, clones: seq<ScheduleTask>, es: seq<Event>, eventClones: seq<Event>,
                             planId: int) {
    && |clones| == |src| && |eventClones| == |es|
    && (forall i :: 0 <= i < |src| ==> clones[i] == src[i].(id := clones[i].id, planId := planId))
    && DistinctIds(clones)
    && (forall j :: 0 <= j < |es| ==>
          eventClones[j] == es[j].(id := eventClones[j].id, planId := planId,
                                   scheduleTaskId := eventClones[j].scheduleTaskId)
          && RenamedTogether(src, clones, es[j].scheduleTaskId, eventClones[j].scheduleTaskId))
  }

  ghost predicate RenamedTogether(src: seq<ScheduleTask>, clones: seq<ScheduleTask>, oldId: int, newId: int)
    requires |clones| == |src|
  {
    exists i :: 0 <= i < |src| && src[i].id == oldId && clones[i].id == newId
  }

  lemma MappingRenames(src: seq<ScheduleTask>, clones: seq<ScheduleTask>, mapping: map<int, int>, id: int)
    requires MapsLast(src, clones, mapping) && DistinctIds(src) && DistinctTaskIds(src)
    requires exists i :: 0 <= i < |src| && src[i].id == id
    ensures id in mapping && RenamedTogether(src, clones, id, mapping[id])
  {
    var i :| 0 <= i < |src| && src[i].id == id;
    assert LastLike(src, i) == i;
  }

  /** The range read lists each event once. */
  lemma {:induction false} EventsBetweenDistinct(rows: seq<Event>, planId: int, from: int, to: int)
    requires DistinctEventIds(rows)
    ensures DistinctEventIds(EventsBetween(rows, planId, from, to))
  {
    if rows != [] {
      var rest := rows[..|rows| - 1];
      EventsBetweenDistinct(rest, planId, from, to);
      assert forall e :: e in EventsBetween(rest, planId, from, to) ==> e in rest;
    }
  }

  lemma SourceTaskOfEvent(ts: seq<ScheduleTask>, planId: int, e: Event)
    requires PointsIntoPlan(ts, e) && e.planId == planId
    ensures exists i :: 0 <= i < |TasksOf(ts, planId)| && TasksOf(ts, planId)[i].id == e.scheduleTaskId
  {
    var k :| 0 <= k < |ts| && ts[k].id == e.scheduleTaskId && ts[k].planId == e.planId;
    assert ts[k] in TasksOf(ts, planId);
  }

  lemma AppendedPlanUnique(ts: seq<ScheduleTask>, clones: seq<ScheduleTask>, planId: int)
    requires UniquePerPlan(ts) && DistinctTaskIds(clones)
    requires forall t :: t in ts ==> t.planId < planId
    requires forall c :: c in clones ==> c.planId == planId
    ensures UniquePerPlan(ts + clones)
  {
  }

  lemma StillPointsIntoPlan(ts: seq<ScheduleTask>, more: seq<ScheduleTask>, e: Event)
    requires PointsIntoPlan(ts, e)
    ensures PointsIntoPlan(ts + more, e)
  {
    var k :| 0 <= k < |ts| && ts[k].id == e.scheduleTaskId && ts[k].planId == e.planId;
    assert (ts + more)[k] == ts[k];
  }

  lemma ClonePointsIntoPlan(ts: seq<ScheduleTask>, src: seq<ScheduleTask>, clones: seq<ScheduleTask>, oldId: int,
                            e: Event)
    requires |clones| == |src| && RenamedTogether(src, clones, oldId, e.scheduleTaskId)
    requires forall i :: 0 <= i < |clones| ==> clones[i].planId == e.planId
    ensures PointsIntoPlan(ts + clones, e)
  {
    var k :| 0 <= k < |src| && src[k].id == oldId && clones[k].id == e.scheduleTaskId;
    assert (ts + clones)[|ts| + k] == clones[k];
  }

  /** The tables after a plan has been copied into the next one, with the renaming that was used. */
  ghost predicate CopiedPlan(t: Tables, t': Tables, planId: int, from: int, to: int, mapping: map<int, int>) {
    var src, source := TasksOf(t.tasks, planId), EventsBetween(t.events, planId, from, to);
    var clones := Numbered(Copies(src, t.nextPlanId), t.nextTaskId);
    var eventClones := NumberedEvents(CopiesOfEvents(source, t.nextPlanId, mapping), t.nextEventId);
    && t'.tasks == t.tasks + clones && t'.nextTaskId == t.nextTaskId + |clones|
    && t'.events == t.events + eventClones && t'.nextEventId == t.nextEventId + |eventClones|
    && t'.nextPlanId == t.nextPlanId + 1
    && MapsLast(src, clones, mapping)
  }

  /** Whatever the tables hold besides their keys, the copy keeps the keys. */
  lemma CopyKeepsKeys(t: Tables, t': Tables, planId: int, from: int, to: int, mapping: map<int, int>)
    requires t.Keyed() && CopiedPlan(t, t', planId, from, to, mapping)
    ensures t'.Keyed()
  {
    var source := EventsBetween(t.events, planId, from, to);
    forall i | 0 <= i < |t'.events|
      ensures t'.KeyedEvent(t'.events[i])
    {
      if i < |t.events| {
        assert t.KeyedEvent(t.events[i]);
      } else {
        assert source[i - |t.events|] in t.events;
        var k :| 0 <= k < |t.events| && t.events[k] == source[i - |t.events|];
        assert t.KeyedEvent(t.events[k]);
      }
    }
  }

  /** The rows of the new plan are exactly the added ones, and no link of theirs leads into the new plan: links are
      copied as they are. */
  lemma NewPlanRows(t: Tables, t': Tables, planId: int, from: int, to: int, mapping: map<int, int>)
    requires t.Keyed() && CopiedPlan(t, t', planId, from, to, mapping)
    ensures forall i :: 0 <= i < |t'.tasks| ==> (t'.tasks[i].planId == t.nextPlanId <==> i >= |t.tasks|)
    ensures forall i :: 0 <= i < |t'.events| ==> (t'.events[i].planId == t.nextPlanId <==> i >= |t.events|)
    ensures forall i :: |t.events| <= i < |t'.events| ==>
              (LinkInside(t'.events, t'.events[i]) <==> t'.events[i].linkedEventId == None)
  {
    forall i | 0 <= i < |t.events|
      ensures t'.events[i].planId < t.nextPlanId && t'.events[i].id < t.nextEventId
    {
      assert t.KeyedEvent(t.events[i]);
    }
    var source := EventsBetween(t.events, planId, from, to);
    forall i | |t.events| <= i < |t'.events|
      ensures LinkInside(t'.events, t'.events[i]) <==> t'.events[i].linkedEventId == None
    {
      assert source[i - |t.events|] in t.events;
      var k :| 0 <= k < |t.events| && t.events[k] == source[i - |t.events|];
      assert t.KeyedEvent(t.events[k]);
      LinkStaysBehind(t.events, t'.events, t.nextEventId, t'.events[i]);
    }
  }

  /** Adding an isomorphic copy under fresh ids keeps tables sound. */
  lemma CloneKeepsSound(t: Tables, planId: int, clones: seq<ScheduleTask>, eventClones: seq<Event>, from: int, to: int)
    requires t.Keyed() && t.Sound()
    requires Isomorphic(TasksOf(t.tasks, planId), clones, EventsBetween(t.events, planId, from, to), eventClones,
                        t.nextPlanId)
    ensures UniquePerPlan(t.tasks + clones)
    ensures forall i :: 0 <= i < |t.events + eventClones| ==>
            PointsIntoPlan(t.tasks + clones, (t.events + eventClones)[i])
  {
    var src, source := TasksOf(t.tasks, planId), EventsBetween(t.events, planId, from, to);
    TasksOfUnique(t.tasks, planId);
    assert DistinctTaskIds(clones) by {
      assert forall i :: 0 <= i < |src| ==> clones[i].taskId == src[i].taskId;
    }
    AppendedPlanUnique(t.tasks, clones, t.nextPlanId);
    ClonedEventsPointIntoPlan(t.tasks, t.events, src, clones, source, eventClones, t.nextPlanId);
  }

  lemma ClonedEventsPointIntoPlan(ts: seq<ScheduleTask>, es: seq<Event>, src: seq<ScheduleTask>,
                                  clones: seq<ScheduleTask>,
                                  source: seq<Event>, eventClones: seq<Event>, newPlanId: int)
    requires forall i :: 0 <= i < |es| ==> PointsIntoPlan(ts, es[i])
    requires Isomorphic(src, clones, source, eventClones, newPlanId)
    ensures forall i :: 0 <= i < |es + eventClones| ==> PointsIntoPlan(ts + clones, (es + eventClones)[i])
  {
    forall i | 0 <= i < |es + eventClones|
      ensures PointsIntoPlan(ts + clones, (es + eventClones)[i])
    {
      if i < |es| {
        StillPointsIntoPlan(ts, clones, es[i]);
      } else {
        ClonePointsIntoPlan(ts, src, clones, source[i - |es|].scheduleTaskId, eventClones[i - |es|]);
      }
    }
  }

  // ---------------------------------------------------------------- deletion

  function WithoutTask(rows: seq<ScheduleTask>, id: int): (r: seq<ScheduleTask>)
    ensures forall t :: t in r <==> t in rows && t.id != id
  {
    if rows == [] then []
    else
      var last := rows[|rows| - 1];
      WithoutTask(rows[..|rows| - 1], id) + (if last.id != id then [last] else [])
  }

  function WithoutEventsOf(rows: seq<Event>, scheduleTaskId: int): (r: seq<Event>)
    ensures forall e :: e in r <==> e in rows && e.scheduleTaskId != scheduleTaskId
  {
    if rows == [] then []
    else
      var last := rows[|rows| - 1];
      WithoutEventsOf(rows[..|rows| - 1], scheduleTaskId)
      + (if last.scheduleTaskId != scheduleTaskId then [last] else [])
  }

  lemma {:induction false} WithoutTaskDistinct(rows: seq<ScheduleTask>, id: int)
    ensures DistinctIds(rows) ==> DistinctIds(WithoutTask(rows, id))
    ensures UniquePerPlan(rows) ==> UniquePerPlan(WithoutTask(rows, id))
  {
    if rows != [] {
      var rest, last := rows[..|rows| - 1], rows[|rows| - 1];
      WithoutTaskDistinct(rest, id);
      AppendTask(WithoutTask(rest, id), last);
    }
  }

  lemma {:induction false} WithoutEventsDistinct(rows: seq<Event>, scheduleTaskId: int)
    requires DistinctEventIds(rows)
    ensures DistinctEventIds(WithoutEventsOf(rows, scheduleTaskId))
  {
    if rows != [] {
      var rest, last := rows[..|rows| - 1], rows[|rows| - 1];
      WithoutEventsDistinct(rest, scheduleTaskId);
      assert forall e :: e in WithoutEventsOf(rest, scheduleTaskId) ==> e in rest;
    }
  }

  /** The row the id names is the only one deleted, and the only one its plan has for its task. */
  lemma DeletedRow(ts: seq<ScheduleTask>, k: nat, t: ScheduleTask)
    requires DistinctIds(ts) && UniquePerPlan(ts) && k < |ts|
    ensures t in WithoutTask(ts, ts[k].id) <==> t in ts && !(t.planId == ts[k].planId && t.taskId == ts[k].taskId)
  {
    if t in ts {
      var i :| 0 <= i < |ts| && ts[i] == t;
    }
  }

  /** The event is scheduled for the plan's copy of the task. */
  ghost predicate EventOf(ts: seq<ScheduleTask>, planId: int, taskId: int, e: Event) {
    exists i :: 0 <= i < |ts| && ts[i].planId == planId && ts[i].taskId == taskId && ts[i].id == e.scheduleTaskId
  }

  lemma DeletedEvent(ts: seq<ScheduleTask>, k: nat, e: Event)
    requires UniquePerPlan(ts) && k < |ts|
    ensures EventOf(ts, ts[k].planId, ts[k].taskId, e) <==> e.scheduleTaskId == ts[k].id
  {
  }

  /** The tables without a task row and its events. */
  function Without(t: Tables, id: int): Tables {
    t.(tasks := WithoutTask(t.tasks, id), events := WithoutEventsOf(t.events, id))
  }

  lemma DeleteKeepsKeys(t: Tables, id: int)
    requires t.Keyed()
    ensures Without(t, id).Keyed()
  {
    var t' := Without(t, id);
    WithoutTaskDistinct(t.tasks, id);
    WithoutEventsDistinct(t.events, id);
    forall i | 0 <= i < |t'.tasks|
      ensures t'.tasks[i].id < t.nextTaskId && t'.tasks[i].planId < t.nextPlanId
    {
      assert t'.tasks[i] in t.tasks;
    }
    forall i | 0 <= i < |t'.events|
      ensures t'.KeyedEvent(t'.events[i])
    {
      assert t'.events[i] in t.events;
      var k :| 0 <= k < |t.events| && t.events[k] == t'.events[i];
      assert t.KeyedEvent(t.events[k]);
    }
  }

  lemma DeleteKeepsSound(t: Tables, id: int)
    requires t.Sound()
    ensures Without(t, id).Sound()
  {
    var t' := Without(t, id);
    WithoutTaskDistinct(t.tasks, id);
    forall i | 0 <= i < |t'.events|
      ensures PointsIntoPlan(t'.tasks, t'.events[i])
    {
      assert t'.events[i] in t.events;
      var k :| 0 <= k < |t.events| && t.events[k] == t'.events[i];
      assert PointsIntoPlan(t.tasks, t.events[k]);
      var j :| 0 <= j < |t.tasks| && t.tasks[j].id == t.events[k].scheduleTaskId
          && t.tasks[j].planId == t.events[k].planId;
      assert t.tasks[j] in t'.tasks;
    }
  }

  /** The first row the plan has for the task, or |rows|. */
  function FindSnapshot(rows: seq<ScheduleTask>, planId: int, taskId: int): (k: nat)
    ensures k <= |rows| && (k < |rows| ==> rows[k].planId == planId && rows[k].taskId == taskId)
    ensures forall i :: 0 <= i < k ==> !(rows[i].planId == planId && rows[i].taskId == taskId)
  {
    if rows == [] || (rows[0].planId == planId && rows[0].taskId == taskId) then 0
    else 1 + FindSnapshot(rows[1..], planId, taskId)
  }

  lemma NothingToCopy(ts: seq<ScheduleTask>, es: seq<Event>, planId: int, from: int, to: int)
    ensures TasksOf(ts, planId) != [] <==> exists t :: t in ts && t.planId == planId
    ensures EventsBetween(es, planId, from, to) != []
            <==> exists e :: e in es && e.planId == planId && from <= e.dateMs <= to
  {
    var src, source := TasksOf(ts, planId), EventsBetween(es, planId, from, to);
    if src != [] {
      assert src[0] in src;
    }
    if source != [] {
      assert source[0] in source;
    }
  }

  /** The copy of an event under a new id, in the new plan, for the copy of its task if the mapping knows it, and
      otherwise as it was. */
  ghost predicate IsCopy(e: Event, copy: Event, newId: int, newPlanId: int, mapping: map<int, int>) {
    && copy.id == newId && copy.planId == newPlanId
    && (e.scheduleTaskId in mapping ==> copy.scheduleTaskId == mapping[e.scheduleTaskId])
    && (e.scheduleTaskId !in mapping ==> copy.scheduleTaskId == e.scheduleTaskId)
    && copy.dateMs == e.dateMs && copy.startMin == e.startMin && copy.endMin == e.endMin
    && copy.partIndex == e.partIndex && copy.totalParts == e.totalParts && copy.linkedEventId == e.linkedEventId
    && copy.status == e.status && copy.isPinned == e.isPinned && copy.title == e.title && copy.measured == e.measured
  }

  // ---------------------------------------------------------------- the store

  /** The step of the transaction that fails, if any. */
  datatype CloneFailure = NoFailure | PlanInsertFails | TaskBatchFails | EventReadFails | EventBatchFails

  class PlanStore {
    var tasks: seq<ScheduleTask>
    var events: seq<Event>
    var nextTaskId: nat
    var nextEventId: nat
    var nextPlanId: nat

    ghost function Contents(): Tables
      reads this
    {
      Tables(tasks, events, nextTaskId, nextEventId, nextPlanId)
    }

    /** Opens a store on tables whose keys hold together. */
    constructor (t: Tables)
      requires t.Keyed()
      ensures Contents() == t
    {
      tasks, events := t.tasks, t.events;
      nextTaskId, nextEventId, nextPlanId := t.nextTaskId, t.nextEventId, t.nextPlanId;
    }

    /** Returns the renaming of schedule-task ids; nothing is stored when the batch fails. */
    method CloneTasksForPlan(srcPlanId: int, destPlanId: int, fails: bool)
      returns (failed: bool, mapping: map<int, int>)
      requires DistinctIds(tasks)
      modifies this`tasks, this`nextTaskId
      ensures var src := old(TasksOf(tasks, srcPlanId));
              var clones := Numbered(Copies(src, destPlanId), old(nextTaskId));
              && (failed <==> fails && src != [])
              && tasks == (if failed then old(tasks) else old(tasks) + clones)
              && nextTaskId == old(nextTaskId) + (if failed then 0 else |clones|)
              && (!failed ==> MapsLast(src, clones, mapping))
      ensures !failed ==>
                var src := TasksOf(old(tasks), srcPlanId);
                && |tasks| == |old(tasks)| + |src|
                && forall k :: 0 <= k < |src| ==>
                     tasks[|old(tasks)| + k]
                     == ScheduleTask(old(nextTaskId) + k, destPlanId, src[k].taskId, src[k].details)
    {
      var srcTasks := TasksOf(tasks, srcPlanId);
      if |srcTasks| == 0 {
        return false, map[];
      }
      TasksOfDistinct(tasks, srcPlanId);
      var oldIds := OldIds(srcTasks);
      var clonedTasks: seq<ScheduleTask> := [];
      for k := 0 to |srcTasks|
        invariant clonedTasks == Copies(srcTasks, destPlanId)[..k]
      {
        clonedTasks := clonedTasks + [CopyTask(srcTasks[k], destPlanId)];
      }
      if fails {
        return true, map[];
      }
      assert clonedTasks == Copies(srcTasks, destPlanId);
      var stored := Numbered(clonedTasks, nextTaskId);
      tasks, nextTaskId := tasks + stored, nextTaskId + |stored|;
      mapping := IdMapping(srcTasks, stored, oldIds);
      return false, mapping;
    }

    method CloneEventsForPlan(newPlanId: int, source: seq<Event>, mapping: map<int, int>, fails: bool)
      returns (failed: bool)
      modifies this`events, this`nextEventId
      ensures failed == fails
      ensures var clones := NumberedEvents(CopiesOfEvents(source, newPlanId, mapping), old(nextEventId));
              && events == (if failed then old(events) else old(events) + clones)
              && nextEventId == old(nextEventId) + (if failed then 0 else |clones|)
      ensures !failed ==>
                && |events| == |old(events)| + |source|
                && forall k :: 0 <= k < |source| ==>
                     IsCopy(source[k], events[|old(events)| + k], old(nextEventId) + k, newPlanId, mapping)
    {
      var clonedEvents: seq<Event> := [];
      for k := 0 to |source|
        invariant clonedEvents == CopiesOfEvents(source, newPlanId, mapping)[..k]
      {
        clonedEvents := clonedEvents + [CopyEvent(source[k], newPlanId, mapping)];
      }
      if fails {
        return true;
      }
      assert clonedEvents == CopiesOfEvents(source, newPlanId, mapping);
      var stored := NumberedEvents(clonedEvents, nextEventId);
      events, nextEventId := events + stored, nextEventId + |stored|;
      return false;
    }

    /** The two clone steps inside the transaction; after a failure the rows are the old ones, ids handed out stay
        used. */
    method CloneRows(activePlanId: int, newPlanId: int, from: int, to: int, failure: CloneFailure)
      returns (failed: bool, ghost mapping: map<int, int>)
      requires DistinctIds(tasks)
      modifies this`tasks, this`nextTaskId, this`events, this`nextEventId
      ensures failed ==> tasks == old(tasks) && events == old(events)
      ensures failed <==>
              || failure == EventReadFails
              || (failure == TaskBatchFails && exists t :: t in old(tasks) && t.planId == activePlanId)
              || (failure == EventBatchFails
                  && exists e :: e in old(events) && e.planId == activePlanId && from <= e.dateMs <= to)
      ensures failed ==> nextTaskId >= old(nextTaskId) && nextEventId == old(nextEventId)
      ensures !failed ==>
                var src, source := TasksOf(old(tasks), activePlanId),
                    EventsBetween(old(events), activePlanId, from, to);
                var clones := Numbered(Copies(src, newPlanId), old(nextTaskId));
                var eventClones := NumberedEvents(CopiesOfEvents(source, newPlanId, mapping), old(nextEventId));
                && tasks == old(tasks) + clones && nextTaskId == old(nextTaskId) + |clones|
                && events == old(events) + eventClones && nextEventId == old(nextEventId) + |eventClones|
                && MapsLast(src, clones, mapping)
    {
      NothingToCopy(tasks, events, activePlanId, from, to);
      var tasksBefore := tasks;
      var tasksFailed, taskIds := CloneTasksForPlan(activePlanId, newPlanId, failure == TaskBatchFails);
      mapping := taskIds;
      if tasksFailed {
        return true, map[];
      }
      if failure == EventReadFails {
        tasks := tasksBefore;
        return true, map[];
      }
      var source := EventsBetween(events, activePlanId, from, to);
      if |source| > 0 {
        var eventsFailed := CloneEventsForPlan(newPlanId, source, taskIds, failure == EventBatchFails);
        if eventsFailed {
          tasks := tasksBefore;
          return true, map[];
        }
      }
      failed := false;
    }

    /** Copies the active plan's tasks, and its events in the range, into a new plan; existing rows stay as they are,
        and a failure anywhere rolls everything back. From sound tables the copy is isomorphic and the tables stay
        sound. */
    method CreateProposedPlanWithClone(activePlanId: int, from: int, to: int, failure: CloneFailure)
      returns (created: Option<int>, ghost mapping: map<int, int>)
      requires Contents().Keyed()
      modifies this
      ensures Contents().Keyed()
      ensures created == None ==> tasks == old(tasks) && events == old(events) && nextPlanId == old(nextPlanId)
      // every failing step that is reached rolls back
      ensures created == None <==>
              || failure == PlanInsertFails || failure == EventReadFails
              || (failure == TaskBatchFails && exists t :: t in old(tasks) && t.planId == activePlanId)
              || (failure == EventBatchFails
                  && exists e :: e in old(events) && e.planId == activePlanId && from <= e.dateMs <= to)
      ensures created.Some? ==>
                && created.value == old(nextPlanId)
                && CopiedPlan(old(Contents()), Contents(), activePlanId, from, to, mapping)
                && NewPlanIsAdded(old(Contents()), Contents())
                && (old(Contents()).Sound() ==>
                      && Contents().Sound()
                      && Isomorphic(TasksOf(old(tasks), activePlanId), tasks[|old(tasks)|..],
                                    EventsBetween(old(events), activePlanId, from, to), events[|old(events)|..],
                                    created.value))
    {
      if failure == PlanInsertFails {
        return None, map[];
      }
      var newPlanId := nextPlanId;
      ghost var before := Contents();
      var failed, renaming := CloneRows(activePlanId, newPlanId, from, to, failure);
      if failed {
        return None, map[];
      }
      nextPlanId := nextPlanId + 1;
      CloneStep(before, Contents(), activePlanId, from, to, renaming);
      return Some(newPlanId), renaming;
    }

    method GetByPlanIdAndTaskId(planId: int, taskId: int) returns (k: nat)
      ensures k == FindSnapshot(tasks, planId, taskId)
    {
      k := 0;
      while k < |tasks| && !(tasks[k].planId == planId && tasks[k].taskId == taskId)
        invariant k <= |tasks| && k + FindSnapshot(tasks[k..], planId, taskId) == FindSnapshot(tasks, planId, taskId)
      {
        assert tasks[k..][1..] == tasks[k + 1..];
        k := k + 1;
      }
    }

    /** Removes the first row the plan has for the task, together with its events. */
    method DeleteSnapshot(planId: int, taskId: int) returns (found: bool)
      requires Contents().Keyed()
      modifies this`tasks, this`events
      ensures Contents().Keyed() && (old(Contents()).Sound() ==> Contents().Sound())
      ensures found <==> FindSnapshot(old(tasks), planId, taskId) < |old(tasks)|
      ensures Contents() == if found then Without(old(Contents()),
                                                  old(tasks)[FindSnapshot(old(tasks), planId, taskId)].id)
                            else old(Contents())
      ensures found && old(Contents()).Sound() ==>
                && (forall t :: t in tasks <==> t in old(tasks) && !(t.planId == planId && t.taskId == taskId))
                && (forall e :: e in events <==> e in old(events) && !EventOf(old(tasks), planId, taskId, e))
    {
      var k := GetByPlanIdAndTaskId(planId, taskId);
      if k == |tasks| {
        return false;
      }
      var id := tasks[k].id;
      DeleteKeepsKeys(Contents(), id);
      if Contents().Sound() {
        DeleteKeepsSound(Contents(), id);
        DeletedRows(tasks, k);
      }
      events := WithoutEventsOf(events, id);
      tasks := WithoutTask(tasks, id);
      return true;
    }
  }

  lemma DeletedRows(ts: seq<ScheduleTask>, k: nat)
    requires DistinctIds(ts) && UniquePerPlan(ts) && k < |ts|
    ensures forall t ::
              t in WithoutTask(ts, ts[k].id) <==> t in ts && !(t.planId == ts[k].planId && t.taskId == ts[k].taskId)
    ensures forall e :: EventOf(ts, ts[k].planId, ts[k].taskId, e) <==> e.scheduleTaskId == ts[k].id
  {
    forall t {
      DeletedRow(ts, k, t);
    }
    forall e {
      DeletedEvent(ts, k, e);
    }
  }

  /** The new plan's rows are exactly the added ones, and their links lead elsewhere. */
  ghost predicate NewPlanIsAdded(t: Tables, t': Tables) {
    && (forall i :: 0 <= i < |t'.tasks| ==> (t'.tasks[i].planId == t.nextPlanId <==> i >= |t.tasks|))
    && (forall i :: 0 <= i < |t'.events| ==> (t'.events[i].planId == t.nextPlanId <==> i >= |t.events|))
    && (forall i :: |t.events| <= i < |t'.events| ==>
          (LinkInside(t'.events, t'.events[i]) <==> t'.events[i].linkedEventId == None))
  }

  function Copies(src: seq<ScheduleTask>, planId: int): (r: seq<ScheduleTask>)
    ensures |r| == |src| && forall i :: 0 <= i < |r| ==> r[i] == CopyTask(src[i], planId)
  {
    seq(|src|, i requires 0 <= i < |src| => CopyTask(src[i], planId))
  }

  function CopiesOfEvents(es: seq<Event>, planId: int, mapping: map<int, int>): (r: seq<Event>)
    ensures |r| == |es| && forall i :: 0 <= i < |r| ==> r[i] == CopyEvent(es[i], planId, mapping)
  {
    seq(|es|, i requires 0 <= i < |es| => CopyEvent(es[i], planId, mapping))
  }

  lemma ReferenceIsRenamed(t: Tables, clones: seq<ScheduleTask>, planId: int, mapping: map<int, int>, e: Event)
    requires t.Keyed() && t.Sound() && e in t.events && e.planId == planId
    requires MapsLast(TasksOf(t.tasks, planId), clones, mapping)
    ensures e.scheduleTaskId in mapping
            && RenamedTogether(TasksOf(t.tasks, planId), clones, e.scheduleTaskId, mapping[e.scheduleTaskId])
  {
    TasksOfDistinct(t.tasks, planId);
    TasksOfUnique(t.tasks, planId);
    var k :| 0 <= k < |t.events| && t.events[k] == e;
    SourceTaskOfEvent(t.tasks, planId, t.events[k]);
    MappingRenames(TasksOf(t.tasks, planId), clones, mapping, e.scheduleTaskId);
  }

  lemma CopiesMatch(src: seq<ScheduleTask>, source: seq<Event>, planId: int, taskId: nat, eventId: nat,
                    mapping: map<int, int>)
    requires var clones := Numbered(Copies(src, planId), taskId);
             forall j :: 0 <= j < |source| ==>
               source[j].scheduleTaskId in mapping
               && RenamedTogether(src, clones, source[j].scheduleTaskId, mapping[source[j].scheduleTaskId])
    ensures Isomorphic(src, Numbered(Copies(src, planId), taskId), source,
                       NumberedEvents(CopiesOfEvents(source, planId, mapping), eventId), planId)
  {
  }

  /** With TaskIDs unique per plan and events that point into their plan, every reference is renamed. */
  lemma CopiesAreIsomorphic(t: Tables, t': Tables, planId: int, from: int, to: int, mapping: map<int, int>)
    requires t.Keyed() && t.Sound() && CopiedPlan(t, t', planId, from, to, mapping)
    ensures Isomorphic(TasksOf(t.tasks, planId), t'.tasks[|t.tasks|..],
                       EventsBetween(t.events, planId, from, to), t'.events[|t.events|..], t.nextPlanId)
  {
    var src, source := TasksOf(t.tasks, planId), EventsBetween(t.events, planId, from, to);
    forall j | 0 <= j < |source|
      ensures source[j].scheduleTaskId in mapping
              && RenamedTogether(src, t'.tasks[|t.tasks|..], source[j].scheduleTaskId,
                                 mapping[source[j].scheduleTaskId])
    {
      ReferenceIsRenamed(t, t'.tasks[|t.tasks|..], planId, mapping, source[j]);
    }
    CopiesMatch(src, source, t.nextPlanId, t.nextTaskId, t.nextEventId, mapping);
  }

  /** What the whole transaction leaves behind. */
  lemma CloneStep(t: Tables, t': Tables, planId: int, from: int, to: int, mapping: map<int, int>)
    requires t.Keyed() && CopiedPlan(t, t', planId, from, to, mapping)
    ensures t'.Keyed() && NewPlanIsAdded(t, t')
    ensures t.Sound() ==>
              && t'.Sound()
              && Isomorphic(TasksOf(t.tasks, planId), t'.tasks[|t.tasks|..],
                            EventsBetween(t.events, planId, from, to), t'.events[|t.events|..], t.nextPlanId)
  {
    CopyKeepsKeys(t, t', planId, from, to, mapping);
    NewPlanRows(t, t', planId, from, to, mapping);
    if t.Sound() {
      CopiesAreIsomorphic(t, t', planId, from, to, mapping);
      CloneKeepsSound(t, planId, t'.tasks[|t.tasks|..], t'.events[|t.events|..], from, to);
    }
  }

  // ---------------------------------------------------------------- links between the parts of a split event

  /** The event a link names lies in the same plan. */
  ghost predicate LinkInside(es: seq<Event>, e: Event) {
    e.linkedEventId.Some? ==> exists i :: 0 <= i < |es| && es[i].id == e.linkedEventId.value && es[i].planId == e.planId
  }

  /** A link to an event that existed before cannot lead into a plan all of whose events are new: it lies inside the
      plan if and only if there is none. */
  lemma LinkStaysBehind(es: seq<Event>, es': seq<Event>, nextEventId: nat, clone: Event)
    requires forall i :: 0 <= i < |es| && i < |es'| ==> es'[i].planId != clone.planId
    requires forall i :: |es| <= i < |es'| ==> es'[i].id >= nextEventId
    requires clone.linkedEventId.Some? ==> clone.linkedEventId.value < nextEventId
    ensures LinkInside(es', clone) <==> clone.linkedEventId == None
  {
  }
}
