/** Part numbers after a plan has been cloned: a clone takes only the events of a date range. */
module ClonedParts {
  import opened ScheduleEntities
  import opened PlanCloning
  import opened Parts = EventSplitting

  ghost predicate SamePart(x: Event, y: Event) {
    && x.partIndex == y.partIndex && x.totalParts == y.totalParts
    && x.dateMs == y.dateMs && x.startMin == y.startMin && x.endMin == y.endMin
  }

  /** Two tasks with the same parts, in whatever rows: `at` leads from the one's rows to the other's, `back` returns. */
  ghost predicate Corresponds(a: seq<Event>, ta: int, b: seq<Event>, tb: int, at: int -> int, back: int -> int) {
    && (forall i :: 0 <= i < |a| && a[i].scheduleTaskId == ta ==>
          0 <= at(i) < |b| && b[at(i)].scheduleTaskId == tb && SamePart(a[i], b[at(i)]) && back(at(i)) == i)
    && (forall j :: 0 <= j < |b| && b[j].scheduleTaskId == tb ==>
          0 <= back(j) < |a| && a[back(j)].scheduleTaskId == ta && SamePart(a[back(j)], b[j]))
  }

  lemma NumberingTransfers(a: seq<Event>, ta: int, b: seq<Event>, tb: int, at: int -> int, back: int -> int)
    requires Corresponds(a, ta, b, tb, at, back) && CountParts(a, ta) == CountParts(b, tb)
    requires NumberedParts(b, tb)
    ensures NumberedParts(a, ta)
  {
    forall i, j | 0 <= i < j < |a| && a[i].scheduleTaskId == ta && a[j].scheduleTaskId == ta
      ensures a[i].partIndex != a[j].partIndex
    {
      assert at(i) != at(j);
      assert at(i) < at(j) ==> b[at(i)].partIndex != b[at(j)].partIndex;
      assert at(j) < at(i) ==> b[at(j)].partIndex != b[at(i)].partIndex;
    }
    forall p | 1 <= p <= CountParts(a, ta)
      ensures HasPart(a, ta, p)
    {
      assert HasPart(b, tb, p);
      var j :| 0 <= j < |b| && b[j].scheduleTaskId == tb && b[j].partIndex == p;
      assert a[back(j)].partIndex == p;
    }
  }

  // ---------------------------------------------------------------- counting

  lemma {:induction false} CountConcat(a: seq<Event>, b: seq<Event>, task: int)
    ensures CountParts(a + b, task) == CountParts(a, task) + CountParts(b, task)
  {
    if b == [] {
      assert a + b == a;
    } else {
      assert (a + b)[..|a + b| - 1] == a + b[..|b| - 1];
      CountConcat(a, b[..|b| - 1], task);
    }
  }

  lemma {:induction false} CountMatches(a: seq<Event>, ta: int, b: seq<Event>, tb: int)
    requires |a| == |b| && forall j :: 0 <= j < |a| ==> (a[j].scheduleTaskId == ta <==> b[j].scheduleTaskId == tb)
    ensures CountParts(a, ta) == CountParts(b, tb)
  {
    if a != [] {
      CountMatches(a[..|a| - 1], ta, b[..|b| - 1], tb);
    }
  }

  lemma {:induction false} CountNone(rows: seq<Event>, task: int)
    requires forall j :: 0 <= j < |rows| ==> rows[j].scheduleTaskId != task
    ensures CountParts(rows, task) == 0
  {
    if rows != [] {
      CountNone(rows[..|rows| - 1], task);
    }
  }

  predicate Taken(e: Event, planId: int, from: int, to: int) {
    e.planId == planId && from <= e.dateMs <= to
  }

  ghost predicate AllTaken(es: seq<Event>, planId: int, from: int, to: int, task: int) {
    forall i :: 0 <= i < |es| && es[i].scheduleTaskId == task ==> Taken(es[i], planId, from, to)
  }

  ghost predicate NoneTaken(es: seq<Event>, planId: int, from: int, to: int, task: int) {
    forall i :: 0 <= i < |es| && es[i].scheduleTaskId == task ==> !Taken(es[i], planId, from, to)
  }

  lemma CountLast(rows: seq<Event>, e: Event, task: int)
    ensures CountParts(rows + [e], task) == CountParts(rows, task) + (if e.scheduleTaskId == task then 1 else 0)
  {
    assert (rows + [e])[..|rows|] == rows;
  }

  lemma AllTakenLast(es: seq<Event>, e: Event, planId: int, from: int, to: int, task: int)
    ensures AllTaken(es + [e], planId, from, to, task) <==>
            AllTaken(es, planId, from, to, task) && (e.scheduleTaskId == task ==> Taken(e, planId, from, to))
  {
    var more := es + [e];
    assert more[|es|] == e && forall i :: 0 <= i < |es| ==> more[i] == es[i];
  }

  /** A range read takes all parts of a task if and only if it takes as many as there are. */
  lemma {:induction false} TakenCount(es: seq<Event>, planId: int, from: int, to: int, task: int)
    ensures var n, all := CountParts(EventsBetween(es, planId, from, to), task), CountParts(es, task);
            n <= all && (n == all <==> AllTaken(es, planId, from, to, task))
  {
    if es != [] {
      var rest, last := es[..|es| - 1], es[|es| - 1];
      var taken := EventsBetween(rest, planId, from, to);
      assert es == rest + [last];
      TakenCount(rest, planId, from, to, task);
      AllTakenLast(rest, last, planId, from, to, task);
      CountLast(rest, last, task);
      CountLast(taken, last, task);
      assert EventsBetween(es, planId, from, to) == if Taken(last, planId, from, to) then taken + [last] else taken;
    }
  }

  ghost function IndexIn(rows: seq<Event>, e: Event): (i: int)
    ensures e in rows ==> 0 <= i < |rows| && rows[i] == e
  {
    if rows == [] then -1
    else if rows[|rows| - 1] == e then |rows| - 1
    else IndexIn(rows[..|rows| - 1], e)
  }

  /** Where each row of one list is in another. */
  ghost function Finder(a: seq<Event>, b: seq<Event>): int -> int {
    (i: int) => if 0 <= i < |a| then IndexIn(b, a[i]) else -1
  }

  lemma TakenRowFound(es: seq<Event>, source: seq<Event>, i: nat)
    requires DistinctEventIds(source) && (forall e :: e in source ==> e in es) && i < |source|
    ensures var k := IndexIn(es, source[i]);
            0 <= k < |es| && es[k] == source[i] && IndexIn(source, es[k]) == i
  {
    assert source[i] in es;
    var back := IndexIn(source, source[i]);
    assert source[back].id == source[i].id;
  }

  lemma AllTakenCorresponds(es: seq<Event>, source: seq<Event>, task: int)
    requires DistinctEventIds(source) && (forall e :: e in source ==> e in es)
    requires forall j :: 0 <= j < |es| && es[j].scheduleTaskId == task ==> es[j] in source
    ensures Corresponds(source, task, es, task, Finder(source, es), Finder(es, source))
  {
    forall i | 0 <= i < |source|
      ensures var k := IndexIn(es, source[i]); 0 <= k < |es| && es[k] == source[i] && IndexIn(source, es[k]) == i
    {
      TakenRowFound(es, source, i);
    }
  }

  /** All parts taken: the range read has the same numbering. */
  lemma AllTakenIsNumbered(es: seq<Event>, planId: int, from: int, to: int, task: int)
    requires DistinctEventIds(es) && NumberedParts(es, task) && AllTaken(es, planId, from, to, task)
    ensures NumberedParts(EventsBetween(es, planId, from, to), task)
  {
    var source := EventsBetween(es, planId, from, to);
    TakenCount(es, planId, from, to, task);
    EventsBetweenDistinct(es, planId, from, to);
    AllTakenCorresponds(es, source, task);
    NumberingTransfers(source, task, es, task, Finder(source, es), Finder(es, source));
  }

  // ---------------------------------------------------------------- the clone's tasks and the old ones

  /** Rows of the copies that belong to a copied task are the copies of that task's rows. */
  lemma CopiesOfTask(src: seq<ScheduleTask>, clones: seq<ScheduleTask>, source: seq<Event>, eventClones: seq<Event>,
                     newPlanId: int, i: nat)
    requires Isomorphic(src, clones, source, eventClones, newPlanId) && DistinctIds(src) && i < |src|
    ensures forall j :: 0 <= j < |source| ==>
              (eventClones[j].scheduleTaskId == clones[i].id <==> source[j].scheduleTaskId == src[i].id)
  {
    forall j | 0 <= j < |source|
      ensures eventClones[j].scheduleTaskId == clones[i].id <==> source[j].scheduleTaskId == src[i].id
    {
      assert RenamedTogether(src, clones, source[j].scheduleTaskId, eventClones[j].scheduleTaskId);
      var k :| 0 <= k < |src| && src[k].id == source[j].scheduleTaskId && clones[k].id == eventClones[j].scheduleTaskId;
    }
  }

  /** The rows of the new task are the copies of the old task's rows, and there are no others. */
  ghost predicate CopiedFor(es: seq<Event>, source: seq<Event>, eventClones: seq<Event>, task: int, newTask: int) {
    && |eventClones| == |source|
    && (forall j :: 0 <= j < |source| ==>
          SamePart(eventClones[j], source[j])
          && (eventClones[j].scheduleTaskId == newTask <==> source[j].scheduleTaskId == task))
    && (forall k :: 0 <= k < |es| ==> es[k].scheduleTaskId != newTask)
  }

  lemma CopyIsNumberedAsSource(es: seq<Event>, source: seq<Event>, eventClones: seq<Event>, task: int, newTask: int)
    requires CopiedFor(es, source, eventClones, task, newTask)
    ensures CountParts(es + eventClones, newTask) == CountParts(source, task)
    ensures NumberedParts(source, task) ==> NumberedParts(es + eventClones, newTask)
  {
    CountConcat(es, eventClones, newTask);
    CountNone(es, newTask);
    CountMatches(eventClones, newTask, source, task);
    if NumberedParts(source, task) {
      ShiftCorresponds(es, source, eventClones, task, newTask);
      NumberingTransfers(es + eventClones, newTask, source, task, Shift(-|es|), Shift(|es|));
    }
  }

  ghost function Shift(offset: int): int -> int { (i: int) => i + offset }

  lemma ShiftCorresponds(es: seq<Event>, source: seq<Event>, eventClones: seq<Event>, task: int, newTask: int)
    requires CopiedFor(es, source, eventClones, task, newTask)
    ensures Corresponds(es + eventClones, newTask, source, task, Shift(-|es|), Shift(|es|))
  {
  }

  /** Some parts taken and some not: the copies name a total that is too high. */
  lemma PartlyTakenIsWrong(es: seq<Event>, source: seq<Event>, eventClones: seq<Event>, task: int, newTask: int,
                           e: Event)
    requires CopiedFor(es, source, eventClones, task, newTask) && e in source && e.scheduleTaskId == task
    requires e.totalParts != CountParts(source, task)
    ensures !NumberedParts(es + eventClones, newTask)
  {
    CopyIsNumberedAsSource(es, source, eventClones, task, newTask);
    var j :| 0 <= j < |source| && source[j] == e;
    WrongTotal(es, eventClones, j, newTask, e.totalParts);
  }

  /** A copied task is well numbered if and only if the range took all of its parts or none. */
  lemma CopiedTaskNumberedIff(es: seq<Event>, planId: int, from: int, to: int, eventClones: seq<Event>, task: int,
                              newTask: int)
    requires DistinctEventIds(es) && NumberedParts(es, task)
    requires CopiedFor(es, EventsBetween(es, planId, from, to), eventClones, task, newTask)
    ensures NumberedParts(es + eventClones, newTask) <==>
            AllTaken(es, planId, from, to, task) || NoneTaken(es, planId, from, to, task)
  {
    var source := EventsBetween(es, planId, from, to);
    TakenCount(es, planId, from, to, task);
    if AllTaken(es, planId, from, to, task) {
      AllTakenIsNumbered(es, planId, from, to, task);
      CopyIsNumberedAsSource(es, source, eventClones, task, newTask);
    } else if NoneTaken(es, planId, from, to, task) {
      NothingNumbered(source, es, planId, from, to, task);
      CopyIsNumberedAsSource(es, source, eventClones, task, newTask);
    } else {
      var k :| 0 <= k < |es| && es[k].scheduleTaskId == task && Taken(es[k], planId, from, to);
      PartlyTakenIsWrong(es, source, eventClones, task, newTask, es[k]);
    }
  }

  lemma WrongTotal(es: seq<Event>, eventClones: seq<Event>, j: nat, newTask: int, total: int)
    requires j < |eventClones| && eventClones[j].scheduleTaskId == newTask && eventClones[j].totalParts == total
    requires CountParts(es + eventClones, newTask) != total
    ensures !NumberedParts(es + eventClones, newTask)
  {
    assert (es + eventClones)[|es| + j] == eventClones[j];
  }

  lemma NothingNumbered(source: seq<Event>, es: seq<Event>, planId: int, from: int, to: int, task: int)
    requires source == EventsBetween(es, planId, from, to) && NoneTaken(es, planId, from, to, task)
    ensures NumberedParts(source, task)
  {
    forall j | 0 <= j < |source|
      ensures source[j].scheduleTaskId != task
    {
      assert source[j] in es;
      var k :| 0 <= k < |es| && es[k] == source[j];
    }
    CountNone(source, task);
  }

  /** Old tasks keep their rows, so they keep their numbering. */
  lemma OldTaskKeepsNumbering(es: seq<Event>, eventClones: seq<Event>, task: int)
    requires NumberedParts(es, task) && forall j :: 0 <= j < |eventClones| ==> eventClones[j].scheduleTaskId != task
    ensures NumberedParts(es + eventClones, task)
  {
    CountConcat(es, eventClones, task);
    CountNone(eventClones, task);
    var same := (i: int) => i;
    assert Corresponds(es + eventClones, task, es, task, same, same);
    NumberingTransfers(es + eventClones, task, es, task, same, same);
  }

  ghost predicate Whole(t: Tables, planId: int, from: int, to: int, task: int) {
    AllTaken(t.events, planId, from, to, task) || NoneTaken(t.events, planId, from, to, task)
  }

  lemma ClonedTaskNumberedIff(t: Tables, clones: seq<ScheduleTask>, eventClones: seq<Event>, planId: int, from: int,
                              to: int, i: nat)
    requires t.Keyed() && t.Sound() && WellNumbered(t.events) && i < |TasksOf(t.tasks, planId)|
    requires Isomorphic(TasksOf(t.tasks, planId), clones, EventsBetween(t.events, planId, from, to), eventClones,
                        t.nextPlanId)
    requires clones[i].id >= t.nextTaskId
    ensures NumberedParts(t.events + eventClones, clones[i].id)
            <==> Whole(t, planId, from, to, TasksOf(t.tasks, planId)[i].id)
  {
    var src, source := TasksOf(t.tasks, planId), EventsBetween(t.events, planId, from, to);
    TasksOfDistinct(t.tasks, planId);
    CopiesOfTask(src, clones, source, eventClones, t.nextPlanId, i);
    OldEventsHaveOldTasks(t, clones[i].id);
    assert NumberedParts(t.events, src[i].id);
    CopiedTaskNumberedIff(t.events, planId, from, to, eventClones, src[i].id, clones[i].id);
  }

  lemma NumberedIffWhole(t: Tables, planId: int, from: int, to: int, src: seq<ScheduleTask>, clones: seq<ScheduleTask>,
                         es: seq<Event>)
    requires |src| == |clones|
    requires forall i :: 0 <= i < |src| ==> (NumberedParts(es, clones[i].id) <==> Whole(t, planId, from, to, src[i].id))
    requires WellNumbered(es) <==> forall i :: 0 <= i < |clones| ==> NumberedParts(es, clones[i].id)
    ensures WellNumbered(es) <==> forall s :: s in src ==> Whole(t, planId, from, to, s.id)
  {
    if forall s :: s in src ==> Whole(t, planId, from, to, s.id) {
      forall i | 0 <= i < |clones|
        ensures NumberedParts(es, clones[i].id)
      {
        assert src[i] in src;
      }
    }
    if WellNumbered(es) {
      forall s | s in src
        ensures Whole(t, planId, from, to, s.id)
      {
        var i :| 0 <= i < |src| && src[i] == s;
        assert NumberedParts(es, clones[i].id);
      }
    }
  }

  lemma NumberedUnlessCloned(t: Tables, clones: seq<ScheduleTask>, eventClones: seq<Event>, planId: int, from: int,
                             to: int)
    requires WellNumbered(t.events)
    requires Isomorphic(TasksOf(t.tasks, planId), clones, EventsBetween(t.events, planId, from, to), eventClones,
                        t.nextPlanId)
    ensures WellNumbered(t.events + eventClones) <==>
            forall i :: 0 <= i < |clones| ==> NumberedParts(t.events + eventClones, clones[i].id)
  {
    var es' := t.events + eventClones;
    forall task | forall i :: 0 <= i < |clones| ==> clones[i].id != task
      ensures NumberedParts(es', task)
    {
      UnclonedTaskNumbered(t, clones, eventClones, planId, from, to, task);
    }
    NumberedByClones(es', clones);
  }

  lemma UnclonedTaskNumbered(t: Tables, clones: seq<ScheduleTask>, eventClones: seq<Event>, planId: int, from: int,
                             to: int, task: int)
    requires WellNumbered(t.events)
    requires Isomorphic(TasksOf(t.tasks, planId), clones, EventsBetween(t.events, planId, from, to), eventClones,
                        t.nextPlanId)
    requires forall i :: 0 <= i < |clones| ==> clones[i].id != task
    ensures NumberedParts(t.events + eventClones, task)
  {
    CopiesHaveNewTasks(TasksOf(t.tasks, planId), clones, EventsBetween(t.events, planId, from, to), eventClones,
                       t.nextPlanId, task);
    assert NumberedParts(t.events, task);
    OldTaskKeepsNumbering(t.events, eventClones, task);
  }

  lemma NumberedByClones(es: seq<Event>, clones: seq<ScheduleTask>)
    requires forall task :: (forall i :: 0 <= i < |clones| ==> clones[i].id != task) ==> NumberedParts(es, task)
    ensures WellNumbered(es) <==> forall i :: 0 <= i < |clones| ==> NumberedParts(es, clones[i].id)
  {
    if forall i :: 0 <= i < |clones| ==> NumberedParts(es, clones[i].id) {
      forall task
        ensures NumberedParts(es, task)
      {
        if i :| 0 <= i < |clones| && clones[i].id == task {
          assert NumberedParts(es, clones[i].id);
        }
      }
    }
  }

  /** Cloning a plan keeps the part numbering consistent if and only if the date range takes, of each of the plan's
      tasks, all parts or none. */
  lemma CloneKeepsNumberingIff(t: Tables, t': Tables, planId: int, from: int, to: int, mapping: map<int, int>)
    requires t.Keyed() && t.Sound() && WellNumbered(t.events) && CopiedPlan(t, t', planId, from, to, mapping)
    ensures WellNumbered(t'.events) <==> forall s :: s in TasksOf(t.tasks, planId) ==> Whole(t, planId, from, to, s.id)
  {
    var src, clones, eventClones := TasksOf(t.tasks, planId), t'.tasks[|t.tasks|..], t'.events[|t.events|..];
    assert t'.events == t.events + eventClones;
    CopiesAreIsomorphic(t, t', planId, from, to, mapping);
    forall i | 0 <= i < |src|
      ensures NumberedParts(t'.events, clones[i].id) <==> Whole(t, planId, from, to, src[i].id)
    {
      ClonedTaskNumberedIff(t, clones, eventClones, planId, from, to, i);
    }
    NumberedUnlessCloned(t, clones, eventClones, planId, from, to);
    NumberedIffWhole(t, planId, from, to, src, clones, t'.events);
  }

  lemma OldEventsHaveOldTasks(t: Tables, newTask: int)
    requires t.Keyed() && t.Sound() && newTask >= t.nextTaskId
    ensures forall k :: 0 <= k < |t.events| ==> t.events[k].scheduleTaskId != newTask
  {
    forall k | 0 <= k < |t.events|
      ensures t.events[k].scheduleTaskId != newTask
    {
      assert PointsIntoPlan(t.tasks, t.events[k]);
    }
  }

  lemma CopiesHaveNewTasks(src: seq<ScheduleTask>, clones: seq<ScheduleTask>, source: seq<Event>,
                           eventClones: seq<Event>,
                           newPlanId: int, task: int)
    requires Isomorphic(src, clones, source, eventClones, newPlanId)
    requires forall i :: 0 <= i < |src| ==> clones[i].id != task
    ensures forall j :: 0 <= j < |eventClones| ==> eventClones[j].scheduleTaskId != task
  {
    forall j | 0 <= j < |eventClones|
      ensures eventClones[j].scheduleTaskId != task
    {
      assert RenamedTogether(src, clones, source[j].scheduleTaskId, eventClones[j].scheduleTaskId);
    }
  }
}
