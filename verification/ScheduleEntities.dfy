/** Rows of the scheduling database that several services share. */
module ScheduleEntities {

  datatype Option<+T> = None | Some(value: T)

  /** A plan's copy of a task. `details` stands for the columns that are only copied. */
  datatype ScheduleTask = ScheduleTask(id: int, planId: int, taskId: int, details: string)

  datatype EventStatus = Planned | Done | Skipped

  /** `measured` stands for the utility score and the actual times, which this model only carries along. */
  datatype Event = Event(
    id: int, planId: int, scheduleTaskId: int,
    dateMs: int, startMin: int, endMin: int,
    partIndex: int, totalParts: int,
    linkedEventId: Option<int>,
    status: EventStatus, isPinned: bool,
    title: string, measured: Option<string>)
  {
    function Duration(): int { endMin - startMin }

    predicate Covers(date: int, minute: int) { dateMs == date && startMin <= minute < endMin }

    predicate CanBeModified() { status == Planned }
  }

  ghost predicate DistinctEventIds(es: seq<Event>) {
    forall i, j :: 0 <= i < j < |es| ==> es[i].id != es[j].id
  }
}
