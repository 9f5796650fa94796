# Verified models of the SERP services

Dafny models of the algorithms and protocols in the SERP back end, with proofs of what they promise. One command checks
everything: `dafny verify dfyconfig.toml`.

| files | what they model |
|---|---|
| `DependencyGraph`, `TaskDependencyService` | the depth-first search that guards task dependencies, and the stored graph over every run |
| `RedisKeys`, `WindowArithmetic`, `RateLimiter` | the gateway's sliding-window limiter over two expiring counters |
| `SetFacts`, `TimeUnits`, `WindowCoverage`, `ScheduleWindowService`, `WindowGeneration` | expanding a weekly calendar over days and cutting exceptions out of it |
| `Iteration`, `MessageProtocol`, `NotificationConsumer` | Kafka consumption with idempotency, retries and a dead-letter topic, as a step relation and as the consumer that follows it |
| `Subsequences`, `WebSocketHub` | the hub of live connections: two indexes over shared clients, bounded buffers, fan-out |
| `ScheduleEntities`, `PlanCloning`, `EventSplitting`, `ClonedParts` | copying a plan under renamed ids; splitting events and numbering their parts; what a copy does to the numbering |
| `CalendarSlots`, `CalendarStores`, `BatchSafety`, `CalendarService`, `ExceptionUpdates`, `CalendarRuns` | availability, exception and event tables that must stay free of overlap, what requests can do to them, and the windows generated from what is left |
| `TaskForest`, `TaskTree` | a flat task list turned into a tree of linked objects |
| `CircuitBreaker` | the gateway's circuit breaker with concurrent callers |

How the models are cut:

- Objects the services update in place are classes: the search state, the limiter, the consumer, clients and hub, the
  tables, tasks, the breaker. Database tables are sequences or maps in fields, Redis is a map of counters with expiry,
  a topic partition is a sequence. A failing port call is a parameter, and a transaction that fails leaves no trace.
- Clock readings are parameters and do not decrease. Durations and shares are integers and exact rationals.
- Runs are sequential, except for the circuit breaker and the message protocol, whose steps interleave freely.
- Availability, exceptions and events share one slot table with a `Kind`, because their services repeat the same
  validation and save code; the kinds differ in overlap formula, rows compared, and what an update writes.

What the proofs brought to light, each as a theorem with the exact condition:

- Removing a dependency clears a flag that reads do not look at, so a removed edge still blocks its reverse
  (`RemovedEdgeStillBlocks`); the guard is right about the active edges if and only if active edges bypass every removed
  one (`GuardExactIff`). The table model in `ptm_task/src/infrastructure/store/model` declares no such column as the
  statement names, so on the real table the statement may instead fail; that is the write failure of
  `RemoveDependency`. A task lookup of a missing row returns no task and no error, and the caller dereferences it:
  outcome `Panicked`.
- The limiter admits up to `L + ceil(L e / w)` requests in the `w` seconds that end `e` seconds into a window, and for
  every limit and window size this is attained; the limit itself holds only for `e = 0` and `e = w - 1`
  (`SlidingBound`, `SlidingBoundAttained`, `LimitHoldsIff`).
- An exception that ends before it starts makes the window cut offer minutes twice (`OnceIffHarmless`, and over all
  windows and all orders of the unstable sort `EveryOrderCalendarIff`). The save use case stores one: an update skips a
  start of 0 and the old start stays (`MergedRowValidIff`, `UpdatedExceptionCutsExactlyIff`, with the input in
  `AcceptedUpdateOffersTwice`). Its callers do not reach it: the request bindings require a start and so refuse 0, and
  the exception routes are commented out. With starts written, no run leaves a row inside out and the windows are exact
  (`RunKeepsRowsProper`, `RunsOfferOnce`).
- Stored windows answer any range they touch, even one that runs past the days they were generated for, and a change of
  availability or exceptions does not renew them: right if and only if the stored days are still the calendar's and the
  days without a row promise nothing (`StoredAnswerIff`, `ChangedCalendarIff`, with inputs in `StoredRowsMissNextDay` and
  `StaleRowOffered`).
- For dates before 1970 the remainder that gives the weekday is negative, except on Sundays and the last four days
  (`WeekdayRightIff`).
- A message whose value is not JSON can be neither handled nor dead-lettered: the value is put into the dead-letter
  payload as raw JSON, and marshalling that payload fails. Its partition stays on that offset for good
  (`NotJsonIsNeverPassed`); consumption without faults completes if and only if there is no such message
  (`ConsumptionCompletesIff`).
- A message on a subscribed topic without handler is committed unseen (`UnhandledTopicIsSkipped`).
- Unregistering a client that is not connected lowers the connection count and registering one twice raises it twice:
  the count is right if and only if the two balance (`CountExactIff`; -1 in `UnregisterTwice`). `Stop` keeps the count.
- Links between parts of a split event are copied unrenamed by a plan clone (`NewPlanRows`), a clone of part of a task's
  parts breaks their numbering (`CloneKeepsNumberingIff`), and the id mapping is total only for TaskIDs unique in the
  plan (`MappingTotalIff`).
- Updates skip zero-valued columns, so in the save use case an availability update to Sunday (weekday 0) keeps the old
  weekday and can collide (`SundayUpdateCollides`). The request bindings refuse a weekday of 0 as missing, so callers
  cannot send one, and cannot give Sunday hours at all; what they can send keeps the availability table safe over every
  run (`RequestsKeepTable`). Dates are cut to midnight only when written, after validation, and requests may carry any
  time of day (`UnalignedDateCollides`, `RequestedBatchSafeIff`). Updates go by id alone, so the theorems speak of
  rows of any owner. Replacing a date range with items outside it can collide. `BatchSafeIff`, `BatchSaveSafeIff` and
  `ReplaceSafeIff` give the exact conditions for whole batches.
- The circuit breaker can leave Open in the moment of its latest failure, because a caller decides on a failure time it
  read before (`PromotionRace`, `PromoterHasWaitedIff`). With a limit below 1 it starts closed at a count it calls open
  (`ConsistentIffLimitPositive`).

## Model

| member | source | states |
|---|---|---|
| `DependencyGraph.AddKeepsAcyclicIff` | ptm_task/src/core/service/task_dependency_service.go:84-128 | adding an edge to an acyclic graph keeps it acyclic if and only if its target does not already lead to its source: the check made before an insertion is the right one |
| `DependencyGraph.OrderedIffAcyclic` | ptm_task/src/core/service/task_dependency_service.go:84-128 | a graph has a topological order, each task after all it depends on, if and only if it is acyclic |
| `TaskDependencyService.CycleSearch.Dfs` | ptm_task/src/core/service/task_dependency_service.go:88-120 | the recursive search terminates (unvisited tasks shrink); without a hit everything it entered is closed under dependencies, with a hit the target or a cycle is reachable |
| `TaskDependencyService.DetectCircularDependency` | ptm_task/src/core/service/task_dependency_service.go:84-128 | true if and only if the task is reachable from the dependency or some cycle is; false only if in addition nothing unreadable is; fails only on an unreadable task within reach |
| `TaskDependencyService.Blocking` | ptm_task/src/infrastructure/store/adapter/task_dependency_graph_adapter.go:80-90 | a read of a task returns exactly the targets of its stored edges, active or not |
| `TaskDependencyService.Service.ValidateDependency` | ptm_task/src/core/service/task_dependency_service.go:48-82 | each refusal is that of the first check that fails, in order: equal ids, unreadable task or target, missing or foreign task, missing or foreign target, completed target; behind them accepted if and only if nothing circular and nothing unreadable is reachable |
| `TaskDependencyService.Service.CreateDependency` | ptm_task/src/core/service/task_dependency_service.go:130-154 | accepted, and then exactly the new edge is stored, if and only if the tasks differ, are read, present and the user's, the target is open, the target does not lead back, nothing circular or unreadable is in reach and the write works; otherwise nothing changes and the first failing check names the refusal; is one step of a run |
| `TaskDependencyService.Service.RemoveDependency` | ptm_task/src/core/service/task_dependency_service.go:156-165 | the first failing check names the refusal and nothing changes; otherwise exactly the rows of the edge lose their flag; is one step of a run |
| `TaskDependencyService.RunsStayAcyclic` | ptm_task/src/core/service/task_dependency_service.go:48-165 | every run of creations and removals, with any port failures, keeps the stored graph and its active part acyclic and orderable |
| `TaskDependencyService.SearchIsReachability` | ptm_task/src/core/service/task_dependency_service.go:84-128 | on the graphs that runs produce the open-task test never decides: the answer is plain reachability |
| `TaskDependencyService.RemovalChangesNoAnswer` | ptm_task/src/infrastructure/store/adapter/task_dependency_graph_adapter.go:80-90 | reachability is the same before and after a removal, because reads ignore the flag |
| `TaskDependencyService.RemovalHidesEdge` | ptm_task/src/infrastructure/store/adapter/task_dependency_graph_adapter.go:189-199 | for whoever looks at the flag, a removal takes away exactly the rows of the edge |
| `TaskDependencyService.RemovedEdgeStillBlocks` | ptm_task/src/infrastructure/store/adapter/task_dependency_graph_adapter.go:189-199 | after creating and removing x -> y the reverse edge is refused although it closes no cycle among the active rows, for all x and y |
| `TaskDependencyService.GuardExactIff` | ptm_task/src/infrastructure/store/adapter/task_dependency_graph_adapter.go:80-90 | on an acyclic table the guard is exact for the active rows, whatever edge is asked for, if and only if every inactive row is bypassed by a path of active ones |
| `RedisKeys.RedisKeyInjective` | api_gateway/src/infrastructure/adapter/rate_limiter_adapter.go:44-45 | distinct (key, window size, start) triples never share a Redis key, whatever characters the key holds |
| `RateLimiter.TextStoreSimulates` | api_gateway/src/infrastructure/adapter/rate_limiter_adapter.go:47-70 | a store under textual keys behaves as the store of windows: same writes, same reads |
| `RateLimiter.TextNamesApart` | api_gateway/src/infrastructure/adapter/rate_limiter_adapter.go:44-45 | the textual keys of two windows are equal only for the same window |
| `RateLimiter.HitKeepsRefinement` | api_gateway/src/infrastructure/adapter/rate_limiter_adapter.go:47-70 | one check, whichever of its writes were applied, keeps the expiring store in agreement with the request log |
| `RateLimiter.CountsAgree` | api_gateway/src/infrastructure/adapter/rate_limiter_adapter.go:72-80 | both counts a check reads are the numbers of logged requests in the current and previous aligned window |
| `RateLimiter.WeightedExact` | api_gateway/src/infrastructure/adapter/rate_limiter_adapter.go:82-88 | the weighted count is floor(previous * (w - e) / w) + current |
| `RateLimiter.Decide` | api_gateway/src/infrastructure/adapter/rate_limiter_adapter.go:82-104 | allowed if and only if the weighted count is within the limit; never denied when both windows together hold at most the limit; reset time is the next window boundary |
| `RateLimiter.RateLimiterAdapter.CheckRateLimit` | api_gateway/src/infrastructure/adapter/rate_limiter_adapter.go:28-105 | answers exactly from the log counts, logs the request when the increment is applied, reports each error under its own condition; the counter of the current window expires two windows after its latest request and counters of other keys are not touched |
| `RateLimiter.RateLimiterAdapter.EvictExpired` | api_gateway/src/infrastructure/adapter/rate_limiter_adapter.go:47-52 | the server may drop expired counters at any time, exactly those go, and what checks read does not change |
| `RateLimiter.CounterLifetime` | api_gateway/src/infrastructure/adapter/rate_limiter_adapter.go:47-70 | a counter answers up to its expiry and reads as zero from then on |
| `RateLimiter.WindowBudget` | api_gateway/src/infrastructure/adapter/rate_limiter_adapter.go:39-104 | in one aligned window the allowed requests plus the weight still carried over stay within the limit |
| `RateLimiter.SlidingBound` | api_gateway/src/infrastructure/adapter/rate_limiter_adapter.go:39-104 | over every run with a non-decreasing clock the requests allowed in the w seconds ending e seconds into a window number at most L + ceil(L e / w) |
| `RateLimiter.SlidingBoundAttained` | api_gateway/src/infrastructure/adapter/rate_limiter_adapter.go:39-104 | the bound is attained for every limit, window size w and offset from 1 to w - 2: an ordered, decided log of any run lets exactly L + ceil(L e / w) requests through |
| `RateLimiter.LimitHoldsIff` | api_gateway/src/infrastructure/adapter/rate_limiter_adapter.go:39-104 | on every run at most L requests pass in the w seconds ending e seconds into a window if and only if e is 0 or w - 1 |
| `WindowArithmetic.WeightSplitExact` | api_gateway/src/infrastructure/adapter/rate_limiter_adapter.go:82-88 | the part of the previous count that the weight lets go is exactly ceil(previous e / w) |
| `ScheduleWindowService.ExpandAvailabilityToWindows` | ptm_schedule/src/core/service/schedule_window_service.go:107-139 | the day loop yields the specification list: each day of the range once, with the items of its weekday |
| `ScheduleWindowService.GroupByDayOfWeek` | ptm_schedule/src/core/service/schedule_window_service.go:111-114 | groups the items by weekday, in list order |
| `ScheduleWindowService.ExpandedCoverage` | ptm_schedule/src/core/service/schedule_window_service.go:118-136 | a minute of a day is covered as often as the weekday offers it if the day is in the range, otherwise never |
| `ScheduleWindowService.SubtractIntervalsFromWindow` | ptm_schedule/src/core/service/schedule_window_service.go:178-218 | for all start-sorted exceptions, overlapping, sticking out, empty or inverted, the pieces cover exactly the window minutes no exception covers; none is offered twice if and only if every inverted exception is harmless; lasting exceptions give the canonical form |
| `ScheduleWindowService.CutCovers` | ptm_schedule/src/core/service/schedule_window_service.go:178-218 | the cut covers a minute if and only if it is in the rest of the window and no exception covers it, whatever the exceptions |
| `ScheduleWindowService.OnceIffHarmless` | ptm_schedule/src/core/service/schedule_window_service.go:178-218 | no minute is offered twice if and only if each exception that ends before it starts lies outside the window or one listed before it ends no earlier |
| `ScheduleWindowService.AnyOrderOnceIff` | ptm_schedule/src/core/service/schedule_window_service.go:154-158 | in every order the unstable sort may produce no minute is offered twice, if and only if each inverted exception lies outside the window or an earlier-starting one ends no earlier |
| `ScheduleWindowService.OrderIrrelevant` | ptm_schedule/src/core/service/schedule_window_service.go:178-218 | exceptions that cover the same minutes leave the same minutes; where none is doubled the same counts, and for lasting exceptions the same pieces |
| `ScheduleWindowService.MinutesConservedIff` | ptm_schedule/src/core/service/schedule_window_service.go:178-218 | the pieces last exactly as long as the uncovered minutes of the window if and only if every inverted exception is harmless |
| `WindowCoverage.CanonicalUnique` | ptm_schedule/src/core/service/schedule_window_service.go:178-218 | the canonical form (non-empty, increasing, separated pieces) is determined by the minutes covered |
| `ScheduleWindowService.SubtractExceptions` | ptm_schedule/src/core/service/schedule_window_service.go:141-176 | grouping, sorting and cutting leave exactly the minutes no exception of the day covers; counted with multiplicity if and only if no window is doubled in part in the order the sort happened to give, and surely if the exceptions are harmless in any order |
| `ScheduleWindowService.EveryOrderExactIff` | ptm_schedule/src/core/service/schedule_window_service.go:141-176 | for all windows and exceptions: in every order the unstable sort may give to each day, what is left is exact with multiplicity, if and only if each inverted exception lies outside the windows of its day or an earlier-starting one ends no earlier |
| `ScheduleWindowService.GroupByDate` | ptm_schedule/src/core/service/schedule_window_service.go:149-153 | groups the exceptions by day, in list order |
| `ScheduleWindowService.SortLists` | ptm_schedule/src/core/service/schedule_window_service.go:154-158 | each day's list becomes a permutation of it sorted by start; which one, for equal starts, is left open as the library leaves it |
| `ScheduleWindowService.GenerateWindows` | ptm_schedule/src/core/service/schedule_window_service.go:73-74 | for all calendars and exceptions, and whatever order the sort gives, the pipeline offers exactly the minutes the calendar promises; each exactly as often if and only if no window is doubled in part in that order |
| `ScheduleWindowService.EveryOrderCalendarIff` | ptm_schedule/src/core/service/schedule_window_service.go:73-74 | the pipeline's answer is the calendar with multiplicity in every order of the sort if and only if the exceptions are harmless in any order |
| `ScheduleWindowService.NonEmptyDoublesNothing` | ptm_schedule/src/core/service/schedule_window_service.go:178-218 | exceptions that last are harmless in any order, so they never double a window |
| `ExceptionUpdates.UpdatedExceptionCutsExactlyIff` | ptm_schedule/src/infrastructure/store/adapter/calendar_exception_adapter.go:47-71 | a valid exception row updated by a valid item cuts a window exactly if and only if the new start is not the skipped 0, or the old start is not after the new end, or the row has turned inside out away from the window |
| `ExceptionUpdates.AcceptedUpdateOffersTwice` | ptm_schedule/src/core/usecase/calendar_exception_usecase.go:37-66 | on a table with the row [600,660) the batch holding [0,590) for that row passes the checks, is stored as [600,590), and makes the window [480,1320) offer minute 595 twice |
| `WindowGeneration.PromisedOnce` | ptm_schedule/src/core/service/schedule_window_service.go:107-218 | with a disjoint calendar a minute lies in exactly one window if its weekday offers it and no exception of the day covers it, and otherwise in none |
| `WindowGeneration.CalendarAdvances` | ptm_schedule/src/kernel/utils/convert_fields.go:94-105 | from any day start on, consecutive days have consecutive weekdays modulo 7 |
| `WindowGeneration.EpochDay` | ptm_schedule/src/kernel/utils/convert_fields.go:94-105 | day n after 1 January 1970 starts at n times 86400000 ms and has weekday (n + 4) mod 7, whatever the time of day |
| `WindowGeneration.WeekdayRightIff` | ptm_schedule/src/kernel/utils/convert_fields.go:101-105 | before 1970 the truncating remainder is the weekday if and only if the day is one of the last four before the epoch or a Sunday |
| `WindowGeneration.ExpandedOnDay` | ptm_schedule/src/core/service/schedule_window_service.go:107-139 | day n offers what weekday (n + 4) mod 7 offers if it is one of the days from that of the first to that of the last timestamp, otherwise nothing |
| `WindowGeneration.CalendarOnDay` | ptm_schedule/src/core/service/schedule_window_service.go:57-74 | an answer that is the calendar offers on day n what weekday (n + 4) mod 7 offers, except under an exception dated within that day |
| `WindowGeneration.WholeWeeksOfCalendar` | ptm_schedule/src/core/service/schedule_window_service.go:118-136 | any 7k days from a non-negative timestamp yield exactly k times the weekly minutes, whatever weekday comes first |
| `WindowGeneration.DefaultFullDayAvailability` | ptm_schedule/src/core/domain/entity/availability_calendar.go:52-64 | the default calendar is valid and disjoint and belongs to the user |
| `WindowGeneration.DefaultCalendarOffers` | ptm_schedule/src/core/domain/entity/availability_calendar.go:52-64 | every weekday offers the minutes from 8:00 to 22:00, each once, and no other |
| `WindowGeneration.AvailabilityRead` | ptm_schedule/src/core/service/schedule_window_service.go:57-60 | the read returns the user's availability rows, each as often as stored, and no others |
| `WindowGeneration.ExceptionsRead` | ptm_schedule/src/infrastructure/store/adapter/calendar_exception_adapter.go:28-37 | the read returns the user's exceptions of the range, each as often as stored, and no others |
| `WindowGeneration.WindowsRead` | ptm_schedule/src/core/service/schedule_window_service.go:49-55 | the read returns the user's windows of the range, each as often as stored, and no others |
| `WindowGeneration.ListedSuffices` | ptm_schedule/src/core/service/schedule_window_service.go:68-74 | reading only the exceptions of the range gives the same promise and the same exceptions on every day of the windows as all of the user's, because stored dates are day starts |
| `WindowGeneration.WindowService.GetOrCreateWindowsWithInfo` | ptm_schedule/src/core/service/schedule_window_service.go:44-89 | for all tables: stored rows are returned as they are, and then the answer is the calendar if and only if the stored days of the range are still right and the days without a row promise nothing; otherwise it offers exactly the promised minutes, each as often as promised if and only if no window is doubled; a repeated call returns the same rows; the default calendar is used if and only if the user has no availability row, and exactly windows of a configured calendar are stored |
| `WindowGeneration.StoredAnswerIff` | ptm_schedule/src/core/service/schedule_window_service.go:49-55 | on every table, fresh or stale, the stored rows of a range are the calendar if and only if the days of the range with a row still have the calendar's windows and those without promise nothing |
| `WindowGeneration.ChangedCalendarIff` | ptm_schedule/src/core/service/schedule_window_service.go:49-55 | after any change of availability or exceptions, rows stored under the old calendar answer the new one if and only if the two agree on every stored day of the range and the new one promises nothing on the others |
| `WindowGeneration.StaleRowOffered` | ptm_schedule/src/core/service/schedule_window_service.go:49-55 | hours were 8 to 22 when a day was stored and now start at 9: minute 8:00 is still offered |
| `WindowGeneration.StoredRowsMissNextDay` | ptm_schedule/src/core/service/schedule_window_service.go:49-55 | with one day of an 8-to-22 calendar stored, a request for that day and the next is answered from the stored row and misses a promised minute |
| `WindowGeneration.StoringKeepsDaysRight` | ptm_schedule/src/core/service/schedule_window_service.go:80-86 | storing a right answer keeps the stored days right, so the condition can be used again |
| `MessageProtocol.StepKeepsInv` | notification_service/src/ui/kafka/message_processing_middleware.go:38-145 | every port call, failure, commit and crash keeps: nothing below the marked offset unsettled, exact counts, dead-lettering only when deserved and never of a value that is not JSON |
| `MessageProtocol.NoMessageLost` | notification_service/src/ui/kafka/message_processing_middleware.go:38-145 | in every reachable state each message below the committed offset whose topic has a handler was handled, carried an event already handled, or is dead-lettered |
| `MessageProtocol.HandledExactly` | notification_service/src/ui/kafka/message_processing_middleware.go:60-112 | successes of an event equal its faults (failed mark, crash between success and mark) plus 1 if it is recorded |
| `MessageProtocol.DeadLetteredAfterThreeFailures` | notification_service/src/core/service/idempotency_service.go:83-109 | nothing with an event id is dead-lettered before three recorded failures, three being the number |
| `MessageProtocol.NotJsonIsNeverPassed` | notification_service/src/infrastructure/client/kafka_producer_adapter.go:55-72 | in every reachable state neither the committed offset nor the position has passed a message with a handler whose value is not JSON, because the dead-letter payload that embeds it cannot be marshalled |
| `MessageProtocol.UnhandledTopicIsSkipped` | notification_service/src/infrastructure/client/kafka_consumer.go:120-154 | a message whose topic has no handler is passed over and committed unsettled |
| `NotificationConsumer.Consumer.IsEventProcessed` | notification_service/src/core/service/idempotency_service.go:58-68 | answers membership in the processed store |
| `NotificationConsumer.Consumer.MarkEventProcessed` | notification_service/src/core/service/idempotency_service.go:70-81 | records the event, then drops its failure record, ignoring a failure of the second step |
| `NotificationConsumer.Consumer.RecordFailedEvent` | notification_service/src/core/service/idempotency_service.go:83-109 | creates or raises the failure count and asks for dead-lettering if and only if it is then at least 3 |
| `NotificationConsumer.Consumer.MarkEventSentToDlq` | notification_service/src/core/service/idempotency_service.go:111-119 | marks the failure record, failures ignored |
| `NotificationConsumer.Consumer.SendToDlq` | notification_service/src/ui/kafka/message_processing_middleware.go:116-145 | the message is in the dead-letter topic if and only if its value is JSON and the send worked |
| `NotificationConsumer.Consumer.DeadLetter` | notification_service/src/ui/kafka/message_processing_middleware.go:116-145 | the dead-letter path: fails if and only if the send does, which it always does for a value that is not JSON; the best-effort mark after exhausted retries |
| `NotificationConsumer.Consumer.HandleFailure` | notification_service/src/ui/kafka/message_processing_middleware.go:72-101 | the handler error path: record the failure, dead-letter when retries are used up, otherwise return the error |
| `NotificationConsumer.Consumer.WrapHandler` | notification_service/src/ui/kafka/message_processing_middleware.go:38-114 | the wrapped handler is exactly the protocol path parse, check, handle, record, dead-letter under each combination of failures; a value that is not JSON, one of another shape and one without an event id are three cases |
| `NotificationConsumer.Consumer.Receive` | notification_service/src/infrastructure/client/kafka_consumer.go:120-154 | takes the next message; one without a handler is marked and passed over |
| `NotificationConsumer.Consumer.HandleMessage` | notification_service/src/infrastructure/client/kafka_consumer.go:120-154 | marks and commits if and only if the wrapped handler returned without error |
| `NotificationConsumer.Consumer.ConsumeMessage` | notification_service/src/infrastructure/client/kafka_consumer.go:120-154 | one loop iteration is one delivery of the protocol: offsets move only after success or when no handler exists |
| `NotificationConsumer.Consumer.ConsumeClaim` | notification_service/src/infrastructure/client/kafka_consumer.go:120-154 | the claim is one delivery after the other, each in its own environment, stays on protocol runs from the start, and ends at the log end or at a handler error |
| `NotificationConsumer.Consumer.StartSession` | notification_service/src/infrastructure/client/kafka_consumer.go:62-86 | a new session starts at the committed offset and is a step of the protocol |
| `NotificationConsumer.DeliveryLeads` | notification_service/src/ui/kafka/message_processing_middleware.go:38-145 | every delivery of the consumer is a run of the protocol, so all run properties apply to it |
| `NotificationConsumer.WrappedOldMeans` | notification_service/src/ui/kafka/message_processing_middleware.go:38-68 | without an event the message is dead-lettered if its value is JSON and the send works, otherwise the error is returned; a failed look-up is returned; a known event succeeds with nothing changed |
| `NotificationConsumer.WrappedSuccessMeans` | notification_service/src/ui/kafka/message_processing_middleware.go:103-113 | a handled event is recorded and loses its failure record, each if its call works, and the handler succeeds either way |
| `NotificationConsumer.WrappedFailureMeans` | notification_service/src/ui/kafka/message_processing_middleware.go:72-101 | a failed event gets one more recorded failure; from the third on it is dead-lettered and marked, best effort, and the handler succeeds; otherwise, and when recording or sending fails, the error is returned |
| `NotificationConsumer.DeliveryMeans` | notification_service/src/infrastructure/client/kafka_consumer.go:120-154 | a message without handler is passed unseen; otherwise success passes the message and commits unless the commit fails, and an error ends the claim in place |
| `NotificationConsumer.DeliveryProgress` | notification_service/src/core/service/idempotency_service.go:70-109 | without port failures each delivery of a deliverable message commits it, passes it if it has no handler, or uses up one of its three attempts |
| `NotificationConsumer.ConsumptionTerminates` | notification_service/src/infrastructure/client/kafka_consumer.go:120-154 | without port failures and values that are not JSON, however handlers behave, at most three deliveries per message reach the end of the log with nothing handled uncommitted |
| `NotificationConsumer.UndeliverableBlocks` | notification_service/src/infrastructure/client/kafka_producer_adapter.go:55-72 | a message with a handler whose value is not JSON is never passed, after any number of deliveries and whatever the ports do |
| `NotificationConsumer.ConsumptionCompletesIff` | notification_service/src/infrastructure/client/kafka_consumer.go:120-154 | fault-free consumption completes the log, whatever the handlers do, if and only if every message from the committed offset on that has a handler is JSON |
| `WebSocketHub.Client.Subscribe` | notification_service/src/core/websocket/client.go:296-314 | adds exactly the named categories |
| `WebSocketHub.Client.Unsubscribe` | notification_service/src/core/websocket/client.go:316-334 | removes exactly the named categories |
| `WebSocketHub.Client.IsSubscribed` | notification_service/src/core/websocket/client.go:377-387 | a client without subscriptions is subscribed to everything, otherwise to the categories it named |
| `WebSocketHub.Client.Send` | notification_service/src/core/websocket/client.go:421-428 | on an open channel appends when there is room and reports full otherwise; the order kept by the client survives |
| `WebSocketHub.Client.SendDirect` | notification_service/src/core/websocket/client.go:259-282 | a frame a client sends to itself enters the buffer if there is room and leaves the order of hub messages alone |
| `WebSocketHub.Client.WriteFront` | notification_service/src/core/websocket/client.go:183-211 | the oldest buffered frame is the one written; a failed write loses it and ends the pump |
| `WebSocketHub.Client.Close` | notification_service/src/core/websocket/client.go:104-108 | the channel is closed, once |
| `WebSocketHub.Client.PumpBuffered` | notification_service/src/core/websocket/client.go:183-211 | all buffered frames before the first write that fails are written in order; that write loses its frame, leaves the rest and stops the pump; without one everything is written |
| `WebSocketHub.Client.WrittenInOrder` | notification_service/src/core/websocket/client.go:183-211 | the hub messages a client has written are an in-order subsequence of those meant for it |
| `Subsequences.SubsequenceHasPositions` | notification_service/src/core/websocket/client.go:183-211 | what in-order subsequence means: each element is found at increasing positions |
| `WebSocketHub.AddToIndex` | notification_service/src/core/websocket/hub.go:145-173 | an index stays exact: the members, each under its own id, no empty entry |
| `WebSocketHub.RemoveFromIndex` | notification_service/src/core/websocket/hub.go:175-205 | taking a client out keeps the index exact and drops an entry that becomes empty |
| `WebSocketHub.Hub.RegisterClient` | notification_service/src/core/websocket/hub.go:145-173 | both indexes gain the client, listed before or not, closed or not; count and peak follow; the appends that count as delivered grow by what a new client brings along, for a fresh one by nothing |
| `WebSocketHub.Hub.UnregisterClient` | notification_service/src/core/websocket/hub.go:175-205 | both indexes lose the client and its channel is closed if it was listed; the count falls even if it was not |
| `WebSocketHub.Hub.CountExactIff` | notification_service/src/core/websocket/hub.go:145-205 | the count is the number of clients registered and not yet unregistered if and only if strays and repeats balance; so, with no client registered twice, if and only if none was unregistered while not connected; the same for the listed clients, those taken out by a stop included |
| `WebSocketHub.UnregisterTwice` | notification_service/src/core/websocket/hub.go:175-205 | one client registered once and unregistered twice leaves the count at -1 |
| `WebSocketHub.Hub.Stop` | notification_service/src/core/websocket/hub.go:112-129 | every listed client is closed and both indexes are emptied; counters, buffers and what was written stay, so the order of hub messages survives a stop |
| `WebSocketHub.Hub.SendToUser` | notification_service/src/core/websocket/hub.go:218-241 | exactly the user's subscribed clients with room get the message, each once, and are counted |
| `WebSocketHub.SendEach` | notification_service/src/core/websocket/hub.go:227-240 | each client of the set is offered the message once if subscribed; the result counts the buffers that took it |
| `WebSocketHub.Hub.SendToTenant` | notification_service/src/core/websocket/hub.go:243-264 | the same for a tenant |
| `WebSocketHub.Hub.SendToAll` | notification_service/src/core/websocket/hub.go:266-277 | every client with room gets the message, categories ignored |
| `WebSocketHub.Hub.DispatchBroadcast` | notification_service/src/core/websocket/hub.go:207-216 | one dispatch appends the text once to the buffers below 256 frames of exactly the clients of the user or tenant that have no subscriptions or the named category, or of all clients, never to a closed channel; the delivered count grows by their number, and minus the number of appends to registered clients it stays what it was |
| `PlanCloning.OldIds` | ptm_schedule/src/core/service/schedule_task_service.go:273-276 | the first map holds the last source row of each TaskID and nothing else |
| `PlanCloning.IdMapping` | ptm_schedule/src/core/service/schedule_task_service.go:290-295 | the mapping sends the last source row of each TaskID to its clone and knows no other id |
| `PlanCloning.MappingTotalIff` | ptm_schedule/src/core/service/schedule_task_service.go:263-299 | the mapping knows every source task if and only if TaskIDs are unique in the plan |
| `PlanCloning.MappingIsBijection` | ptm_schedule/src/core/service/schedule_task_service.go:263-299 | with unique TaskIDs the mapping is a bijection from the source ids onto the clone ids that preserves the TaskID |
| `PlanCloning.PlanStore.CloneTasksForPlan` | ptm_schedule/src/core/service/schedule_task_service.go:263-299 | adds, under consecutive fresh ids and the new plan id, copies of exactly the plan's tasks with all other columns, TaskIDs unique or not, or nothing when the batch fails |
| `PlanCloning.PlanStore.CloneEventsForPlan` | ptm_schedule/src/core/service/schedule_event_service.go:347-363 | adds, under consecutive fresh ids, copies of the given events with the new plan and the task the mapping gives, or the old one if it gives none, and all other columns; nothing when the batch fails |
| `PlanCloning.EventsBetweenDistinct` | ptm_schedule/src/infrastructure/store/adapter/schedule_event_adapter.go:34-43 | the range read lists each event once, so each is cloned once |
| `PlanCloning.CopiesAreIsomorphic` | ptm_schedule/src/core/service/schedule_event_service.go:347-363 | with TaskIDs unique per plan and events pointing into their plan, every copied event points to the copy of its task |
| `PlanCloning.CloneKeepsSound` | ptm_schedule/src/core/usecase/optimization_usecase.go:153-193 | adding the copy keeps TaskIDs unique per plan and every event inside its plan |
| `PlanCloning.CopyKeepsKeys` | ptm_schedule/src/core/usecase/optimization_usecase.go:153-193 | whatever else the tables hold, the copy keeps ids distinct and below the next one |
| `PlanCloning.PlanStore.CreateProposedPlanWithClone` | ptm_schedule/src/core/usecase/optimization_usecase.go:153-193 | on all tables with distinct ids: fails if and only if a step that is reached fails, and then all rows are as they were; otherwise the new plan's rows are exactly the added ones and old rows unchanged; from sound tables the copy is isomorphic and the tables stay sound |
| `PlanCloning.PlanStore.DeleteSnapshot` | ptm_schedule/src/core/service/schedule_task_service.go:186-209 | removes the first copy of the task in the plan and exactly that copy's events, on all tables with distinct ids; sound tables stay sound |
| `PlanCloning.DeleteKeepsSound` | ptm_schedule/src/core/service/schedule_task_service.go:186-209 | deleting a task with its events keeps TaskIDs unique per plan and events inside their plan |
| `PlanCloning.NewPlanRows` | ptm_schedule/src/core/domain/entity/schedule_event.go:301-334 | no linked event of a new plan, be it a clone of a clone, has its link inside the plan: an event's link lies inside if and only if it has none |
| `PlanCloning.LinkStaysBehind` | ptm_schedule/src/core/domain/entity/schedule_event.go:301-334 | a link to an event that existed before leads out of any plan whose events are all new |
| `ClonedParts.CloneKeepsNumberingIff` | ptm_schedule/src/core/service/schedule_event_service.go:347-363 | cloning keeps the parts of every task numbered 1 to n, all naming n, if and only if the date range takes all parts or none of each of the plan's tasks |
| `EventSplitting.SplitKeepsNumbering` | ptm_schedule/src/core/service/schedule_event_service.go:286-332 | a split inside an event keeps parts numbered 1 to n, distinct, chronological, all naming n, for every task |
| `EventSplitting.OtherTaskUntouched` | ptm_schedule/src/infrastructure/store/adapter/schedule_event_adapter.go:142-154 | parts of other tasks keep every column and their numbering |
| `EventSplitting.SplitConservesCoverage` | ptm_schedule/src/core/domain/entity/schedule_event.go:245-282 | each minute of each day is covered by a task's parts exactly as often as before |
| `EventSplitting.CoveredIff` | ptm_schedule/src/core/domain/entity/schedule_event.go:166-168 | what covered means: a part of the task on the day starts no later than the minute and ends after it |
| `EventSplitting.SplitConservesMinutes` | ptm_schedule/src/core/domain/entity/schedule_event.go:245-282 | a task's total minutes do not change |
| `EventSplitting.RunKeepsNumberingAndTime` | ptm_schedule/src/core/service/schedule_event_service.go:286-332 | any run of splits, refused ones included, conserves each task's minutes and covered time on every table, and keeps a consistent numbering consistent |
| `EventSplitting.EventStore.IncrementPartIndexAfter` | ptm_schedule/src/infrastructure/store/adapter/schedule_event_adapter.go:142-147 | raises by one exactly the part numbers of the task above the given one |
| `EventSplitting.EventStore.UpdateTotalPartsForTask` | ptm_schedule/src/infrastructure/store/adapter/schedule_event_adapter.go:149-154 | sets the total on every part of the task and nowhere else |
| `EventSplitting.EventStore.SplitEvent` | ptm_schedule/src/core/service/schedule_event_service.go:286-332 | on all tables with distinct ids: split if and only if the event exists, is planned, both sides of the point have the minimum length (30 unless a positive one is asked for) and the store works; each refusal under its own condition and without change; then the rows column by column, both halves linked, later parts moved up, the total on all parts of the task |
| `EventSplitting.EventStore.GetById` | ptm_schedule/src/core/service/schedule_event_service.go:68-77 | finds the event by id or reports that there is none |
| `CalendarSlots.OverlapMeansSharedMinute` | ptm_schedule/src/core/domain/entity/schedule_event.go:159-164 | for valid slots each overlap formula means a shared minute of the same owner and day |
| `CalendarSlots.MergedRowValidIff` | ptm_schedule/src/infrastructure/store/adapter/availability_calendar_adapter.go:47-69 | an update of a valid row by a valid item leaves it valid if and only if the start is not a skipped 0 or the old start is before the new end, and a date is not the first day of the epoch |
| `CalendarSlots.UnnamedRowsStay` | ptm_schedule/src/infrastructure/store/adapter/calendar_exception_adapter.go:47-71 | a batch of updates changes no row it does not name and adds none |
| `CalendarSlots.LastUpdateWins` | ptm_schedule/src/infrastructure/store/adapter/calendar_exception_adapter.go:47-71 | the last update of a row decides it, zero columns kept from what the earlier ones left |
| `CalendarSlots.CreatedRows` | ptm_schedule/src/infrastructure/store/adapter/calendar_exception_adapter.go:39-45 | a batch insert keeps every row and adds exactly the items, under consecutive fresh ids |
| `CalendarSlots.SaveKeepsOverlapFree` | ptm_schedule/src/core/usecase/availability_calendar_usecase.go:32-63 | an accepted batch of creates and in-place updates, repeated ones and updates of other owners' rows included, keeps the table free of overlap when each row ends up on the day that was validated last |
| `BatchSafety.BatchSaveSafeIff` | ptm_schedule/src/core/usecase/calendar_exception_usecase.go:37-66 | a batch that updates no row twice is safe on every table that accepts it, whoever owns the rows it names, if and only if the day of each item is written as validated: no update to weekday 0, dates at midnight; the tables of proper rows decide that already |
| `BatchSafety.BatchSafeIff` | ptm_schedule/src/core/usecase/calendar_exception_usecase.go:37-66 | any batch, repeated updates included, is safe on every table of proper rows that accepts it if and only if the rows it may end up with are apart from each other and whatever they overlap overlaps one of its items |
| `BatchSafety.WrittenIsSafe` | ptm_schedule/src/core/usecase/availability_calendar_usecase.go:32-63 | on every table it is enough that the day of each new item and of the last update of each row is written as validated |
| `BatchSafety.RepeatedUpdateShields` | ptm_schedule/src/core/usecase/calendar_exception_usecase.go:37-66 | that is not needed: a batch whose repeated update shields an unaligned item is safe on every table of proper rows |
| `CalendarStores.SundayRowMayBeUpdated` | ptm_schedule/src/infrastructure/store/adapter/availability_calendar_adapter.go:47-69 | an update to weekday 0 is safe when the row is on weekday 0 already |
| `BatchSafety.SundayUpdateCollides` | ptm_schedule/src/infrastructure/store/adapter/availability_calendar_adapter.go:47-69 | for every valid update to weekday 0 that is more than the first minute, a table of the owner's proper rows that accepts it and ends up overlapping |
| `BatchSafety.UnalignedDateCollides` | ptm_schedule/src/core/service/calendar_exception_service.go:57-90 | for every item whose date has a time of day, a table of the owner's proper rows that accepts it and ends up overlapping |
| `CalendarStores.ReplaceWeekKeepsOverlapFree` | ptm_schedule/src/core/usecase/availability_calendar_usecase.go:65-94 | replacing the rows of the weekdays named by the items is always safe |
| `CalendarStores.ReplaceSafeIff` | ptm_schedule/src/core/usecase/calendar_exception_usecase.go:68-89 | replacing a date range is safe on every table if and only if the items lie in the range and stay apart once cut to midnight |
| `CalendarStores.MoveKeepsOverlapFree` | ptm_schedule/src/core/service/schedule_event_service.go:216-244 | a move that reports no conflicts keeps the plan free of overlap |
| `CalendarStores.ConflictReportExact` | ptm_schedule/src/core/service/schedule_event_service.go:171-190 | for every requested start, after a move the plan is free of overlap if and only if the interval really written is empty or the report for it names no proper event |
| `CalendarStores.RunKeepsOverlapFree` | ptm_schedule/src/core/usecase/availability_calendar_usecase.go:32-94 | every run of saves, replacements, deletions and moves under these conditions keeps each kind of table free of overlap |
| `CalendarRuns.RunKeepsRowsProper` | ptm_schedule/src/infrastructure/store/adapter/availability_calendar_adapter.go:47-69 | every run of operations whose updates carry a start other than 0 leaves no row inside out, in all three tables, whatever else goes wrong |
| `CalendarRuns.RequestsKeepTable` | ptm_schedule/src/core/domain/dto/request/availability_calendar_request.go:11-24 | every run of requests the bindings let through keeps the availability table free of overlap and its rows proper; the dated tables too, when dates are midnights, replaced ranges hold their items and moves report no conflict |
| `CalendarRuns.RequestedBatchSafeIff` | ptm_schedule/src/core/domain/dto/request/calendar_exception_request.go:9-18 | for a batch the bindings let through, safety turns on the dates alone: safe on every table of proper rows if and only if it is for the availability table or all its dates are midnights |
| `CalendarRuns.WindowsOfTables` | ptm_schedule/src/core/service/schedule_window_service.go:57-74 | from an availability table free of overlap and an exception table of proper rows, whatever order rows are read and sorted in, a minute is offered once if a row of its weekday takes it and no exception row of its day does, and otherwise never |
| `CalendarRuns.RunsOfferOnce` | ptm_schedule/src/core/service/schedule_window_service.go:57-74 | that holds after every careful run on the availability table and every run on the exception table that writes its starts |
| `CalendarRuns.RequestsAreCareful` | ptm_schedule/src/core/domain/dto/request/availability_calendar_request.go:11-24 | every run of availability requests the bindings let through is such a careful run |
| `CalendarService.CalendarStore.ValidateItems` | ptm_schedule/src/core/service/availability_calendar_service.go:36-55 | true if and only if every item is the owner's and valid and no two overlap |
| `CalendarService.CalendarStore.DateRange` | ptm_schedule/src/core/service/calendar_exception_service.go:62-71 | the loop finds the least and the greatest date of the batch |
| `CalendarService.CalendarStore.ValidateNoOverlapWithExisting` | ptm_schedule/src/core/service/calendar_exception_service.go:57-90 | true if and only if no item overlaps a row it is compared with, the row it will overwrite aside |
| `CalendarService.CalendarStore.List` | ptm_schedule/src/infrastructure/store/adapter/calendar_exception_adapter.go:28-37 | returns exactly the owner's rows, for dated tables those between the two days |
| `CalendarService.CalendarStore.CreateBatch` | ptm_schedule/src/infrastructure/store/adapter/availability_calendar_adapter.go:39-45 | stores each item under the next id, dates cut to midnight |
| `CalendarService.CalendarStore.UpdateBatch` | ptm_schedule/src/infrastructure/store/adapter/calendar_exception_adapter.go:47-71 | updates in order by id alone, skipping zero columns and unknown ids |
| `CalendarService.CalendarStore.SaveItems` | ptm_schedule/src/core/usecase/schedule_event_usecase.go:61-122 | saved if and only if the items are proper, nothing is in the way and nothing else fails; then the rows are those of the batch, column by column, otherwise unchanged |
| `CalendarService.CalendarStore.Partition` | ptm_schedule/src/core/usecase/availability_calendar_usecase.go:42-49 | splits the batch into creates and updates, in list order |
| `CalendarStores.ItemsValidIff` | ptm_schedule/src/core/service/availability_calendar_service.go:36-55 | the validation passes if and only if every item is the owner's, lies within 0 and 1440, has a weekday 0 to 6 or a positive date, and no two of a day meet |
| `CalendarStores.ClearOfExistingIff` | ptm_schedule/src/core/service/calendar_exception_service.go:57-90 | the comparison passes if and only if no item meets a row of its owner on its own day, other than the row it overwrites, dated rows counting within the days of the batch |
| `CalendarStores.BatchIsSaved` | ptm_schedule/src/infrastructure/store/adapter/calendar_exception_adapter.go:39-71 | after a save unnamed rows are as they were, each new item is a row of its own, and the last item that names a row has written its non-zero columns |
| `CalendarService.CalendarStore.ReplaceAvailabilityForUser` | ptm_schedule/src/core/usecase/availability_calendar_usecase.go:65-94 | row by row: a row goes if and only if it is the user's and an item names its weekday, each item is one new row, all others stay; refused and unchanged otherwise |
| `CalendarService.CalendarStore.ReplaceExceptions` | ptm_schedule/src/core/usecase/calendar_exception_usecase.go:68-89 | row by row: a row goes if and only if it is the user's and its day is in the range, each item is one new row at the start of its day, all others stay; refused and unchanged for an inverted range or improper items |
| `CalendarService.CalendarStore.DeleteExceptions` | ptm_schedule/src/core/usecase/calendar_exception_usecase.go:91-98 | exactly the user's rows of the days of the range go, all others stay as they are |
| `CalendarService.CalendarStore.FindConflictingEvents` | ptm_schedule/src/core/service/schedule_event_service.go:171-190 | returns exactly the plan's other events of the day that the interval meets |
| `CalendarService.CalendarStore.MoveAndPinEvent` | ptm_schedule/src/core/service/schedule_event_service.go:216-244 | the first failing check names the refusal; otherwise the day, the end and, unless 0, the start are written, and exactly the plan's other events of the new day that meet the requested interval are reported; freedom of overlap is kept when none is |
| `TaskTree.Index` | ptm_task/src/core/service/task_service.go:285-289 | first pass: sub-tasks emptied, each id maps to the last task that has it |
| `TaskTree.Attach` | ptm_task/src/core/service/task_service.go:291-298 | appends one task to its listed parent and changes no other task |
| `TaskTree.Link` | ptm_task/src/core/service/task_service.go:290-301 | second pass: each task is appended to the task its parent id maps to, in list order; the root is found on the way |
| `TaskTree.GetTaskTreeByTaskID` | ptm_task/src/core/service/task_service.go:277-303 | error if and only if the list is empty; every node holds its listed children; no root if it is not listed |
| `TaskTree.SubTasksAreChildren` | ptm_task/src/core/service/task_service.go:291-298 | with distinct ids every listed task holds exactly its listed children, in list order |
| `TaskTree.TreeHoldsDescendantsOnce` | ptm_task/src/core/service/task_service.go:277-303 | with distinct ids and acyclic links, walking the tree from the root meets each listed descendant exactly once and nothing else |
| `TaskTree.TreePermutesList` | ptm_task/src/core/service/task_service.go:277-303 | if the list holds only descendants of the root, the walk is a permutation of it |
| `CircuitBreaking.StepKeepsConsistent` | api_gateway/src/kernel/utils/circuit_breaker.go:94-145 | each atomic step of each caller keeps the counter equal to the logged failures since the last success seen outside Open, Closed equivalent to the counter below the limit, and the time that of the latest failure |
| `CircuitBreaking.ConsistentIffLimitPositive` | api_gateway/src/kernel/utils/circuit_breaker.go:94-145 | that holds in every interleaving if and only if the limit is at least 1 |
| `CircuitBreaking.Transitions` | api_gateway/src/kernel/utils/circuit_breaker.go:94-145 | in every reachable state: a failure in half-open reopens, only a success seen in half-open closes, only a promotion leaves open, Closed is left exactly when the counter reaches the limit, a promotion outside open changes nothing |
| `CircuitBreaking.PromoterHasWaitedIff` | api_gateway/src/kernel/utils/circuit_breaker.go:121-145 | a promoter paused no longer than the timeout has waited it out since the breaker's latest failure if and only if the failure time it read is still the breaker's; that it is suffices always |
| `CircuitBreaking.PromotionRace` | api_gateway/src/kernel/utils/circuit_breaker.go:121-145 | for every limit and timeout a run after which the breaker leaves Open in the very moment of its latest failure: two callers read the same old failure, one promotes and fails, the other promotes |
| `CircuitBreaking.CircuitBreaker.RecordFailure` | api_gateway/src/kernel/utils/circuit_breaker.go:94-104 | counts the failure and opens at the limit |
| `CircuitBreaking.CircuitBreaker.RecordSuccess` | api_gateway/src/kernel/utils/circuit_breaker.go:106-119 | closes from half-open, resets the counter unless open |
| `CircuitBreaking.CircuitBreaker.PromoteToHalfOpen` | api_gateway/src/kernel/utils/circuit_breaker.go:132-136 | goes to half-open only if the state is still open |
| `CircuitBreaking.CircuitBreaker.CanExecute` | api_gateway/src/kernel/utils/circuit_breaker.go:121-145 | undisturbed: allowed unless open within the timeout, and open afterwards exactly when refused |
| `CircuitBreaking.CircuitBreaker.Execute` | api_gateway/src/kernel/utils/circuit_breaker.go:58-92 | an undisturbed call is the run read, decide, promote, finish of one caller |

## Left out

- Controllers, routers, middleware, token handling, validators, dependency injection, the web client and the LLM service: no algorithmic property.
- Schedulers, solvers and their adapters: their results enter the modelled services as plain data.
- The scheduling service's own Kafka consumer, which marks messages even when the handler failed; the model is the notification service's.
- Concurrency between requests in the stores: each service operation reads and writes without others in between.
- Integer widths: ids, counts and times stay far below 64 bits.
- RateLimiter.Decide: floating-point rounding of the overlap weight is not modelled, because the bounds are about the exact share.
- RateLimiter.RateLimiterAdapter.CheckRateLimit: a counter whose text does not parse as a number is not modelled, because only INCR writes these keys; the HTTP middleware lets requests through when the limiter reports an error.
- TaskDependencyService.Service.CreateDependency: the dependency depth written back afterwards is not modelled, because the adapter always reports zero.
- WindowGeneration.WindowService.GetOrCreateWindowsWithInfo: failing store reads and writes are not modelled, because they only pass an error on; the order of stored rows by date and start is not modelled.
- MessageProtocol.NoMessageLost: the cleanup of expired processed-event records is not modelled, because it would allow an event to be handled again by design.
- MessageProtocol.HandledExactly: port calls are atomic, a failed call has no effect; a rebalance and an ended session are the crash step.
- WebSocketHub.Hub.DispatchBroadcast: the broadcast queue in front of the hub is not modelled; direct sends to a client after its channel was closed are outside the claim.
- WebSocketHub.Hub.SendToAll: the clients of all users are gathered first and then sent to, where the code sends while it goes through the users; the hub is locked meanwhile, so the buffers end up the same.
- WebSocketHub.Client.Send: the closed channel is a precondition, because a send on it panics; dispatch is proved to meet it.
- PlanCloning.PlanStore.CreateProposedPlanWithClone: columns that are only copied are two opaque fields; the order in which rows are read is not modelled; events outside the date range are not cloned, as in the code.
- EventSplitting.EventStore.SplitEvent: an event moved or saved between splits can break the chronological order, so runs are runs of splits.
- CalendarService.CalendarStore.SaveItems: items with a negative id get the next id, where the code stores the negative one; columns without influence on overlap are not modelled; ownership of the plan and existence of tasks are part of `fails`.
- CalendarRuns.RequestsKeepTable: the request bindings are modelled by the zeros they refuse; their upper and lower bounds are repeated by the validation of the items.
- TaskTree.GetTaskTreeByTaskID: the recursive query that lists the descendants is not modelled; a failing read passes its error on.
- CircuitBreaking.CircuitBreaker.Execute: the call's time limit and the state-change callback are not modelled.
- Unread counters, project and parent task counters, plan statistics: no invariant the code keeps or easy members only.
