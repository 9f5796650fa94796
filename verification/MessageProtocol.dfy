/** One partition's consumption as a state machine: every port call, every failure of one, and a crash is one action. */
module MessageProtocol {

  type EventId = string

  /** What decoding a message yields. `NotJson` is a value that is not JSON text; a value of another JSON shape, or none
      at all, is `WrongShape`. */
  datatype Payload = NotJson | WrongShape | NoEventId | Event(id: EventId)

  /** `hasHandler`: a handler is registered for the message's topic. */
  datatype Message = Message(hasHandler: bool, payload: Payload)

  const MAX_RETRY_ATTEMPTS: nat := 3

  /** Where the consumer is with the message at `position`. */
  datatype Phase =
    | Idle
    | Checking        // about to look the event up
    | Handling        // new event, handler about to run
    | Succeeded       // handler returned without error, not yet recorded
    | Clearing        // recorded as processed, failure record about to be deleted
    | HandlerFailed   // handler returned an error, not yet recorded
    | SendingToDlq(retriesExhausted: bool)
    | MarkingDlq      // in the dead-letter topic, failure record about to be marked
    | Done            // the wrapped handler returned without error
    | Marked          // offset marked, about to commit
    | Stopped         // the wrapped handler returned an error: the claim ends

  datatype State = State(
    committed: nat, marked: nat, position: nat,
    processed: set<EventId>,
    retries: map<EventId, nat>,
    sentToDlq: set<EventId>,
    dlq: set<nat>,
    phase: Phase,
    // history, for the statements only
    handled: set<nat>,
    successes: map<EventId, nat>,
    faults: map<EventId, nat>,
    failures: map<EventId, nat>)

  function At(m: map<EventId, nat>, e: EventId): nat {
    if e in m then m[e] else 0
  }

  function Bump(m: map<EventId, nat>, e: EventId): map<EventId, nat> {
    m[e := At(m, e) + 1]
  }

  const INITIAL: State := State(0, 0, 0, {}, map[], {}, {}, Idle, {}, map[], map[], map[])

  datatype Action =
    | Deliver
    | CheckFails | FoundProcessed | FoundNew
    | HandlerOk | HandlerFails
    | MarkProcessedOk | MarkProcessedFails
    | ClearFailure(ok: bool)
    | RecordOk | RecordFails
    | DlqOk | DlqFails
    | MarkDlq(ok: bool)
    | MarkOffset
    | Commit(ok: bool)
    | AutoCommit
    | Crash           // or a rebalance: the next session starts at the committed offset

  predicate InLog(log: seq<Message>, s: State) {
    s.position < |log|
  }

  /** The event of the message being processed. */
  function Current(log: seq<Message>, s: State): EventId
    requires InLog(log, s) && log[s.position].payload.Event?
  {
    log[s.position].payload.id
  }

  predicate AtEvent(log: seq<Message>, s: State) {
    InLog(log, s) && log[s.position].payload.Event?
  }

  /** The dead-letter payload embeds the value as raw JSON, so encoding it fails for any other text. */
  predicate CanBeDeadLettered(log: seq<Message>, s: State) {
    InLog(log, s) && !log[s.position].payload.NotJson?
  }

  predicate Enabled(log: seq<Message>, s: State, a: Action) {
    match a
    case Deliver => s.phase == Idle && InLog(log, s)
    case CheckFails => s.phase == Checking
    case FoundProcessed => s.phase == Checking && AtEvent(log, s) && Current(log, s) in s.processed
    case FoundNew => s.phase == Checking && AtEvent(log, s) && Current(log, s) !in s.processed
    case HandlerOk => s.phase == Handling && AtEvent(log, s)
    case HandlerFails => s.phase == Handling
    case MarkProcessedOk => s.phase == Succeeded && AtEvent(log, s)
    case MarkProcessedFails => s.phase == Succeeded && AtEvent(log, s)
    case ClearFailure(_) => s.phase == Clearing && AtEvent(log, s)
    case RecordOk => s.phase == HandlerFailed && AtEvent(log, s)
    case RecordFails => s.phase == HandlerFailed
    case DlqOk => s.phase.SendingToDlq? && CanBeDeadLettered(log, s)
    case DlqFails => s.phase.SendingToDlq?
    case MarkDlq(_) => s.phase == MarkingDlq && AtEvent(log, s)
    case MarkOffset => s.phase == Done
    case Commit(_) => s.phase == Marked
    case AutoCommit => true
    case Crash => true
  }

  function Next(log: seq<Message>, s: State, a: Action): State
    requires Enabled(log, s, a)
  {
    match a
    case Deliver =>
      if !log[s.position].hasHandler then s.(marked := s.position + 1, position := s.position + 1)
      else if log[s.position].payload.Event? then s.(phase := Checking)
      else s.(phase := SendingToDlq(false))
    case CheckFails => s.(phase := Stopped)
    case FoundProcessed => s.(phase := Done)
    case FoundNew => s.(phase := Handling)
    case HandlerOk =>
      s.(phase := Succeeded, handled := s.handled + {s.position}, successes := Bump(s.successes, Current(log, s)))
    case HandlerFails => s.(phase := HandlerFailed)
    case MarkProcessedOk => s.(phase := Clearing, processed := s.processed + {Current(log, s)})
    case MarkProcessedFails => s.(phase := Done, faults := Bump(s.faults, Current(log, s)))
    case ClearFailure(ok) => s.(phase := Done, retries := if ok then s.retries - {Current(log, s)} else s.retries)
    case RecordOk =>
      var e := Current(log, s);
      var retries := Bump(s.retries, e);
      s.(retries := retries, failures := Bump(s.failures, e),
         phase := if retries[e] >= MAX_RETRY_ATTEMPTS then SendingToDlq(true) else Stopped)
    case RecordFails => s.(phase := Stopped)
    case DlqOk => s.(dlq := s.dlq + {s.position}, phase := if s.phase.retriesExhausted then MarkingDlq else Done)
    case DlqFails => s.(phase := Stopped)
    case MarkDlq(ok) => s.(phase := Done, sentToDlq := if ok then s.sentToDlq + {Current(log, s)} else s.sentToDlq)
    case MarkOffset => s.(phase := Marked, marked := s.position + 1, position := s.position + 1)
    case Commit(ok) => s.(phase := Idle, committed := if ok then s.marked else s.committed)
    case AutoCommit => s.(committed := s.marked)
    case Crash =>
      s.(phase := Idle, position := s.committed, marked := s.committed,
         faults := if s.phase == Succeeded && AtEvent(log, s) then Bump(s.faults, Current(log, s)) else s.faults)
  }

  ghost predicate CanRun(log: seq<Message>, s: State, actions: seq<Action>)
    decreases |actions|
  {
    actions == [] || (Enabled(log, s, actions[0]) && CanRun(log, Next(log, s, actions[0]), actions[1..]))
  }

  ghost function Run(log: seq<Message>, s: State, actions: seq<Action>): State
    requires CanRun(log, s, actions)
    decreases |actions|
  {
    if actions == [] then s else Run(log, Next(log, s, actions[0]), actions[1..])
  }

  // ---------------------------------------------------------------- what every step keeps

  /** The message at offset o needs no further delivery. */
  ghost predicate Settled(log: seq<Message>, s: State, o: nat)
    requires o < |log|
  {
    || o in s.handled
    || o in s.dlq
    || (log[o].payload.Event? && At(s.successes, log[o].payload.id) > 0)
  }

  ghost predicate Lossless(log: seq<Message>, s: State, upTo: nat) {
    upTo <= |log| && forall o :: 0 <= o < upTo && log[o].hasHandler ==> Settled(log, s, o)
  }

  ghost function Pending(log: seq<Message>, s: State, e: EventId): nat {
    if s.phase == Succeeded && AtEvent(log, s) && Current(log, s) == e then 1 else 0
  }

  /** Each success of an event is accounted for: by its record, by a fault that lost the record, or it is in flight. */
  ghost predicate Counted(log: seq<Message>, s: State, e: EventId) {
    At(s.successes, e) == At(s.faults, e) + (if e in s.processed then 1 else 0) + Pending(log, s, e)
  }

  ghost predicate PhaseHolds(log: seq<Message>, s: State) {
    && (s.phase !in {Idle, Marked} ==> InLog(log, s) && log[s.position].hasHandler)
    && (s.phase in {Checking, Handling, Succeeded, Clearing, HandlerFailed, MarkingDlq} ==> AtEvent(log, s))
    && (s.phase in {Handling, Succeeded} ==> AtEvent(log, s) && Current(log, s) !in s.processed)
    && (s.phase in {Succeeded, Clearing} ==> s.position in s.handled)
    && (s.phase == MarkingDlq ==> s.position in s.dlq)
    && (s.phase == Done ==> InLog(log, s) && Settled(log, s, s.position))
    && (s.phase == SendingToDlq(true) ==> AtEvent(log, s) && At(s.failures, Current(log, s)) >= MAX_RETRY_ATTEMPTS)
    && (s.phase == SendingToDlq(false) ==> InLog(log, s) && !log[s.position].payload.Event?)
  }

  /** JSON, and of the wrong shape, without an event id, or failed often enough. */
  ghost predicate DeservesDlq(log: seq<Message>, s: State, o: nat) {
    && o < |log| && !log[o].payload.NotJson?
    && (log[o].payload.Event? ==> At(s.failures, log[o].payload.id) >= MAX_RETRY_ATTEMPTS)
  }

  ghost predicate Inv(log: seq<Message>, s: State) {
    && s.committed <= s.marked == s.position <= |log|
    && Lossless(log, s, s.marked)
    && (forall e :: Counted(log, s, e))
    && (forall e :: At(s.retries, e) <= At(s.failures, e))
    && (forall o :: o in s.dlq ==> DeservesDlq(log, s, o))
    && (forall o :: o in s.handled ==> o < |log| && log[o].payload.Event?)
    && PhaseHolds(log, s)
  }

  lemma StepKeepsCounts(log: seq<Message>, s: State, a: Action)
    requires Inv(log, s) && Enabled(log, s, a)
    ensures forall e :: Counted(log, Next(log, s, a), e)
  {
    forall e
      ensures Counted(log, Next(log, s, a), e)
    {
      assert Counted(log, s, e);
    }
  }

  lemma HistoryGrows(log: seq<Message>, s: State, a: Action)
    requires Inv(log, s) && Enabled(log, s, a)
    ensures forall e :: At(Next(log, s, a).retries, e) <= At(Next(log, s, a).failures, e)
    ensures forall e :: At(s.failures, e) <= At(Next(log, s, a).failures, e)
    ensures forall e :: At(s.successes, e) <= At(Next(log, s, a).successes, e)
  {
    var t := Next(log, s, a);
    forall e
      ensures At(t.retries, e) <= At(t.failures, e)
      ensures At(s.failures, e) <= At(t.failures, e) && At(s.successes, e) <= At(t.successes, e)
    {
      assert At(s.retries, e) <= At(s.failures, e);
    }
  }

  lemma StepKeepsSettled(log: seq<Message>, s: State, a: Action, o: nat)
    requires Inv(log, s) && Enabled(log, s, a) && o < |log| && Settled(log, s, o)
    ensures Settled(log, Next(log, s, a), o)
  {
    HistoryGrows(log, s, a);
  }

  lemma StepKeepsLossless(log: seq<Message>, s: State, a: Action)
    requires Inv(log, s) && Enabled(log, s, a)
    ensures Lossless(log, Next(log, s, a), Next(log, s, a).marked)
  {
    var t := Next(log, s, a);
    forall o | 0 <= o < t.marked && log[o].hasHandler
      ensures Settled(log, t, o)
    {
      if o < s.marked {
        StepKeepsSettled(log, s, a, o);
      }
    }
  }

  lemma ProcessedSucceeded(log: seq<Message>, s: State, e: EventId)
    requires Inv(log, s) && e in s.processed
    ensures At(s.successes, e) > 0
  {
    assert Counted(log, s, e);
  }

  lemma StepKeepsPhase(log: seq<Message>, s: State, a: Action)
    requires Inv(log, s) && Enabled(log, s, a)
    ensures PhaseHolds(log, Next(log, s, a))
  {
    if a == FoundProcessed {
      ProcessedSucceeded(log, s, Current(log, s));
    }
  }

  lemma StepKeepsDlq(log: seq<Message>, s: State, a: Action, o: nat)
    requires Inv(log, s) && Enabled(log, s, a) && o in Next(log, s, a).dlq
    ensures DeservesDlq(log, Next(log, s, a), o)
  {
    HistoryGrows(log, s, a);
    assert o in s.dlq ==> DeservesDlq(log, s, o);
  }

  lemma StepKeepsInv(log: seq<Message>, s: State, a: Action)
    requires Inv(log, s) && Enabled(log, s, a)
    ensures Inv(log, Next(log, s, a))
  {
    StepKeepsCounts(log, s, a);
    HistoryGrows(log, s, a);
    StepKeepsLossless(log, s, a);
    StepKeepsPhase(log, s, a);
    forall o | o in Next(log, s, a).dlq
      ensures DeservesDlq(log, Next(log, s, a), o)
    {
      StepKeepsDlq(log, s, a, o);
    }
  }

  lemma {:induction false} RunKeepsInv(log: seq<Message>, s: State, actions: seq<Action>)
    requires Inv(log, s) && CanRun(log, s, actions)
    ensures Inv(log, Run(log, s, actions))
    decreases |actions|
  {
    if actions != [] {
      StepKeepsInv(log, s, actions[0]);
      RunKeepsInv(log, Next(log, s, actions[0]), actions[1..]);
    }
  }

  /** No message is lost: in every reachable state each message below the committed offset whose topic has a handler
      was handled, or carried an event already handled, or is in the dead-letter topic. */
  lemma NoMessageLost(log: seq<Message>, actions: seq<Action>, o: nat)
    requires CanRun(log, INITIAL, actions)
    requires o < Run(log, INITIAL, actions).committed
    ensures o < |log| && (log[o].hasHandler ==> Settled(log, Run(log, INITIAL, actions), o))
  {
    assert Inv(log, INITIAL);
    RunKeepsInv(log, INITIAL, actions);
  }

  /** Handling is counted exactly: between deliveries the successes of an event are the faults that lost its record,
      plus one if it is recorded. */
  lemma HandledExactly(log: seq<Message>, actions: seq<Action>, e: EventId)
    requires CanRun(log, INITIAL, actions)
    ensures var s := Run(log, INITIAL, actions);
            s.phase != Succeeded ==>
              At(s.successes, e) == At(s.faults, e) + (if e in s.processed then 1 else 0)
  {
    assert Inv(log, INITIAL);
    RunKeepsInv(log, INITIAL, actions);
    assert Counted(log, Run(log, INITIAL, actions), e);
  }

  /** Nothing with an event id is dead-lettered before its event has failed three times. */
  lemma DeadLetteredAfterThreeFailures(log: seq<Message>, actions: seq<Action>, o: nat)
    requires CanRun(log, INITIAL, actions) && o in Run(log, INITIAL, actions).dlq
    ensures o < |log|
    ensures log[o].payload.Event? ==> At(Run(log, INITIAL, actions).failures, log[o].payload.id) >= 3
  {
    assert Inv(log, INITIAL);
    RunKeepsInv(log, INITIAL, actions);
  }

  /** A message that is not JSON and whose topic has a handler holds its partition for good: over every run, whatever
      fails or not, the committed offset and the consumer's position never pass it. */
  lemma NotJsonIsNeverPassed(log: seq<Message>, actions: seq<Action>, o: nat)
    requires CanRun(log, INITIAL, actions) && o < |log| && log[o].hasHandler && log[o].payload.NotJson?
    ensures Run(log, INITIAL, actions).committed <= o && Run(log, INITIAL, actions).position <= o
  {
    assert Inv(log, INITIAL);
    RunKeepsInv(log, INITIAL, actions);
    var s := Run(log, INITIAL, actions);
    assert !Settled(log, s, o);
  }

  /** The handler condition is needed: any message without one that is not settled yet is passed over,
      and the next commit leaves it behind. */
  lemma UnhandledTopicIsSkipped(log: seq<Message>, s: State)
    requires Inv(log, s) && s.phase == Idle && InLog(log, s)
    requires !log[s.position].hasHandler && !Settled(log, s, s.position)
    ensures CanRun(log, s, [Deliver, AutoCommit])
    ensures var t := Run(log, s, [Deliver, AutoCommit]); s.position < t.committed && !Settled(log, t, s.position)
  {
  }
}
