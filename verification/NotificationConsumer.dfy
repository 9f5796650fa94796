/** The consumer itself: the wrapped handler and the claim loop over mutable stores, proved to follow the protocol. */
module NotificationConsumer {
  import opened Iteration
  import opened MessageProtocol

  /** How the ports and the handler behave during one delivery. */
  datatype Environment = Environment(
    checkFails: bool, handlerFails: bool, recordFails: bool, dlqFails: bool,
    markDlqFails: bool, markFails: bool, clearFails: bool, commitFails: bool)

  // ---------------------------------------------------------------- one delivery as protocol steps

  ghost function ToDlq(log: seq<Message>, s: State, env: Environment): (t: State)
    requires s.phase.SendingToDlq? && InLog(log, s) && (s.phase.retriesExhausted ==> AtEvent(log, s))
    ensures t.phase in {Done, Stopped} && t.position == s.position && t.committed == s.committed
  {
    if env.dlqFails || !CanBeDeadLettered(log, s) then Next(log, s, DlqFails)
    else
      var t := Next(log, s, DlqOk);
      if t.phase == MarkingDlq then Next(log, t, MarkDlq(!env.markDlqFails)) else t
  }

  ghost function Failed(log: seq<Message>, s: State, env: Environment): (t: State)
    requires s.phase == HandlerFailed && AtEvent(log, s)
    ensures t.phase in {Done, Stopped} && t.position == s.position && t.committed == s.committed
  {
    if env.recordFails then Next(log, s, RecordFails)
    else
      var t := Next(log, s, RecordOk);
      if t.phase == Stopped then t else ToDlq(log, t, env)
  }

  ghost function Recorded(log: seq<Message>, s: State, env: Environment): (t: State)
    requires s.phase == Succeeded && AtEvent(log, s)
    ensures t.phase == Done && t.position == s.position && t.committed == s.committed
  {
    if env.markFails then Next(log, s, MarkProcessedFails)
    else Next(log, Next(log, s, MarkProcessedOk), ClearFailure(!env.clearFails))
  }

  /** The wrapped handler's steps, from the delivered message to success or error. */
  ghost function Wrapped(log: seq<Message>, s: State, env: Environment): (t: State)
    requires (s.phase == SendingToDlq(false) && InLog(log, s)) || (s.phase == Checking && AtEvent(log, s))
    ensures t.phase in {Done, Stopped} && t.position == s.position && t.committed == s.committed
  {
    if s.phase.SendingToDlq? then ToDlq(log, s, env)
    else if env.checkFails then Next(log, s, CheckFails)
    else if Current(log, s) in s.processed then Next(log, s, FoundProcessed)
    else
      var t := Next(log, s, FoundNew);
      if env.handlerFails then Failed(log, Next(log, t, HandlerFails), env)
      else Recorded(log, Next(log, t, HandlerOk), env)
  }

  ghost function Settle(log: seq<Message>, s: State, env: Environment): State
    requires s.phase in {Done, Stopped}
  {
    if s.phase == Stopped then s else Next(log, Next(log, s, MarkOffset), Commit(!env.commitFails))
  }

  /** One iteration of the claim loop. */
  ghost function Delivery(log: seq<Message>, s: State, env: Environment): (t: State)
    requires s.phase == Idle && InLog(log, s)
    ensures t.phase in {Idle, Stopped}
  {
    var t := Next(log, s, Deliver);
    if t.phase == Idle then t else Settle(log, Wrapped(log, t, env), env)
  }

  /** The message is passed: the offset is marked and, unless the commit fails, committed. */
  ghost function Passed(s: State, env: Environment): State {
    s.(phase := Idle, position := s.position + 1, marked := s.position + 1,
       committed := if env.commitFails then s.committed else s.position + 1)
  }

  lemma DlqMeans(log: seq<Message>, s: State, env: Environment)
    requires s.phase.SendingToDlq? && InLog(log, s) && (s.phase.retriesExhausted ==> AtEvent(log, s))
    ensures ToDlq(log, s, env) ==
            if env.dlqFails || log[s.position].payload == NotJson then s.(phase := Stopped)
            else s.(phase := Done, dlq := s.dlq + {s.position},
                    sentToDlq := if s.phase.retriesExhausted && !env.markDlqFails
                                 then s.sentToDlq + {log[s.position].payload.id} else s.sentToDlq)
  {
  }

  lemma FailedMeans(log: seq<Message>, s: State, env: Environment)
    requires s.phase == HandlerFailed && AtEvent(log, s)
    ensures var t, e := Failed(log, s, env), log[s.position].payload.id;
            var count := At(s.retries, e) + 1;
            var sent := !env.recordFails && count >= 3 && !env.dlqFails;
            && t.processed == s.processed && t.position == s.position && t.committed == s.committed
            && t.retries == (if env.recordFails then s.retries else s.retries[e := count])
            && t.dlq == (if sent then s.dlq + {s.position} else s.dlq)
            && t.sentToDlq == (if sent && !env.markDlqFails then s.sentToDlq + {e} else s.sentToDlq)
            && t.phase == (if sent then Done else Stopped)
  {
    if !env.recordFails {
      var t := Next(log, s, RecordOk);
      if t.phase.SendingToDlq? {
        DlqMeans(log, t, env);
      }
    }
  }

  /** What the wrapped handler comes to for a message without an event, and for an event that is known or cannot be
      looked up. */
  lemma WrappedOldMeans(log: seq<Message>, s: State, env: Environment)
    requires (s.phase == SendingToDlq(false) && InLog(log, s)) || (s.phase == Checking && AtEvent(log, s))
    ensures s.phase != Checking && (env.dlqFails || log[s.position].payload == NotJson) ==>
              Wrapped(log, s, env) == s.(phase := Stopped)
    ensures s.phase != Checking && !env.dlqFails && log[s.position].payload != NotJson ==>
              Wrapped(log, s, env) == s.(phase := Done, dlq := s.dlq + {s.position})
    ensures s.phase == Checking && env.checkFails ==> Wrapped(log, s, env) == s.(phase := Stopped)
    ensures s.phase == Checking && !env.checkFails && log[s.position].payload.id in s.processed ==>
              Wrapped(log, s, env) == s.(phase := Done)
  {
    if s.phase != Checking {
      DlqMeans(log, s, env);
    }
  }

  /** ... for a new event that is handled: it is recorded, which clears the failure record, if the two calls work, and
      no failure of theirs is reported. */
  lemma WrappedSuccessMeans(log: seq<Message>, s: State, env: Environment)
    requires s.phase == Checking && AtEvent(log, s) && !env.checkFails && log[s.position].payload.id !in s.processed
    requires !env.handlerFails
    ensures var t, e := Wrapped(log, s, env), log[s.position].payload.id;
            && t.processed == (if env.markFails then s.processed else s.processed + {e})
            && t.retries == (if env.markFails || env.clearFails then s.retries else s.retries - {e})
            && t.dlq == s.dlq && t.sentToDlq == s.sentToDlq
            && t.phase == Done && t.position == s.position && t.committed == s.committed
  {
  }

  /** ... and for a new event whose handler fails: the third and every later recorded failure leads to the dead-letter
      topic, an earlier one is reported. */
  lemma WrappedFailureMeans(log: seq<Message>, s: State, env: Environment)
    requires s.phase == Checking && AtEvent(log, s) && !env.checkFails && log[s.position].payload.id !in s.processed
    requires env.handlerFails
    ensures var t, e := Wrapped(log, s, env), log[s.position].payload.id;
            var count := At(s.retries, e) + 1;
            var sent := !env.recordFails && count >= 3 && !env.dlqFails;
            && t.processed == s.processed
            && t.retries == (if env.recordFails then s.retries else s.retries[e := count])
            && t.dlq == (if sent then s.dlq + {s.position} else s.dlq)
            && t.sentToDlq == (if sent && !env.markDlqFails then s.sentToDlq + {e} else s.sentToDlq)
            && t.phase == (if sent then Done else Stopped) && t.position == s.position && t.committed == s.committed
  {
    FailedMeans(log, Next(log, Next(log, s, FoundNew), HandlerFails), env);
  }

  lemma SettleMeans(log: seq<Message>, u: State, env: Environment)
    requires u.phase == Done
    ensures Settle(log, u, env) == Passed(u, env)
  {
    SettleUnfold(log, u, env);
  }

  /** One delivery: a message without handler is passed over unseen; otherwise the wrapped handler decides whether the
      message is passed or the claim ends. */
  lemma DeliveryMeans(log: seq<Message>, s: State, env: Environment)
    requires s.phase == Idle && InLog(log, s)
    ensures !log[s.position].hasHandler ==>
              Delivery(log, s, env) == s.(position := s.position + 1, marked := s.position + 1)
    ensures log[s.position].hasHandler ==>
              var d := s.(phase := if log[s.position].payload.Event? then Checking else SendingToDlq(false));
              var u := Wrapped(log, d, env);
              Delivery(log, s, env) == if u.phase == Stopped then u else Passed(u, env)
  {
    if log[s.position].hasHandler {
      var d := s.(phase := if log[s.position].payload.Event? then Checking else SendingToDlq(false));
      assert Next(log, s, Deliver) == d;
      var u := Wrapped(log, d, env);
      if u.phase == Done {
        SettleMeans(log, u, env);
      }
    }
  }

  /** The claim after n deliveries, each in its own environment; it stays where it is once it has ended. */
  ghost function Claim(log: seq<Message>, s: State, environments: nat -> Environment, n: nat): State {
    if n == 0 then s
    else
      var t := Claim(log, s, environments, n - 1);
      if t.phase == Idle && InLog(log, t) then Delivery(log, t, environments(n - 1)) else t
  }

  lemma SettleUnfold(log: seq<Message>, u: State, env: Environment)
    requires u.phase == Done
    ensures Settle(log, u, env) == Next(log, Next(log, u, MarkOffset), Commit(!env.commitFails))
  {
  }

  // ---------------------------------------------------------------- these are runs

  ghost predicate Leads(log: seq<Message>, s: State, t: State) {
    exists actions :: CanRun(log, s, actions) && Run(log, s, actions) == t
  }

  lemma LeadsSelf(log: seq<Message>, s: State)
    ensures Leads(log, s, s)
  {
    assert CanRun(log, s, []) && Run(log, s, []) == s;
  }

  lemma {:induction false} RunConcat(log: seq<Message>, s: State, a: seq<Action>, b: seq<Action>)
    requires CanRun(log, s, a) && CanRun(log, Run(log, s, a), b)
    ensures CanRun(log, s, a + b) && Run(log, s, a + b) == Run(log, Run(log, s, a), b)
    decreases |a|
  {
    if a == [] {
      assert a + b == b;
    } else {
      assert (a + b)[1..] == a[1..] + b;
      RunConcat(log, Next(log, s, a[0]), a[1..], b);
    }
  }

  lemma LeadsStep(log: seq<Message>, s: State, t: State, a: Action)
    requires Leads(log, s, t) && Enabled(log, t, a)
    ensures Leads(log, s, Next(log, t, a))
  {
    var actions :| CanRun(log, s, actions) && Run(log, s, actions) == t;
    assert CanRun(log, Next(log, t, a), [a][1..]);
    assert CanRun(log, t, [a]) && Run(log, t, [a]) == Next(log, t, a);
    RunConcat(log, s, actions, [a]);
  }

  lemma DlqLeads(log: seq<Message>, r: State, s: State, env: Environment)
    requires s.phase.SendingToDlq? && InLog(log, s) && (s.phase.retriesExhausted ==> AtEvent(log, s))
             && Leads(log, r, s)
    ensures Leads(log, r, ToDlq(log, s, env))
  {
    if env.dlqFails || !CanBeDeadLettered(log, s) {
      LeadsStep(log, r, s, DlqFails);
    } else {
      LeadsStep(log, r, s, DlqOk);
      var t := Next(log, s, DlqOk);
      if t.phase == MarkingDlq {
        LeadsStep(log, r, t, MarkDlq(!env.markDlqFails));
      }
    }
  }

  lemma FailedLeads(log: seq<Message>, r: State, s: State, env: Environment)
    requires s.phase == HandlerFailed && AtEvent(log, s) && Leads(log, r, s)
    ensures Leads(log, r, Failed(log, s, env))
  {
    if env.recordFails {
      LeadsStep(log, r, s, RecordFails);
    } else {
      LeadsStep(log, r, s, RecordOk);
      var t := Next(log, s, RecordOk);
      if t.phase != Stopped {
        DlqLeads(log, r, t, env);
      }
    }
  }

  lemma RecordedLeads(log: seq<Message>, r: State, s: State, env: Environment)
    requires s.phase == Succeeded && AtEvent(log, s) && Leads(log, r, s)
    ensures Leads(log, r, Recorded(log, s, env))
  {
    if env.markFails {
      LeadsStep(log, r, s, MarkProcessedFails);
    } else {
      LeadsStep(log, r, s, MarkProcessedOk);
      LeadsStep(log, r, Next(log, s, MarkProcessedOk), ClearFailure(!env.clearFails));
    }
  }

  lemma WrappedLeads(log: seq<Message>, r: State, s: State, env: Environment)
    requires (s.phase == SendingToDlq(false) && InLog(log, s)) || (s.phase == Checking && AtEvent(log, s))
    requires Leads(log, r, s)
    ensures Leads(log, r, Wrapped(log, s, env))
  {
    if s.phase.SendingToDlq? {
      DlqLeads(log, r, s, env);
    } else if env.checkFails {
      LeadsStep(log, r, s, CheckFails);
    } else if Current(log, s) in s.processed {
      LeadsStep(log, r, s, FoundProcessed);
    } else {
      LeadsStep(log, r, s, FoundNew);
      var t := Next(log, s, FoundNew);
      if env.handlerFails {
        LeadsStep(log, r, t, HandlerFails);
        FailedLeads(log, r, Next(log, t, HandlerFails), env);
      } else {
        LeadsStep(log, r, t, HandlerOk);
        RecordedLeads(log, r, Next(log, t, HandlerOk), env);
      }
    }
  }

  /** Every delivery is a run of the protocol, so what holds over all runs holds of the consumer. */
  lemma DeliveryLeads(log: seq<Message>, r: State, s: State, env: Environment)
    requires s.phase == Idle && InLog(log, s) && Leads(log, r, s)
    ensures Leads(log, r, Delivery(log, s, env))
  {
    LeadsStep(log, r, s, Deliver);
    var t := Next(log, s, Deliver);
    if t.phase != Idle {
      WrappedLeads(log, r, t, env);
      var u := Wrapped(log, t, env);
      if u.phase == Done {
        LeadsStep(log, r, u, MarkOffset);
        LeadsStep(log, r, Next(log, u, MarkOffset), Commit(!env.commitFails));
      }
    }
  }

  // ---------------------------------------------------------------- the consumer

  class Consumer {
    const log: seq<Message>
    var committed: nat
    var marked: nat
    var position: nat
    var processed: set<EventId>
    var retries: map<EventId, nat>
    var sentToDlq: set<EventId>
    var dlq: set<nat>
    ghost var phase: Phase
    ghost var handled: set<nat>
    ghost var successes: map<EventId, nat>
    ghost var faults: map<EventId, nat>
    ghost var failures: map<EventId, nat>

    ghost function Snapshot(): State
      reads this
    {
      State(committed, marked, position, processed, retries, sentToDlq, dlq, phase, handled, successes, faults,
            failures)
    }

    constructor (log: seq<Message>)
      ensures this.log == log && Snapshot() == INITIAL
    {
      this.log := log;
      committed, marked, position := 0, 0, 0;
      processed, retries, sentToDlq, dlq := {}, map[], {}, {};
      phase, handled := Idle, {};
      successes, faults, failures := map[], map[], map[];
    }

    method IsEventProcessed(eventId: EventId, fails: bool) returns (failed: bool, found: bool)
      requires phase == Checking && AtEvent(log, Snapshot()) && eventId == Current(log, Snapshot())
      modifies this`phase
      ensures failed == fails
      ensures found <==> !failed && eventId in processed
      ensures Snapshot() == Next(log, old(Snapshot()), if fails then CheckFails else if found then FoundProcessed
                                 else FoundNew)
    {
      if fails {
        phase := Stopped;
        return true, false;
      }
      found := eventId in processed;
      phase := if found then Done else Handling;
      return false, found;
    }

    /** Marks the event processed, then drops its failure record; a failure of the second step is ignored. */
    method MarkEventProcessed(eventId: EventId, fails: bool, clearFails: bool) returns (failed: bool)
      requires phase == Succeeded && AtEvent(log, Snapshot()) && eventId == Current(log, Snapshot())
      modifies this
      ensures failed == fails
      ensures Snapshot() == if fails then Next(log, old(Snapshot()), MarkProcessedFails)
                            else Next(log, Next(log, old(Snapshot()), MarkProcessedOk), ClearFailure(!clearFails))
    {
      if fails {
        phase, faults := Done, Bump(faults, eventId);
        return true;
      }
      processed := processed + {eventId};
      if !clearFails {
        retries := retries - {eventId};
      }
      phase := Done;
      return false;
    }

    /** Creates the failure record with count 1 or raises its count, and says whether the retries are used up. */
    method RecordFailedEvent(eventId: EventId, fails: bool) returns (failed: bool, shouldSendToDlq: bool)
      requires phase == HandlerFailed && AtEvent(log, Snapshot()) && eventId == Current(log, Snapshot())
      modifies this
      ensures failed == fails
      ensures Snapshot() == Next(log, old(Snapshot()), if fails then RecordFails else RecordOk)
      ensures shouldSendToDlq <==> !failed && At(old(retries), eventId) + 1 >= 3
    {
      if fails {
        phase := Stopped;
        return true, false;
      }
      var retryCount := if eventId in retries then retries[eventId] + 1 else 1;
      retries := retries[eventId := retryCount];
      failures := Bump(failures, eventId);
      shouldSendToDlq := retryCount >= MAX_RETRY_ATTEMPTS;
      phase := if shouldSendToDlq then SendingToDlq(true) else Stopped;
      return false, shouldSendToDlq;
    }

    /** Sending fails if the producer does, and always for a value that cannot be embedded as JSON. */
    method SendToDlq(payload: Payload, fails: bool) returns (failed: bool)
      requires phase.SendingToDlq? && InLog(log, Snapshot()) && payload == log[position].payload
      modifies this
      ensures failed <==> fails || payload.NotJson?
      ensures Snapshot() == Next(log, old(Snapshot()), if failed then DlqFails else DlqOk)
    {
      if payload.NotJson? || fails {
        phase := Stopped;
        return true;
      }
      dlq := dlq + {position};
      phase := if phase.retriesExhausted then MarkingDlq else Done;
      return false;
    }

    method MarkEventSentToDlq(eventId: EventId, fails: bool)
      requires phase == MarkingDlq && AtEvent(log, Snapshot()) && eventId == Current(log, Snapshot())
      modifies this
      ensures Snapshot() == Next(log, old(Snapshot()), MarkDlq(!fails))
    {
      if !fails {
        sentToDlq := sentToDlq + {eventId};
      }
      phase := Done;
    }

    /** Sends to the dead-letter topic; after exhausted retries the failure record is marked too, best effort. */
    method DeadLetter(payload: Payload, retriesExhausted: bool, env: Environment) returns (failed: bool)
      requires phase == SendingToDlq(retriesExhausted) && InLog(log, Snapshot()) && payload == log[position].payload
      requires retriesExhausted ==> payload.Event?
      modifies this
      ensures Snapshot() == ToDlq(log, old(Snapshot()), env)
      ensures failed <==> phase == Stopped
    {
      failed := SendToDlq(payload, env.dlqFails);
      if !failed && retriesExhausted {
        MarkEventSentToDlq(payload.id, env.markDlqFails);
      }
    }

    /** The handler's error path. */
    method HandleFailure(eventId: EventId, env: Environment) returns (failed: bool)
      requires phase == HandlerFailed && AtEvent(log, Snapshot()) && eventId == Current(log, Snapshot())
      modifies this
      ensures Snapshot() == Failed(log, old(Snapshot()), env)
      ensures failed <==> phase == Stopped
    {
      var recordFailed, shouldSendToDlq := RecordFailedEvent(eventId, env.recordFails);
      if recordFailed || !shouldSendToDlq {
        return true;
      }
      failed := DeadLetter(Event(eventId), true, env);
    }

    method WrapHandler(payload: Payload, env: Environment) returns (failed: bool)
      requires InLog(log, Snapshot()) && payload == log[position].payload
      requires phase == if payload.Event? then Checking else SendingToDlq(false)
      modifies this
      ensures Snapshot() == Wrapped(log, old(Snapshot()), env)
      ensures failed <==> phase == Stopped
    {
      if !payload.Event? {
        failed := DeadLetter(payload, false, env);
        return;
      }
      var eventId := payload.id;
      var checkFailed, alreadyProcessed := IsEventProcessed(eventId, env.checkFails);
      if checkFailed {
        return true;
      }
      if alreadyProcessed {
        return false;
      }
      ghost var newEvent := Snapshot();
      if env.handlerFails {
        phase := HandlerFailed;
        assert Snapshot() == Next(log, newEvent, HandlerFails);
        failed := HandleFailure(eventId, env);
        return;
      }
      phase, handled, successes := Succeeded, handled + {position}, Bump(successes, eventId);
      assert Snapshot() == Next(log, newEvent, HandlerOk);
      var markFailed := MarkEventProcessed(eventId, env.markFails, env.clearFails);
      return false;
    }

    method MarkMessage()
      requires phase == Done
      modifies this
      ensures Snapshot() == Next(log, old(Snapshot()), MarkOffset)
    {
      marked, position := position + 1, position + 1;
      phase := Marked;
    }

    /** Commits what is marked; a commit that fails is not reported. */
    method CommitOffset(fails: bool)
      requires phase == Marked
      modifies this
      ensures Snapshot() == Next(log, old(Snapshot()), Commit(!fails))
    {
      if !fails {
        committed := marked;
      }
      phase := Idle;
    }

    /** Receives the next message; one whose topic has no handler is marked and passed over. */
    method Receive() returns (message: Message)
      requires phase == Idle && InLog(log, Snapshot())
      modifies this
      ensures Snapshot() == Next(log, old(Snapshot()), Deliver)
      ensures message == log[old(position)]
    {
      message := log[position];
      if !message.hasHandler {
        marked, position := position + 1, position + 1;
      } else {
        phase := if message.payload.Event? then Checking else SendingToDlq(false);
      }
    }

    /** Offsets move only when the wrapped handler returned without error. */
    method HandleMessage(payload: Payload, env: Environment) returns (failed: bool)
      requires InLog(log, Snapshot()) && payload == log[position].payload
      requires phase == if payload.Event? then Checking else SendingToDlq(false)
      modifies this
      ensures Snapshot() == Settle(log, Wrapped(log, old(Snapshot()), env), env)
      ensures failed <==> phase == Stopped
    {
      failed := WrapHandler(payload, env);
      if !failed {
        ghost var done := Snapshot();
        MarkMessage();
        CommitOffset(env.commitFails);
        SettleUnfold(log, done, env);
      }
    }

    method ConsumeMessage(env: Environment) returns (failed: bool)
      requires phase == Idle && InLog(log, Snapshot())
      modifies this
      ensures Snapshot() == Delivery(log, old(Snapshot()), env)
      ensures failed <==> phase == Stopped
    {
      var message := Receive();
      if !message.hasHandler {
        return false;
      }
      failed := HandleMessage(message.payload, env);
    }

    /** Consumes until the log ends or the wrapped handler returns an error: `delivered` deliveries, one after the
        other. */
    method ConsumeClaim(environments: nat -> Environment) returns (failed: bool, ghost delivered: nat)
      requires phase == Idle && Inv(log, Snapshot()) && Leads(log, INITIAL, Snapshot())
      modifies this
      ensures Inv(log, Snapshot()) && Leads(log, INITIAL, Snapshot())
      ensures Snapshot() == Claim(log, old(Snapshot()), environments, delivered)
      ensures failed ==> phase == Stopped
      ensures !failed ==> phase == Idle && position == |log|
    {
      delivered := 0;
      var next := 0;
      while position < |log|
        invariant phase == Idle && Inv(log, Snapshot()) && Leads(log, INITIAL, Snapshot())
        invariant next == delivered && Snapshot() == Claim(log, old(Snapshot()), environments, delivered)
        decreases |log| - position
      {
        ghost var before := Snapshot();
        var env := environments(next);
        next, delivered := next + 1, delivered + 1;
        DeliveryKeeps(log, before, env);
        DeliveryAdvances(log, before, env);
        failed := ConsumeMessage(env);
        if failed {
          return true, delivered;
        }
      }
      return false, delivered;
    }

    /** After an error, a crash or a rebalance the next session starts at the committed offset. */
    method StartSession()
      requires phase in {Idle, Stopped} && Inv(log, Snapshot()) && Leads(log, INITIAL, Snapshot())
      modifies this
      ensures Snapshot() == Next(log, old(Snapshot()), Crash)
      ensures phase == Idle && Inv(log, Snapshot()) && Leads(log, INITIAL, Snapshot())
    {
      StepKeepsInv(log, Snapshot(), Crash);
      LeadsStep(log, INITIAL, Snapshot(), Crash);
      position, marked, phase := committed, committed, Idle;
    }
  }

  lemma LeadsKeepsInv(log: seq<Message>, s: State, t: State)
    requires Inv(log, s) && Leads(log, s, t)
    ensures Inv(log, t)
  {
    var actions :| CanRun(log, s, actions) && Run(log, s, actions) == t;
    RunKeepsInv(log, s, actions);
  }

  lemma DeliveryKeeps(log: seq<Message>, s: State, env: Environment)
    requires s.phase == Idle && InLog(log, s) && Inv(log, s) && Leads(log, INITIAL, s)
    ensures Inv(log, Delivery(log, s, env)) && Leads(log, INITIAL, Delivery(log, s, env))
  {
    LeadsSelf(log, s);
    DeliveryLeads(log, s, s, env);
    LeadsKeepsInv(log, s, Delivery(log, s, env));
    DeliveryLeads(log, INITIAL, s, env);
  }

  lemma DeliveryAdvances(log: seq<Message>, s: State, env: Environment)
    requires s.phase == Idle && InLog(log, s)
    ensures Delivery(log, s, env).phase == Idle ==> Delivery(log, s, env).position == s.position + 1
  {
    var t := Next(log, s, Deliver);
    if t.phase != Idle {
      SettleAdvances(log, Wrapped(log, t, env), env);
    }
  }

  lemma SettleAdvances(log: seq<Message>, u: State, env: Environment)
    requires u.phase in {Done, Stopped}
    ensures Settle(log, u, env).phase == Idle ==> Settle(log, u, env).position == u.position + 1
  {
  }

  // ---------------------------------------------------------------- termination without faults

  ghost predicate FaultFree(env: Environment) {
    !env.checkFails && !env.recordFails && !env.dlqFails && !env.markDlqFails && !env.markFails
    && !env.clearFails && !env.commitFails
  }

  ghost predicate AlwaysFaultFree(environments: nat -> Environment) {
    forall k :: FaultFree(environments(k))
  }

  /** Has a handler, and cannot even be dead-lettered. */
  ghost predicate Undeliverable(log: seq<Message>, o: nat) {
    o < |log| && log[o].hasHandler && log[o].payload.NotJson?
  }

  /** A delivery and, if it ended in an error, the next session. */
  ghost function DeliverAgain(log: seq<Message>, s: State, env: Environment): State
    requires s.phase == Idle && InLog(log, s)
  {
    var t := Delivery(log, s, env);
    if t.phase == Stopped then Next(log, t, Crash) else t
  }

  /** Between deliveries: only messages without a handler have been passed since the last commit. */
  ghost predicate Ready(log: seq<Message>, s: State) {
    && s.phase == Idle && s.committed <= s.position == s.marked <= |log|
    && forall o :: s.committed <= o < s.position ==> !log[o].hasHandler
  }

  ghost function HandledFrom(log: seq<Message>, from: nat): nat
    requires from <= |log|
    decreases |log| - from
  {
    if from == |log| then 0 else HandledFrom(log, from + 1) + (if log[from].hasHandler then 1 else 0)
  }

  /** The next message with a handler, or the end of the log. */
  ghost function FirstHandled(log: seq<Message>, from: nat): (f: nat)
    requires from <= |log|
    ensures from <= f <= |log|
    decreases |log| - from
  {
    if from == |log| || log[from].hasHandler then from else FirstHandled(log, from + 1)
  }

  lemma {:induction false} SkipUnhandled(log: seq<Message>, from: nat, to: nat)
    requires from <= to <= |log| && forall o :: from <= o < to ==> !log[o].hasHandler
    ensures HandledFrom(log, from) == HandledFrom(log, to) && FirstHandled(log, from) == FirstHandled(log, to)
    decreases |log| - from
  {
    if from < to {
      SkipUnhandled(log, from + 1, to);
    }
  }

  /** Recorded failures of the event, of which the third would end its retries. */
  ghost function Used(log: seq<Message>, s: State, o: nat): nat
    requires o <= |log|
  {
    if o < |log| && log[o].payload.Event? then
      (if At(s.retries, log[o].payload.id) < 2 then At(s.retries, log[o].payload.id) else 2)
    else 0
  }

  /** Attempts still open: three per uncommitted message with a handler, less those the first of them has used. */
  ghost function Attempts(log: seq<Message>, s: State): int
    requires s.committed <= |log|
  {
    3 * HandledFrom(log, s.committed) - Used(log, s, FirstHandled(log, s.committed))
  }

  /** Deliveries still needed at most: every attempt may start over at the committed offset. */
  ghost function Remaining(log: seq<Message>, s: State): int
    requires s.committed <= |log|
  {
    Attempts(log, s) * (|log| + 1) + |log| - s.position
  }

  lemma FailureProgress(log: seq<Message>, s: State, env: Environment)
    requires s.phase == HandlerFailed && AtEvent(log, s) && FaultFree(env)
    ensures var t := Failed(log, s, env);
            && t.committed == s.committed
            && (t.phase == Stopped ==>
                  At(t.retries, Current(log, s)) == At(s.retries, Current(log, s)) + 1 < MAX_RETRY_ATTEMPTS)
  {
  }

  lemma WrappedProgress(log: seq<Message>, s: State, env: Environment)
    requires (s.phase == SendingToDlq(false) && CanBeDeadLettered(log, s)) || (s.phase == Checking && AtEvent(log, s))
    requires FaultFree(env)
    ensures var t := Wrapped(log, s, env);
            && t.committed == s.committed
            && (t.phase == Stopped ==>
                  && AtEvent(log, s)
                  && At(t.retries, Current(log, s)) == At(s.retries, Current(log, s)) + 1 < MAX_RETRY_ATTEMPTS)
  {
    if s.phase == Checking && Current(log, s) !in s.processed && env.handlerFails {
      FailureProgress(log, Next(log, Next(log, s, FoundNew), HandlerFails), env);
    }
  }

  /** What one delivery of a message with a handler leaves: a commit past it, or one more recorded failure of it. */
  ghost predicate Advanced(log: seq<Message>, s: State, t: State)
    requires InLog(log, s)
  {
    && t.phase == Idle && t.position == t.marked == t.committed
    && (t.committed == s.position + 1
        || (t.committed == s.committed && AtEvent(log, s)
            && At(t.retries, Current(log, s)) == At(s.retries, Current(log, s)) + 1 < MAX_RETRY_ATTEMPTS))
  }

  lemma SettleAdvanced(log: seq<Message>, s: State, u: State, env: Environment)
    requires Ready(log, s) && InLog(log, s) && FaultFree(env)
    requires u.phase in {Done, Stopped} && u.committed == s.committed && u.position == s.position
    requires u.phase == Stopped ==>
               AtEvent(log, s)
               && At(u.retries, Current(log, s)) == At(s.retries, Current(log, s)) + 1 < MAX_RETRY_ATTEMPTS
    ensures var t := Settle(log, u, env); Advanced(log, s, if t.phase == Stopped then Next(log, t, Crash) else t)
  {
  }

  lemma AdvancedUsesAttempt(log: seq<Message>, s: State, t: State)
    requires Ready(log, s) && InLog(log, s) && log[s.position].hasHandler && Advanced(log, s, t)
    ensures Ready(log, t) && t.committed >= s.committed && Attempts(log, t) < Attempts(log, s)
  {
    SkipUnhandled(log, s.committed, s.position);
    assert FirstHandled(log, s.position) == s.position;
    assert HandledFrom(log, s.position) == HandledFrom(log, s.position + 1) + 1;
  }

  /** One delivery on: past a message without a handler, or one attempt fewer at one with a handler. */
  ghost predicate Progressed(log: seq<Message>, s: State, t: State)
    requires s.committed <= |log| && InLog(log, s)
  {
    && Ready(log, t) && t.committed >= s.committed
    && if log[s.position].hasHandler then Attempts(log, t) < Attempts(log, s)
       else Attempts(log, t) == Attempts(log, s) && t.position == s.position + 1
  }

  lemma UnhandledIsPassed(log: seq<Message>, s: State, t: State)
    requires Ready(log, s) && InLog(log, s) && !log[s.position].hasHandler && t == Next(log, s, Deliver)
    ensures Progressed(log, s, t)
  {
  }

  /** Without port failures every delivery passes a message without a handler, commits one with a handler, or uses up
      one of its three attempts. */
  lemma DeliveryProgress(log: seq<Message>, s: State, env: Environment)
    requires Ready(log, s) && InLog(log, s) && FaultFree(env) && !Undeliverable(log, s.position)
    ensures Progressed(log, s, DeliverAgain(log, s, env))
  {
    var d := Next(log, s, Deliver);
    if log[s.position].hasHandler {
      WrappedProgress(log, d, env);
      SettleAdvanced(log, s, Wrapped(log, d, env), env);
      AdvancedUsesAttempt(log, s, DeliverAgain(log, s, env));
    } else {
      UnhandledIsPassed(log, s, d);
    }
  }

  lemma FewerAttempts(a: int, b: int, size: nat, p: nat, q: nat)
    requires a < b && p <= size && q <= size
    ensures a * (size + 1) + size - p < b * (size + 1) + size - q
  {
    assert (b - a - 1) * (size + 1) >= 0;
    assert b * (size + 1) == a * (size + 1) + (b - a - 1) * (size + 1) + (size + 1);
  }

  /** Delivery k of a session, in the environment it meets. */
  ghost function SessionStep(log: seq<Message>, environments: nat -> Environment): (State, nat) -> State {
    (t: State, k: nat) => if t.phase == Idle && InLog(log, t) then DeliverAgain(log, t, environments(k)) else t
  }

  ghost function AtEnd(log: seq<Message>): State -> bool {
    (t: State) => t.position == |log|
  }

  /** The state after n deliveries, stopping at the end of the log. */
  ghost function Deliveries(log: seq<Message>, s: State, environments: nat -> Environment, n: nat): State {
    Iterate(SessionStep(log, environments), AtEnd(log), s, n)
  }

  lemma AttemptsNatural(log: seq<Message>, s: State)
    requires s.committed <= |log|
    ensures Attempts(log, s) >= 0
  {
    var f := FirstHandled(log, s.committed);
    SkipToFirst(log, s.committed);
  }

  lemma {:induction false} SkipToFirst(log: seq<Message>, from: nat)
    requires from <= |log|
    ensures var f := FirstHandled(log, from); f < |log| ==> log[f].hasHandler && HandledFrom(log, from) > 0
    decreases |log| - from
  {
    if from < |log| && !log[from].hasHandler {
      SkipToFirst(log, from + 1);
    }
  }

  /** Ready, with nothing undeliverable to come. */
  ghost predicate Passable(log: seq<Message>, s: State) {
    Ready(log, s) && forall o :: s.committed <= o < |log| ==> !Undeliverable(log, o)
  }

  lemma ProgressLowersRemaining(log: seq<Message>, s: State, t: State)
    requires Passable(log, s) && InLog(log, s) && Progressed(log, s, t)
    ensures Passable(log, t) && Remaining(log, t) < Remaining(log, s)
  {
    if log[s.position].hasHandler {
      FewerAttempts(Attempts(log, t), Attempts(log, s), |log|, t.position, s.position);
    }
  }

  lemma RemainingNatural(log: seq<Message>, s: State)
    requires Ready(log, s)
    ensures Remaining(log, s) >= 0
  {
    AttemptsNatural(log, s);
    assert Attempts(log, s) * (|log| + 1) >= 0;
  }

  /** Without port failures and undeliverable messages, however the handlers behave, a bounded number of deliveries
      reaches the end of the log with nothing uncommitted that has a handler. */
  lemma ConsumptionTerminates(log: seq<Message>, s: State, environments: nat -> Environment, n: nat)
    requires Passable(log, s) && n >= Remaining(log, s) && AlwaysFaultFree(environments)
    ensures var t := Deliveries(log, s, environments, n); t.position == |log| && Ready(log, t)
  {
    var next, inv := SessionStep(log, environments), (t: State) => Passable(log, t);
    var measure := (t: State) => if Ready(log, t) then Remaining(log, t) else 0;
    forall t | inv(t)
      ensures measure(t) >= 0
    {
      RemainingNatural(log, t);
    }
    forall t, k: nat | inv(t) && !AtEnd(log)(t)
      ensures inv(next(t, k)) && measure(next(t, k)) < measure(t)
    {
      DeliveryProgress(log, t, environments(k));
      ProgressLowersRemaining(log, t, next(t, k));
    }
    IterateReaches(next, AtEnd(log), inv, measure, s, n);
  }

  lemma SettleOffsets(log: seq<Message>, u: State, env: Environment)
    requires u.phase in {Done, Stopped}
    ensures var t := Settle(log, u, env);
            if u.phase == Stopped then t == u
            else
              && t.phase == Idle && t.position == u.position + 1
              && (t.committed == u.committed || t.committed == t.position)
  {
  }

  lemma UndeliverableStays(log: seq<Message>, s: State, env: Environment, o: nat)
    requires s.phase == Idle && s.committed <= o && s.position <= o && Undeliverable(log, o)
    ensures var t := DeliverAgain(log, s, env); t.phase == Idle && t.committed <= o && t.position <= o
  {
    var d := Next(log, s, Deliver);
    if d.phase != Idle {
      assert s.position == o ==> Wrapped(log, d, env).phase == Stopped;
      SettleOffsets(log, Wrapped(log, d, env), env);
    }
  }

  lemma UndeliverableBlocks(log: seq<Message>, s: State, environments: nat -> Environment, n: nat, o: nat)
    requires s.phase == Idle && s.committed <= o && s.position <= o && Undeliverable(log, o)
    ensures Deliveries(log, s, environments, n).position <= o
  {
    var next := SessionStep(log, environments);
    var inv := (t: State) => t.phase == Idle && t.committed <= o && t.position <= o;
    forall t, k: nat | inv(t)
      ensures inv(next(t, k))
    {
      UndeliverableStays(log, t, environments(k), o);
    }
    IterateKeeps(next, AtEnd(log), inv, s, n);
  }

  ghost predicate ReachesEnd(log: seq<Message>, s: State, environments: nat -> Environment, n: nat) {
    var t := Deliveries(log, s, environments, n);
    t.position == |log| && Ready(log, t)
  }

  ghost predicate Completes(log: seq<Message>, s: State, environments: nat -> Environment) {
    exists n: nat :: ReachesEnd(log, s, environments, n)
  }

  /** Fault-free consumption always completes if and only if every message from the committed offset on whose topic has
      a handler is JSON. */
  lemma ConsumptionCompletesIff(log: seq<Message>, s: State)
    requires Ready(log, s)
    ensures (forall environments: nat -> Environment :: AlwaysFaultFree(environments) ==>
             Completes(log, s, environments))
            <==> forall o :: s.committed <= o < |log| ==> !Undeliverable(log, o)
  {
    if forall o :: s.committed <= o < |log| ==> !Undeliverable(log, o) {
      forall environments: nat -> Environment | AlwaysFaultFree(environments)
        ensures Completes(log, s, environments)
      {
        RemainingNatural(log, s);
        var n: nat := Remaining(log, s);
        ConsumptionTerminates(log, s, environments, n);
        assert ReachesEnd(log, s, environments, n);
      }
    } else {
      var o :| s.committed <= o < |log| && Undeliverable(log, o);
      var calm: nat -> Environment := (k: nat) => Environment(false, false, false, false, false, false, false, false);
      assert AlwaysFaultFree(calm);
      forall n: nat
        ensures !ReachesEnd(log, s, calm, n)
      {
        UndeliverableBlocks(log, s, calm, n, o);
      }
      assert !Completes(log, s, calm);
    }
  }
}
