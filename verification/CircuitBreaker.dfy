/** The gateway's circuit breaker, with concurrent callers taking its steps in any order. */
module CircuitBreaking {

  datatype State = Closed | Open | HalfOpen

  datatype Breaker = Breaker(state: State, failures: nat, lastFailureTime: int)

  const INITIAL: Breaker := Breaker(Closed, 0, 0)

  // ---------------------------------------------------------------- the locked sections

  function AfterFailure(b: Breaker, maxFailures: int, now: int): Breaker {
    Breaker(if b.failures + 1 >= maxFailures then Open else b.state, b.failures + 1, now)
  }

  function AfterSuccess(b: Breaker): Breaker {
    match b.state
    case Open => b
    case _ => b.(state := Closed, failures := 0)
  }

  function AfterPromotion(b: Breaker): Breaker {
    if b.state == Open then b.(state := HalfOpen) else b
  }

  // ---------------------------------------------------------------- callers

  /** Where a caller is: before its call, after reading state and failure time, about to promote, or inside the guarded
      call. The times of its own steps are kept for the statements. */
  datatype Caller =
    | Idle
    | HasRead(state: State, lastFailureTime: int, readAt: int)
    | Promoting(lastFailureTime: int, readAt: int, decidedAt: int)
    | Running

  /** What callers have reported, and whether a success found the breaker open. */
  datatype Report = Failure(at: int) | Success(whileOpen: bool)

  datatype System = System(breaker: Breaker, callers: map<int, Caller>, log: seq<Report>, clock: int) {
    function Caller(c: int): Caller { if c in callers then callers[c] else Idle }
  }

  datatype Step =
    | Read(caller: int, now: int)
    | Decide(caller: int, now: int)
    | Promote(caller: int, now: int)
    | Finish(caller: int, failed: bool, now: int)

  datatype Config = Config(maxFailures: int, resetTimeout: int)

  const START: System := System(INITIAL, map[], [], INITIAL.lastFailureTime)

  /** One atomic step of one caller, at a time not before the last one; a step its caller is not ready for changes only
      the clock. */
  function Next(cfg: Config, s: System, step: Step): System {
    if step.now < s.clock then s else Act(cfg, s.(clock := step.now), step)
  }

  function Act(cfg: Config, s: System, step: Step): System {
    match step
    case Read(c, now) =>
      if s.Caller(c) == Idle
      then s.(callers := s.callers[c := HasRead(s.breaker.state, s.breaker.lastFailureTime, now)])
      else s
    case Decide(c, now) =>
      (match s.Caller(c)
       case HasRead(Open, lastFailure, readAt) =>
         s.(callers := s.callers[c := if now - lastFailure > cfg.resetTimeout then Promoting(lastFailure, readAt, now)
                                 else Idle])
       case HasRead(_, _, _) => s.(callers := s.callers[c := Running])
       case _ => s)
    case Promote(c, _) =>
      if s.Caller(c).Promoting? then s.(breaker := AfterPromotion(s.breaker), callers := s.callers[c := Running]) else s
    case Finish(c, failed, now) =>
      if s.Caller(c) != Running then s
      else if failed then
        s.(breaker := AfterFailure(s.breaker, cfg.maxFailures, now), callers := s.callers[c := Idle],
           log := s.log + [Failure(now)])
      else
        s.(breaker := AfterSuccess(s.breaker), callers := s.callers[c := Idle],
           log := s.log + [Success(s.breaker.state == Open)])
  }

  function Run(cfg: Config, steps: seq<Step>): System {
    if steps == [] then START else Next(cfg, Run(cfg, steps[..|steps| - 1]), steps[|steps| - 1])
  }

  /** Failures reported since the last success that did not find the breaker open. */
  function FailuresSinceSuccess(log: seq<Report>): nat {
    if log == [] then 0
    else match log[|log| - 1]
      case Failure(_) => FailuresSinceSuccess(log[..|log| - 1]) + 1
      case Success(true) => FailuresSinceSuccess(log[..|log| - 1])
      case Success(false) => 0
  }

  /** When the latest failure was reported. */
  function LatestFailure(log: seq<Report>): int {
    if log == [] then INITIAL.lastFailureTime
    else match log[|log| - 1]
      case Failure(at) => at
      case Success(_) => LatestFailure(log[..|log| - 1])
  }

  ghost predicate Consistent(cfg: Config, s: System) {
    && s.breaker.failures == FailuresSinceSuccess(s.log) && s.breaker.lastFailureTime == LatestFailure(s.log)
    && (s.breaker.state == Closed <==> s.breaker.failures < cfg.maxFailures)
  }

  lemma StepKeepsConsistent(cfg: Config, s: System, step: Step)
    requires cfg.maxFailures >= 1 && Consistent(cfg, s)
    ensures Consistent(cfg, Next(cfg, s, step))
  {
  }

  lemma {:induction false} RunIsConsistent(cfg: Config, steps: seq<Step>)
    requires cfg.maxFailures >= 1
    ensures Consistent(cfg, Run(cfg, steps))
  {
    if steps != [] {
      RunIsConsistent(cfg, steps[..|steps| - 1]);
      StepKeepsConsistent(cfg, Run(cfg, steps[..|steps| - 1]), steps[|steps| - 1]);
    }
  }

  ghost predicate RunConsistent(cfg: Config, steps: seq<Step>) {
    Consistent(cfg, Run(cfg, steps))
  }

  /** In every interleaving the counter is the log's count and decides whether the breaker is closed, if and only if
      the limit is at least 1. */
  lemma ConsistentIffLimitPositive(cfg: Config)
    ensures (forall steps :: RunConsistent(cfg, steps)) <==> cfg.maxFailures >= 1
  {
    if cfg.maxFailures >= 1 {
      forall steps
        ensures RunConsistent(cfg, steps)
      {
        RunIsConsistent(cfg, steps);
      }
    } else {
      var none: seq<Step> := [];
      assert !RunConsistent(cfg, none);
    }
  }

  predicate FailureReported(s: System, step: Step) {
    step.Finish? && step.failed && step.now >= s.clock && s.Caller(step.caller) == Running
  }

  /** Any failure reported in half-open reopens, only a success reported in half-open closes, and only a promotion
      after an expired wait leaves open. */
  lemma Transitions(cfg: Config, steps: seq<Step>, step: Step)
    requires cfg.maxFailures >= 1
    ensures var s := Run(cfg, steps); var s' := Next(cfg, s, step);
            && (s.breaker.state == HalfOpen && FailureReported(s, step) ==> s'.breaker.state == Open)
            && (s.breaker.state != Closed && s'.breaker.state == Closed ==>
                  s.breaker.state == HalfOpen && step.Finish? && !step.failed && s'.breaker.failures == 0)
            && (s.breaker.state == Open && s'.breaker.state != Open ==>
                  step.Promote? && s.Caller(step.caller).Promoting? && s'.breaker.state == HalfOpen)
            && (s.breaker.state != Open && step.Promote? ==> s'.breaker == s.breaker)
            && (s.breaker.state == Closed && s'.breaker.state != Closed ==>
                  s'.breaker.state == Open && s'.breaker.failures == cfg.maxFailures)
  {
    RunIsConsistent(cfg, steps);
  }

  // ---------------------------------------------------------------- how long open lasts

  /** A failure that a caller has not read was reported after it read. */
  ghost predicate TimedCaller(cfg: Config, s: System, c: int) {
    match s.Caller(c)
    case HasRead(_, failure, readAt) =>
      readAt <= s.clock && (s.breaker.lastFailureTime == failure || readAt <= s.breaker.lastFailureTime)
    case Promoting(failure, readAt, decidedAt) =>
      && readAt <= decidedAt <= s.clock && decidedAt - failure > cfg.resetTimeout
      && (s.breaker.lastFailureTime == failure || readAt <= s.breaker.lastFailureTime)
    case _ => true
  }

  ghost predicate Timed(cfg: Config, s: System) {
    s.breaker.lastFailureTime <= s.clock && forall c :: TimedCaller(cfg, s, c)
  }

  lemma StepKeepsTimed(cfg: Config, s: System, step: Step)
    requires Timed(cfg, s)
    ensures Timed(cfg, Next(cfg, s, step))
  {
    forall c
      ensures TimedCaller(cfg, Next(cfg, s, step), c)
    {
      assert TimedCaller(cfg, s, c) && TimedCaller(cfg, s, step.caller);
    }
  }

  lemma {:induction false} RunIsTimed(cfg: Config, steps: seq<Step>)
    ensures Timed(cfg, Run(cfg, steps))
  {
    if steps != [] {
      RunIsTimed(cfg, steps[..|steps| - 1]);
      StepKeepsTimed(cfg, Run(cfg, steps[..|steps| - 1]), steps[|steps| - 1]);
    }
  }

  /** The wait a promoter has measured is a wait since the breaker's latest failure if and only if the failure time it
      read is still the breaker's; for the "only if", unless it paused longer than the timeout between reading and
      deciding. */
  lemma PromoterHasWaitedIff(cfg: Config, steps: seq<Step>, c: int)
    requires Run(cfg, steps).Caller(c).Promoting?
    ensures var s := Run(cfg, steps); var p := s.Caller(c);
            && (p.lastFailureTime == s.breaker.lastFailureTime ==>
                p.decidedAt - s.breaker.lastFailureTime > cfg.resetTimeout)
            && (p.decidedAt - p.readAt <= cfg.resetTimeout ==>
                  (p.decidedAt - s.breaker.lastFailureTime > cfg.resetTimeout
                   <==> p.lastFailureTime == s.breaker.lastFailureTime))
  {
    RunIsTimed(cfg, steps);
    assert TimedCaller(cfg, Run(cfg, steps), c);
  }

  lemma RunThen(cfg: Config, steps: seq<Step>, step: Step)
    ensures Run(cfg, steps + [step]) == Next(cfg, Run(cfg, steps), step)
  {
    assert (steps + [step])[..|steps|] == steps;
  }

  /** One failed call, from start to report, while the breaker is closed. */
  lemma FailedCall(cfg: Config, before: seq<Step>) returns (steps: seq<Step>)
    requires var s := Run(cfg, before);
             s.breaker.state == Closed && s.clock == 0 && forall c :: s.Caller(c) == Idle
    ensures var s := Run(cfg, before); var t := Run(cfg, steps);
            t.breaker == AfterFailure(s.breaker, cfg.maxFailures, 0) && t.clock == 0 && forall c :: t.Caller(c) == Idle
  {
    var s := Run(cfg, before);
    var a, b, c := Read(0, 0), Decide(0, 0), Finish(0, true, 0);
    var s1 := Next(cfg, s, a);
    var s2 := Next(cfg, s1, b);
    RunThen(cfg, before, a);
    RunThen(cfg, before + [a], b);
    RunThen(cfg, before + [a] + [b], c);
    assert s1.Caller(0) == HasRead(Closed, s.breaker.lastFailureTime, 0) && s2.Caller(0) == Running;
    steps := before + [a] + [b] + [c];
    forall x
      ensures Run(cfg, steps).Caller(x) == Idle
    {
      assert s.Caller(x) == Idle;
    }
  }

  lemma {:induction false} FailedCalls(cfg: Config, n: nat) returns (steps: seq<Step>)
    requires n <= cfg.maxFailures && cfg.maxFailures >= 1
    ensures var s := Run(cfg, steps);
            && s.breaker == Breaker(if n == cfg.maxFailures then Open else Closed, n, 0)
            && s.clock == 0 && forall c :: s.Caller(c) == Idle
  {
    if n == 0 {
      return [];
    }
    var before := FailedCalls(cfg, n - 1);
    steps := FailedCall(cfg, before);
  }

  /** A caller that finds the breaker open after the timeout. */
  lemma WaitedCaller(cfg: Config, before: seq<Step>, c: int, now: int) returns (steps: seq<Step>)
    requires var s := Run(cfg, before);
             && s.breaker.state == Open && s.Caller(c) == Idle
             && now >= s.clock && now - s.breaker.lastFailureTime > cfg.resetTimeout
    ensures var s := Run(cfg, before); var t := Run(cfg, steps);
            && t.breaker == s.breaker && t.clock == now
            && t.Caller(c) == Promoting(s.breaker.lastFailureTime, now, now)
            && forall x :: x != c ==> t.Caller(x) == s.Caller(x)
  {
    RunThen(cfg, before, Read(c, now));
    RunThen(cfg, before + [Read(c, now)], Decide(c, now));
    steps := before + [Read(c, now)] + [Decide(c, now)];
  }

  /** The breaker need not stay open for the timeout: two callers read the same old failure and decide; one promotes and
      fails; the other then promotes at once, on whatever limit and timeout. */
  lemma PromotionRace(cfg: Config) returns (steps: seq<Step>, step: Step)
    requires cfg.maxFailures >= 1 && cfg.resetTimeout >= 0
    ensures var s := Run(cfg, steps);
            && s.breaker.state == Open && step.now == s.clock == s.breaker.lastFailureTime
            && Next(cfg, s, step).breaker.state == HalfOpen
  {
    var now := cfg.resetTimeout + 1;
    var failed := FailedCalls(cfg, cfg.maxFailures);
    var one := WaitedCaller(cfg, failed, 1, now);
    var both := WaitedCaller(cfg, one, 2, now);
    RunThen(cfg, both, Promote(1, now));
    RunThen(cfg, both + [Promote(1, now)], Finish(1, true, now));
    return both + [Promote(1, now)] + [Finish(1, true, now)], Promote(2, now);
  }

  // ---------------------------------------------------------------- the object

  class CircuitBreaker {
    const maxFailures: int
    const resetTimeout: int
    var state: State
    var failures: nat
    var lastFailureTime: int

    ghost function Value(): Breaker
      reads this
    {
      Breaker(state, failures, lastFailureTime)
    }

    constructor (maxFailures: int, resetTimeout: int)
      ensures Value() == INITIAL && this.maxFailures == maxFailures && this.resetTimeout == resetTimeout
    {
      this.maxFailures, this.resetTimeout := maxFailures, resetTimeout;
      state, failures, lastFailureTime := Closed, 0, 0;
    }

    method RecordFailure(now: int)
      modifies this
      ensures Value() == AfterFailure(old(Value()), maxFailures, now)
    {
      failures := failures + 1;
      lastFailureTime := now;
      if failures >= maxFailures {
        state := Open;
      }
    }

    method RecordSuccess()
      modifies this`state, this`failures
      ensures Value() == AfterSuccess(old(Value()))
    {
      match state {
        case HalfOpen =>
          state := Closed;
          failures := 0;
        case Closed =>
          failures := 0;
        case Open =>
      }
    }

    /** Re-checks the state: another caller may have changed it since it was read. */
    method PromoteToHalfOpen()
      modifies this`state
      ensures Value() == AfterPromotion(old(Value()))
    {
      if state == Open {
        state := HalfOpen;
      }
    }

    /** Both halves without another caller in between. */
    method CanExecute(now: int) returns (allowed: bool)
      modifies this`state
      ensures allowed <==> old(state) != Open || now - lastFailureTime > resetTimeout
      ensures state == Open <==> !allowed
      ensures allowed && old(state) != Open ==> state == old(state)
      ensures allowed && old(state) == Open ==> state == HalfOpen
    {
      var seen, lastFailure := state, lastFailureTime;
      match seen {
        case Closed => return true;
        case HalfOpen => return true;
        case Open =>
          if now - lastFailure > resetTimeout {
            PromoteToHalfOpen();
            return true;
          }
          return false;
      }
    }

    /** A whole call nobody interferes with is the run Read, Decide, Promote, Finish of one caller. */
    method Execute(now: int, failed: bool, end: int) returns (allowed: bool)
      requires now <= end
      modifies this
      ensures var cfg := Config(maxFailures, resetTimeout);
              var s0 := System(old(Value()), map[], [], now);
              var s1 := Next(cfg, Next(cfg, Next(cfg, s0, Read(0, now)), Decide(0, now)), Promote(0, now));
              && (allowed <==> s1.Caller(0) == Running)
              && Value() == Next(cfg, s1, Finish(0, failed, end)).breaker
    {
      allowed := CanExecute(now);
      if !allowed {
        return;
      }
      if failed {
        RecordFailure(end);
      } else {
        RecordSuccess();
      }
    }
  }
}
