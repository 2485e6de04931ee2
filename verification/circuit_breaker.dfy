/** The circuit breaker that guards external dependencies, over sequential traces. */
module CircuitBreakerModule {
  import opened Common

  datatype CircuitState = Closed | Open | HalfOpen

  datatype Config = Config(failureThreshold: nat, successThreshold: nat, resetTimeout: nat)

  datatype Breaker = Breaker(state: CircuitState, failureCount: nat, successCount: nat, openedAt: Option<nat>)

  /** A call of the breaker, with the clock at that moment. */
  datatype Event = Request(now: nat) | Succeeded(now: nat) | Failed(now: nat)

  const FRESH := Breaker(Closed, 0, 0, None)

  function Transition(b: Breaker, newState: CircuitState, now: nat): Breaker {
    if b.state == newState then b
    else match newState
      case Closed => Breaker(Closed, 0, 0, None)
      case Open => Breaker(Open, b.failureCount, 0, Some(now))
      case HalfOpen => Breaker(HalfOpen, b.failureCount, 0, b.openedAt)
  }

  /** The reset timeout has passed since the opening. */
  predicate Rested(c: Config, b: Breaker, now: nat) {
    b.openedAt.Some? && now >= b.openedAt.value + c.resetTimeout
  }

  predicate Allows(c: Config, b: Breaker, now: nat) {
    b.state != Open || Rested(c, b, now)
  }

  function Step(c: Config, b: Breaker, e: Event): Breaker {
    match e
    case Request(now) =>
      if b.state == Open && Rested(c, b, now) then Transition(b, HalfOpen, now) else b
    case Succeeded(now) =>
      (match b.state
       case Closed => b.(failureCount := 0)
       case HalfOpen =>
         var counted := b.(successCount := b.successCount + 1);
         if counted.successCount >= c.successThreshold then Transition(counted, Closed, now) else counted
       case Open => b)
    case Failed(now) =>
      (match b.state
       case Closed =>
         var counted := b.(failureCount := b.failureCount + 1);
         if counted.failureCount >= c.failureThreshold then Transition(counted, Open, now) else counted
       case HalfOpen => Transition(b, Open, now)
       case Open => b)
  }

  class CircuitBreaker {
    const config: Config
    var state: CircuitState
    var failureCount: nat
    var successCount: nat
    var openedAt: Option<nat>

    constructor (config: Config)
      ensures this.config == config && Value() == FRESH
    {
      this.config := config;
      state, failureCount, successCount, openedAt := Closed, 0, 0, None;
    }

    ghost function Value(): Breaker
      reads this
    {
      Breaker(state, failureCount, successCount, openedAt)
    }

    method AllowRequest(now: nat) returns (allowed: bool)
      modifies this
      ensures Value() == Step(config, old(Value()), Request(now))
      ensures allowed == Allows(config, old(Value()), now)
      ensures old(state) != Open ==> allowed && Value() == old(Value())
      ensures old(state) == Open ==>
                (allowed <==> old(openedAt).Some? && now >= old(openedAt).value + config.resetTimeout)
      ensures old(state) == Open ==>
                Value() == if allowed then Breaker(HalfOpen, old(failureCount), 0, old(openedAt)) else old(Value())
    {
      match state {
        case Closed => allowed := true;
        case HalfOpen => allowed := true;
        case Open =>
          if openedAt.Some? && now >= openedAt.value + config.resetTimeout {
            TransitionTo(HalfOpen, now);
            return true;
          }
          allowed := false;
      }
    }

    method RecordSuccess(now: nat)
      modifies this
      ensures Value() == Step(config, old(Value()), Succeeded(now))
      ensures old(state) == Closed ==> Value() == old(Value()).(failureCount := 0)
      ensures old(state) == HalfOpen ==>
                Value() == if old(successCount) + 1 >= config.successThreshold then Breaker(Closed, 0, 0, None)
                           else old(Value()).(successCount := old(successCount) + 1)
      ensures old(state) == Open ==> Value() == old(Value())
    {
      match state {
        case Closed => failureCount := 0;
        case HalfOpen =>
          successCount := successCount + 1;
          if successCount >= config.successThreshold {
            TransitionTo(Closed, now);
          }
        case Open =>
      }
    }

    method RecordFailure(now: nat)
      modifies this
      ensures Value() == Step(config, old(Value()), Failed(now))
      ensures old(state) == Closed ==>
                Value() == if old(failureCount) + 1 >= config.failureThreshold
                           then Breaker(Open, old(failureCount) + 1, 0, Some(now))
                           else old(Value()).(failureCount := old(failureCount) + 1)
      ensures old(state) == HalfOpen ==> Value() == Breaker(Open, old(failureCount), 0, Some(now))
      ensures old(state) == Open ==> Value() == old(Value())
    {
      match state {
        case Closed =>
          failureCount := failureCount + 1;
          if failureCount >= config.failureThreshold {
            TransitionTo(Open, now);
          }
        case HalfOpen => TransitionTo(Open, now);
        case Open =>
      }
    }

    method TransitionTo(newState: CircuitState, now: nat)
      modifies this
      ensures Value() == Transition(old(Value()), newState, now)
    {
      if state == newState {
        return;
      }
      state := newState;
      match newState {
        case Closed => failureCount, successCount, openedAt := 0, 0, None;
        case Open => successCount, openedAt := 0, Some(now);
        case HalfOpen => successCount := 0;
      }
    }
  }

  // ---- Traces ----

  function Run(c: Config, b: Breaker, trace: seq<Event>): Breaker {
    if trace == [] then b else Step(c, Run(c, b, trace[..|trace| - 1]), trace[|trace| - 1])
  }

  /** The failures reported since the last reported success. */
  function TrailingFailures(trace: seq<Event>): nat {
    if trace == [] || trace[|trace| - 1].Succeeded? then 0
    else TrailingFailures(trace[..|trace| - 1]) + if trace[|trace| - 1].Failed? then 1 else 0
  }

  /** The number of failures in a row that opens the breaker. */
  function Limit(c: Config): (n: nat)
    ensures n >= 1
  {
    if c.failureThreshold == 0 then 1 else c.failureThreshold
  }

  /** While Closed the count is exactly the failures since the last success, and below the limit; Open
      always knows when it opened. */
  lemma {:induction false} ClosedCountsTrailingFailures(c: Config, trace: seq<Event>)
    ensures var b := Run(c, FRESH, trace);
            && (b.state == Closed ==> b.failureCount == TrailingFailures(trace) < Limit(c))
            && (b.state == Open ==> b.openedAt.Some?)
  {
    if trace != [] {
      ClosedCountsTrailingFailures(c, trace[..|trace| - 1]);
    }
  }

  /** From Closed the breaker opens on an event exactly when that makes the failures in a row reach the limit. */
  lemma {:induction false} OpensExactlyAtLimit(c: Config, trace: seq<Event>, e: Event)
    requires Run(c, FRESH, trace).state == Closed
    ensures var b := Run(c, FRESH, trace + [e]);
            && (b.state == Open <==> TrailingFailures(trace + [e]) == Limit(c))
            && (b.state == Open || b.state == Closed)
            && (b.state == Open ==> b.openedAt == Some(e.now))
  {
    ClosedCountsTrailingFailures(c, trace);
    assert (trace + [e])[..|trace|] == trace;
  }

  /** Nothing that happens before the timeout has passed closes an open breaker or lets a request through;
      the first request after it does. */
  lemma {:induction false} OpenUntilTimeout(c: Config, b: Breaker, trace: seq<Event>, now: nat)
    requires b.state == Open && b.openedAt.Some?
    requires forall e | e in trace :: e.now < b.openedAt.value + c.resetTimeout
    ensures Run(c, b, trace) == b
    ensures Allows(c, Run(c, b, trace), now) <==> now >= b.openedAt.value + c.resetTimeout
    ensures Allows(c, Run(c, b, trace), now) <==> Step(c, Run(c, b, trace), Request(now)).state == HalfOpen
  {
    if trace != [] {
      assert forall e | e in trace[..|trace| - 1] :: e in trace;
      OpenUntilTimeout(c, b, trace[..|trace| - 1], now);
      assert trace[|trace| - 1] in trace;
    }
  }

  lemma {:induction false} RunSplits(c: Config, b: Breaker, s: seq<Event>, t: seq<Event>)
    ensures Run(c, b, s + t) == Run(c, Run(c, b, s), t)
  {
    if t == [] {
      assert s + t == s;
    } else {
      assert (s + t)[..|s + t| - 1] == s + t[..|t| - 1];
      RunSplits(c, b, s, t[..|t| - 1]);
    }
  }

  ghost predicate Ordered(trace: seq<Event>) {
    forall i, j | 0 <= i <= j < |trace| :: trace[i].now <= trace[j].now
  }

  /** Over a whole trace with a clock that never goes back: after an event that opens the breaker, no
      request is allowed while the clock is within the timeout of that event. */
  lemma {:induction false} NoRequestBeforeTimeout(c: Config, before: seq<Event>, opening: Event, after: seq<Event>,
      now: nat)
    requires Ordered(before + [opening] + after + [Request(now)])
    requires Run(c, FRESH, before).state != Open && Run(c, FRESH, before + [opening]).state == Open
    requires now < opening.now + c.resetTimeout
    ensures var b := Run(c, FRESH, before + [opening] + after);
            b.state == Open && !Allows(c, b, now)
  {
    var all := before + [opening] + after + [Request(now)];
    var tripped := Run(c, FRESH, before + [opening]);
    assert (before + [opening])[..|before|] == before;
    assert tripped.openedAt == Some(opening.now);
    forall e | e in after ensures e.now <= now {
      var i :| 0 <= i < |after| && after[i] == e;
      assert all[|before| + 1 + i] == e && all[|all| - 1] == Request(now);
    }
    RunSplits(c, FRESH, before + [opening], after);
    OpenUntilTimeout(c, tripped, after, now);
  }

  /** The clock at the last event that opened the breaker. */
  function LastOpening(c: Config, trace: seq<Event>): Option<nat> {
    if trace == [] then None
    else
      var front, last := trace[..|trace| - 1], trace[|trace| - 1];
      if Run(c, FRESH, front).state != Open && Run(c, FRESH, trace).state == Open then Some(last.now)
      else LastOpening(c, front)
  }

  lemma {:induction false} OpenedAtLastOpening(c: Config, trace: seq<Event>)
    ensures var b := Run(c, FRESH, trace);
            b.state == Open ==> b.openedAt.Some? && b.openedAt == LastOpening(c, trace)
  {
    if trace != [] {
      OpenedAtLastOpening(c, trace[..|trace| - 1]);
    }
  }

  /** After any trace a request is refused exactly when the breaker is open and the timeout since it last opened has
      not passed. */
  lemma {:induction false} RefusedIff(c: Config, trace: seq<Event>, now: nat)
    ensures var b := Run(c, FRESH, trace);
            && (b.state == Open ==> LastOpening(c, trace).Some?)
            && (!Allows(c, b, now) <==> b.state == Open && now < LastOpening(c, trace).value + c.resetTimeout)
  {
    OpenedAtLastOpening(c, trace);
  }

  /** No prefix of the trace ends in so many failures without a success that the breaker opens. */
  ghost predicate Healthy(c: Config, trace: seq<Event>) {
    forall n | 0 <= n <= |trace| :: TrailingFailures(trace[..n]) < Limit(c)
  }

  /** A breaker stays closed through a whole trace exactly when the trace is healthy, and then every request in it and
      after it passes. */
  lemma {:induction false} HealthyIffClosed(c: Config, trace: seq<Event>, now: nat)
    ensures Healthy(c, trace) <==> forall n | 0 <= n <= |trace| :: Run(c, FRESH, trace[..n]).state == Closed
    ensures Healthy(c, trace) ==> forall n | 0 <= n <= |trace| :: Allows(c, Run(c, FRESH, trace[..n]), now)
  {
    forall n | 0 <= n <= |trace| && Run(c, FRESH, trace[..n]).state == Closed
      ensures TrailingFailures(trace[..n]) < Limit(c)
    {
      ClosedCountsTrailingFailures(c, trace[..n]);
    }
    if Healthy(c, trace) {
      forall n | 0 <= n <= |trace| ensures Run(c, FRESH, trace[..n]).state == Closed {
        HealthyStaysClosed(c, trace, n);
      }
    }
  }

  lemma {:induction false} HealthyStaysClosed(c: Config, trace: seq<Event>, n: nat)
    requires Healthy(c, trace) && n <= |trace|
    ensures Run(c, FRESH, trace[..n]).state == Closed
  {
    if n > 0 {
      HealthyStaysClosed(c, trace, n - 1);
      assert trace[..n] == trace[..n - 1] + [trace[n - 1]];
      OpensExactlyAtLimit(c, trace[..n - 1], trace[n - 1]);
      assert TrailingFailures(trace[..n]) < Limit(c);
    }
  }

  ghost predicate NothingFailed(trace: seq<Event>) {
    forall e | e in trace :: !e.Failed?
  }

  function Successes(trace: seq<Event>): nat {
    if trace == [] then 0
    else Successes(trace[..|trace| - 1]) + if trace[|trace| - 1].Succeeded? then 1 else 0
  }

  /** The number of successes in a row that closes a half-open breaker. */
  function Quota(c: Config): (n: nat)
    ensures n >= 1
  {
    if c.successThreshold == 0 then 1 else c.successThreshold
  }

  /** A breaker that let its first request through after the timeout closes exactly when the quota of successes has
      come without a failure, with any requests in between, and starts over with no failures counted; one failure
      before that opens it again for a whole timeout. */
  lemma {:induction false} RecoversExactlyAtQuota(c: Config, b: Breaker, trace: seq<Event>, now: nat)
    requires b.state == HalfOpen && b.successCount == 0 && NothingFailed(trace)
    ensures var r, n := Run(c, b, trace), Successes(trace);
            && (r.state == Closed <==> n >= Quota(c))
            && (r.state == Closed ==> r == FRESH)
            && (n < Quota(c) ==> r == b.(successCount := n))
            && (n < Quota(c) ==> Step(c, r, Failed(now)) == Breaker(Open, b.failureCount, 0, Some(now)))
  {
    if trace != [] {
      var n := |trace| - 1;
      assert trace[n] in trace && forall e | e in trace[..n] :: e in trace;
      RecoversExactlyAtQuota(c, b, trace[..n], now);
    }
  }
}
