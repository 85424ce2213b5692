/** The retry loop around one req/resp exchange, which must never send the request twice. */
module Retry {

  const ATTEMPTS: nat := 3

  /** How far an exchange on a fresh session gets, and whether its error is one of the retryable connection errors. */
  datatype Exchange =
    | StreamFailed(retryable: bool)
    | HookFailed(retryable: bool)
    | Sent(ok: bool, retryable: bool)

  /** Everything the environment decides about one attempt. */
  datatype Attempt = Attempt(connected: bool, connectRetryable: bool, warm: bool, exchange: Exchange, sleepDone: bool)

  type Environment = nat -> Attempt

  datatype Outcome = Response | ConnectError | WarmupError | ExchangeError | Cancelled | LastError

  datatype Event =
    | Connect(attempt: nat)
    | Warmup(attempt: nat)
    | Open(attempt: nat)
    | Send(attempt: nat)
    | Sleep(attempt: nat)

  datatype Run = Run(outcome: Outcome, trace: seq<Event>) {
    function After(events: seq<Event>): Run { Run(outcome, events + trace) }
  }

  datatype Step = Stop(outcome: Outcome, events: seq<Event>) | Again(events: seq<Event>)

  /** consensusRetrySleep: a pause that the context may cut short. */
  function Pause(a: Attempt, n: nat, events: seq<Event>): Step
  {
    if a.sleepDone then Again(events + [Sleep(n)]) else Stop(Cancelled, events + [Sleep(n)])
  }

  /** Attempt number `n`, before which nothing has been sent. */
  function Once(a: Attempt, handshake: bool, n: nat): Step
  {
    if !a.connected then
      if n + 1 == ATTEMPTS || !a.connectRetryable then Stop(ConnectError, [Connect(n)]) else Pause(a, n, [Connect(n)])
    else if handshake && !a.warm then Stop(WarmupError, [Connect(n), Warmup(n)])
    else
      var begun := if handshake then [Connect(n), Warmup(n), Open(n)] else [Connect(n), Open(n)];
      if a.exchange.Sent? then Stop(if a.exchange.ok then Response else ExchangeError, begun + [Send(n)])
      else if n + 1 == ATTEMPTS || !a.exchange.retryable then Stop(ExchangeError, begun)
      else Pause(a, n, begun)
  }

  /** The run from attempt `n` on. */
  function Attempts(env: Environment, handshake: bool, n: nat): Run
    requires n <= ATTEMPTS
    decreases ATTEMPTS - n
  {
    if n == ATTEMPTS then Run(LastError, [])
    else
      match Once(env(n), handshake, n)
      case Stop(outcome, events) => Run(outcome, events)
      case Again(events) => Attempts(env, handshake, n + 1).After(events)
  }

  /** The last attempt that a run made. */
  function LastAttempt(trace: seq<Event>): nat
    requires trace != []
  {
    trace[|trace| - 1].attempt
  }

  /** The session of this attempt came up, with its warmup if one was asked for. */
  predicate Ready(a: Attempt, handshake: bool) { a.connected && (handshake ==> a.warm) }

  /** The attempt failed before sending, in a way that may be retried. */
  predicate Retryable(a: Attempt, handshake: bool)
  {
    if !a.connected then a.connectRetryable else Ready(a, handshake) && !a.exchange.Sent? && a.exchange.retryable
  }

  /** What attempt `k`, the last one, says about the outcome. */
  ghost predicate Explains(a: Attempt, handshake: bool, k: nat, outcome: Outcome)
  {
    && k <= 2 && outcome != LastError
    && (outcome == Response <==> Ready(a, handshake) && a.exchange.Sent? && a.exchange.ok)
    && (outcome == ConnectError <==> !a.connected && (k == 2 || !a.connectRetryable))
    && (outcome == WarmupError <==> a.connected && handshake && !a.warm)
    && (outcome == ExchangeError <==>
          Ready(a, handshake) && if a.exchange.Sent? then !a.exchange.ok else k == 2 || !a.exchange.retryable)
    && (outcome == Cancelled <==> k < 2 && Retryable(a, handshake) && !a.sleepDone)
  }

  /** Every attempt before the last one may be retried, and was paused for. */
  ghost predicate RetriedUpTo(env: Environment, handshake: bool, from: nat, k: nat)
  {
    forall j :: from <= j < k ==> Retryable(env(j), handshake) && env(j).sleepDone
  }

  method Request(env: Environment, handshake: bool) returns (outcome: Outcome, ghost trace: seq<Event>)
    ensures Run(outcome, trace) == Attempts(env, handshake, 0)
    ensures trace != [] && Explains(env(LastAttempt(trace)), handshake, LastAttempt(trace), outcome)
    ensures RetriedUpTo(env, handshake, 0, LastAttempt(trace))
  {
    OutcomeIff(env, handshake, 0);
    var sendAttempted := false;
    trace := [];
    for attempt := 0 to ATTEMPTS
      invariant !sendAttempted
      invariant Attempts(env, handshake, attempt).After(trace) == Attempts(env, handshake, 0)
    {
      var again: bool;
      ghost var events: seq<Event>;
      again, outcome, sendAttempted, events := Try(env(attempt), handshake, attempt);
      if !again { return outcome, trace + events; }
      Regroup(Attempts(env, handshake, attempt + 1), trace, events);
      trace := trace + events;
    }
    return LastError, trace;
  }

  /** The body of the loop, entered while nothing has been sent. */
  method Try(a: Attempt, handshake: bool, attempt: nat)
    returns (again: bool, outcome: Outcome, sendAttempted: bool, ghost events: seq<Event>)
    ensures Once(a, handshake, attempt) == if again then Again(events) else Stop(outcome, events)
    ensures again ==> !sendAttempted
  {
    again, sendAttempted := false, false;
    events := [Connect(attempt)];
    if !a.connected {
      if attempt + 1 == ATTEMPTS || !a.connectRetryable {
        return false, ConnectError, sendAttempted, events;
      }
    } else {
      if handshake {
        events := events + [Warmup(attempt)];
        if !a.warm {
          return false, WarmupError, sendAttempted, events;
        }
      }
      events := events + [Open(attempt)];
      if a.exchange.Sent? {
        sendAttempted := true;
        events := events + [Send(attempt)];
      }
      var ok := a.exchange.Sent? && a.exchange.ok;
      if ok || sendAttempted || attempt + 1 == ATTEMPTS || !a.exchange.retryable {
        return false, if ok then Response else ExchangeError, sendAttempted, events;
      }
    }
    events := events + [Sleep(attempt)];
    return a.sleepDone, Cancelled, sendAttempted, events;
  }

  lemma {:induction false} Regroup(r: Run, before: seq<Event>, events: seq<Event>)
    ensures r.After(events).After(before) == r.After(before + events)
  {
    assert before + (events + r.trace) == (before + events) + r.trace;
  }

  /** Once the request has been sent, no later event connects or sends again. */
  ghost predicate SendsLast(trace: seq<Event>)
  {
    forall i, j :: 0 <= i < j < |trace| && trace[i].Send? ==> !trace[j].Connect? && !trace[j].Send?
  }

  ghost predicate InRange(trace: seq<Event>, low: nat)
  {
    forall i :: 0 <= i < |trace| ==> low <= trace[i].attempt < 3
  }

  /** Each attempt connects once, in order. */
  ghost predicate ConnectsOnce(trace: seq<Event>)
  {
    forall i, j :: 0 <= i < j < |trace| && trace[i].Connect? && trace[j].Connect? ==>
      trace[i].attempt < trace[j].attempt
  }

  /** What one attempt may leave in the trace; only its last event can be the send. */
  ghost predicate OneAttempt(events: seq<Event>, n: nat)
  {
    && events != [] && events[0] == Connect(n)
    && (forall i :: 0 <= i < |events| ==> events[i].attempt == n)
    && (forall i :: 0 < i < |events| ==> !events[i].Connect?)
    && (forall i :: 0 <= i < |events| - 1 ==> !events[i].Send?)
  }

  lemma {:induction false} OnceIsOneAttempt(a: Attempt, handshake: bool, n: nat)
    ensures var step := Once(a, handshake, n);
      && OneAttempt(step.events, n)
      && (step.Again? ==> n + 1 != ATTEMPTS && !step.events[|step.events| - 1].Send?)
      && (step.Stop? ==> step.outcome != LastError)
  {
  }

  lemma {:induction false} JoinTraces(events: seq<Event>, tail: seq<Event>, n: nat)
    requires n < ATTEMPTS && OneAttempt(events, n) && !events[|events| - 1].Send?
    requires SendsLast(tail) && InRange(tail, n + 1) && ConnectsOnce(tail)
    ensures SendsLast(events + tail) && InRange(events + tail, n) && ConnectsOnce(events + tail)
  {
  }

  /**
   * In every environment: attempts are numbered below three and connect once each, the request is sent at most once,
   * a new attempt starts only while nothing has been sent, and the final `return nil, lastErr` is never reached.
   */
  lemma {:induction false} SentAtMostOnce(env: Environment, handshake: bool, n: nat)
    requires n < ATTEMPTS
    ensures var r := Attempts(env, handshake, n);
      SendsLast(r.trace) && InRange(r.trace, n) && ConnectsOnce(r.trace) && r.outcome != LastError
    decreases ATTEMPTS - n
  {
    OnceIsOneAttempt(env(n), handshake, n);
    match Once(env(n), handshake, n)
    case Stop(_, _) =>
    case Again(events) =>
      SentAtMostOnce(env, handshake, n + 1);
      JoinTraces(events, Attempts(env, handshake, n + 1).trace, n);
  }

  /** The attempt failed retryably before sending, and the pause after it was not cut short. */
  predicate Retries(a: Attempt, handshake: bool) { Retryable(a, handshake) && a.sleepDone }

  lemma {:induction false} StartsWithConnect(env: Environment, handshake: bool, n: nat)
    requires n < ATTEMPTS
    ensures var t := Attempts(env, handshake, n).trace; t != [] && t[0] == Connect(n)
  {
    OnceIsOneAttempt(env(n), handshake, n);
  }

  /** Another attempt is made exactly when the one before it failed retryably without sending anything. */
  lemma {:induction false} RetriedIff(env: Environment, handshake: bool, n: nat)
    requires n + 1 < ATTEMPTS
    ensures Connect(n + 1) in Attempts(env, handshake, n).trace <==> Retries(env(n), handshake)
  {
    var step, tail := Once(env(n), handshake, n), Attempts(env, handshake, n + 1).trace;
    OnceIsOneAttempt(env(n), handshake, n);
    StartsWithConnect(env, handshake, n + 1);
    assert step.Again? <==> Retries(env(n), handshake);
    assert Connect(n + 1) !in step.events;
    assert tail[0] in tail;
  }

  /** The outcome of every run is decided by its last attempt, and each attempt before that one was retried. */
  lemma {:induction false} OutcomeIff(env: Environment, handshake: bool, n: nat)
    requires n < 3
    ensures var r := Attempts(env, handshake, n);
      && r.trace != [] && n <= LastAttempt(r.trace)
      && Explains(env(LastAttempt(r.trace)), handshake, LastAttempt(r.trace), r.outcome)
      && RetriedUpTo(env, handshake, n, LastAttempt(r.trace))
    decreases 3 - n
  {
    OnceIsOneAttempt(env(n), handshake, n);
    OnceExplains(env(n), handshake, n);
    if Once(env(n), handshake, n).Again? { OutcomeIff(env, handshake, n + 1); }
  }

  lemma {:induction false} OnceExplains(a: Attempt, handshake: bool, n: nat)
    requires n < 3
    ensures var step := Once(a, handshake, n);
      if step.Stop? then Explains(a, handshake, n, step.outcome)
      else n < 2 && Retryable(a, handshake) && a.sleepDone
  {
  }

  /** What one attempt does: connect, warm up if asked to, open the stream, send, and pause before another attempt. */
  lemma {:induction false} EventsOfAttempt(a: Attempt, handshake: bool, n: nat)
    requires n < 3
    ensures Once(a, handshake, n).events ==
      [Connect(n)]
      + (if a.connected && handshake then [Warmup(n)] else [])
      + (if Ready(a, handshake) then [Open(n)] else [])
      + (if Ready(a, handshake) && a.exchange.Sent? then [Send(n)] else [])
      + (if n < 2 && Retryable(a, handshake) then [Sleep(n)] else [])
  {
  }

  /** The request is sent exactly when the last attempt got that far, and nothing follows in the trace. */
  lemma {:induction false} SentIff(env: Environment, handshake: bool, n: nat)
    requires n < 3
    ensures var t := Attempts(env, handshake, n).trace;
      t != [] && (t[|t| - 1].Send? <==> Ready(env(LastAttempt(t)), handshake) && env(LastAttempt(t)).exchange.Sent?)
    decreases 3 - n
  {
    OnceIsOneAttempt(env(n), handshake, n);
    match Once(env(n), handshake, n)
    case Again(_) => SentIff(env, handshake, n + 1);
    case Stop(_, _) => StopSends(env(n), handshake, n);
  }

  lemma {:induction false} StopSends(a: Attempt, handshake: bool, n: nat)
    requires n < 3 && Once(a, handshake, n).Stop?
    ensures var events := Once(a, handshake, n).events;
      && events != [] && events[|events| - 1].attempt == n
      && (events[|events| - 1].Send? <==> Ready(a, handshake) && a.exchange.Sent?)
  {
  }
}
