/** The circuit breaker in front of Redis and the wrapper that routes calls through it.

    The breaker stores three fields and moves from OPEN to HALF_OPEN lazily, when its state is
    read.  The specification has no fields at all: `PhaseAt` reads the phase off the history of
    successes, failures and resets. */
module CircuitBreaking {
  import opened Options

  datatype Phase = Closed | Open | HalfOpen

  datatype Event =
    | Success(at: real)
    | Failure(at: real)
    | Reset(at: real)

  /** Failures since the last success or reset. */
  function FailureStreak(h: seq<Event>): nat {
    if h == [] || !h[|h| - 1].Failure? then 0 else FailureStreak(h[..|h| - 1]) + 1
  }

  /** The streak at which the breaker opens.  It is looked at only when a failure is counted, so
      a threshold below one behaves like one. */
  function Limit(threshold: int): int {
    if threshold < 1 then 1 else threshold
  }

  function PhaseAt(h: seq<Event>, threshold: int, cooldown: real, now: real): Phase {
    if FailureStreak(h) < Limit(threshold) then Closed
    else if now - h[|h| - 1].at >= cooldown then HalfOpen
    else Open
  }

  /** The streak is what its name says: it reaches `n` exactly when the last `n` events are all failures. */
  lemma {:induction false} StreakMeaning(h: seq<Event>, n: nat)
    ensures FailureStreak(h) >= n <==> n <= |h| && forall i :: |h| - n <= i < |h| ==> h[i].Failure?
  {
    if n > 0 && h != [] {
      var prefix := h[..|h| - 1];
      StreakMeaning(prefix, n - 1);
      assert forall i :: 0 <= i < |prefix| ==> prefix[i] == h[i];
    }
  }

  /** The last `n` events are failures. */
  ghost predicate EndsInFailures(h: seq<Event>, n: int) {
    0 <= n <= |h| && forall i :: |h| - n <= i < |h| ==> h[i].Failure?
  }

  /** The breaker has left CLOSED when as many failures in a row as the threshold says (at least one)
      end the history, and then it is OPEN until the cooldown has passed since the last of them. */
  lemma PhaseMeaning(h: seq<Event>, threshold: int, cooldown: real, now: real)
    ensures PhaseAt(h, threshold, cooldown, now) == Closed <==> !EndsInFailures(h, Max(1, threshold))
    ensures PhaseAt(h, threshold, cooldown, now) == Open <==>
      EndsInFailures(h, Max(1, threshold)) && now - h[|h| - 1].at < cooldown
  {
    StreakMeaning(h, Max(1, threshold));
  }

  /** One failed probe reopens the breaker, whatever the streak was. */
  lemma ProbeFailureReopens(h: seq<Event>, threshold: int, cooldown: real, now: real, at: real)
    requires PhaseAt(h, threshold, cooldown, now) == HalfOpen && cooldown > 0.0
    ensures PhaseAt(h + [Failure(at)], threshold, cooldown, at) == Open
  {
    assert (h + [Failure(at)])[..|h|] == h;
  }

  class CircuitBreaker {
    const failureThreshold: int
    const cooldownSeconds: real
    var state: Phase
    var failureCount: int
    var openedAt: real
    /** Everything recorded so far, and the latest clock reading. */
    ghost var history: seq<Event>
    ghost var clock: real

    ghost predicate Valid()
      reads this
    {
      && failureCount == FailureStreak(history)
      && (history != [] ==> history[|history| - 1].at <= clock)
      && (state == Closed <==> FailureStreak(history) < Limit(failureThreshold))
      && (state != Closed ==> openedAt == history[|history| - 1].at)
      && (state == HalfOpen ==> clock - openedAt >= cooldownSeconds)
    }

    constructor (failureThreshold: int := 5, cooldownSeconds: real := 30.0)
      ensures Valid() && history == [] && clock == 0.0
      ensures this.failureThreshold == failureThreshold && this.cooldownSeconds == cooldownSeconds
    {
      this.failureThreshold, this.cooldownSeconds := failureThreshold, cooldownSeconds;
      state, failureCount, openedAt := Closed, 0, 0.0;
      history, clock := [], 0.0;
    }

    /** Reading the state moves OPEN to HALF_OPEN once the cooldown is over. */
    method State(now: real) returns (s: Phase)
      requires Valid() && clock <= now
      modifies this
      ensures Valid() && history == old(history) && clock == now
      ensures s == PhaseAt(history, failureThreshold, cooldownSeconds, now)
      ensures s == Closed <==> !EndsInFailures(history, Max(1, failureThreshold))
      ensures s == Open <==>
        EndsInFailures(history, Max(1, failureThreshold)) && now - history[|history| - 1].at < cooldownSeconds
    {
      PhaseMeaning(history, failureThreshold, cooldownSeconds, now);
      clock := now;
      if state == Open {
        if now - openedAt >= cooldownSeconds {
          state := HalfOpen;
        }
      }
      s := state;
    }

    method AllowRequest(now: real) returns (allowed: bool)
      requires Valid() && clock <= now
      modifies this
      ensures Valid() && history == old(history) && clock == now
      ensures allowed <==> PhaseAt(history, failureThreshold, cooldownSeconds, now) != Open
      ensures allowed <==>
        (EndsInFailures(history, Max(1, failureThreshold)) ==> now - history[|history| - 1].at >= cooldownSeconds)
    {
      var s := State(now);
      allowed := s in {Closed, HalfOpen};
    }

    method RecordSuccess(now: real)
      requires Valid() && clock <= now
      modifies this
      ensures Valid() && history == old(history) + [Success(now)] && clock == now
    {
      failureCount := 0;
      state := Closed;
      history, clock := history + [Success(now)], now;
    }

    method RecordFailure(now: real)
      requires Valid() && clock <= now
      modifies this
      ensures Valid() && history == old(history) + [Failure(now)] && clock == now
    {
      assert (history + [Failure(now)])[..|history|] == history;
      failureCount := failureCount + 1;
      history, clock := history + [Failure(now)], now;
      if failureCount >= failureThreshold {
        state := Open;
        openedAt := now;
      }
    }

    method Reset(now: real)
      requires Valid() && clock <= now
      modifies this
      ensures Valid() && history == old(history) + [Event.Reset(now)] && clock == now
    {
      failureCount := 0;
      state := Closed;
      history, clock := history + [Event.Reset(now)], now;
    }
  }

  /** The breaker that all of the process shares. */
  method SharedBreaker() returns (breaker: CircuitBreaker)
    ensures fresh(breaker) && breaker.Valid() && breaker.history == []
    ensures breaker.failureThreshold == 5 && breaker.cooldownSeconds == 30.0
  {
    breaker := new CircuitBreaker();
  }

  /** How Redis answers a call that reaches it.  `OtherError` is any error that is neither a
      connection nor a timeout error. */
  datatype Answer = Replied | Unreachable | OtherError

  datatype Outcome = ShortCircuited | Reached(answer: Answer)

  /** One use of the wrapper: when it began, when it was over, what came of it. */
  datatype Call = Call(start: real, end: real, outcome: Outcome)

  /** What a call leaves in the breaker's history. */
  function Recorded(c: Call): seq<Event> {
    match c.outcome
    case ShortCircuited => []
    case Reached(Replied) => [Success(c.end)]
    case Reached(Unreachable) => [Failure(c.end)]
    case Reached(OtherError) => []
  }

  function HistoryAfter(h0: seq<Event>, calls: seq<Call>): seq<Event> {
    if calls == [] then h0 else HistoryAfter(h0, calls[..|calls| - 1]) + Recorded(calls[|calls| - 1])
  }

  /** A run of sequential calls that starts from history `h0`: each call begins after everything
      before it is over, and Redis is spared exactly the calls that begin while the breaker is open. */
  ghost predicate IsRun(h0: seq<Event>, calls: seq<Call>, threshold: int, cooldown: real) {
    calls == [] ||
    var k := |calls| - 1;
    && IsRun(h0, calls[..k], threshold, cooldown)
    && Follows(calls[..k], calls[k])
    && (calls[k].outcome.ShortCircuited? <==>
        PhaseAt(HistoryAfter(h0, calls[..k]), threshold, cooldown, calls[k].start) == Open)
  }

  ghost predicate Follows(calls: seq<Call>, c: Call) {
    && c.start <= c.end
    && forall j :: 0 <= j < |calls| ==> calls[j].start <= calls[j].end <= c.start
  }

  lemma RunExtends(h0: seq<Event>, calls: seq<Call>, c: Call, threshold: int, cooldown: real)
    requires IsRun(h0, calls, threshold, cooldown) && Follows(calls, c)
    requires c.outcome.ShortCircuited? <==> PhaseAt(HistoryAfter(h0, calls), threshold, cooldown, c.start) == Open
    ensures IsRun(h0, calls + [c], threshold, cooldown)
    ensures HistoryAfter(h0, calls + [c]) == HistoryAfter(h0, calls) + Recorded(c)
  {
    assert (calls + [c])[..|calls|] == calls;
  }

  /** Nothing in `calls` reaches beyond `clock`. */
  ghost predicate OverBy(calls: seq<Call>, clock: real) {
    forall j :: 0 <= j < |calls| ==> calls[j].start <= calls[j].end <= clock
  }

  lemma OverByExtends(calls: seq<Call>, c: Call, clock: real)
    requires OverBy(calls, clock) && clock <= c.start <= c.end
    ensures Follows(calls, c) && OverBy(calls + [c], c.end)
  {
  }

  /** A record of calls that ends by `clock` and has left `history` behind. */
  ghost predicate IsRecord(origin: seq<Event>, calls: seq<Call>, clock: real, history: seq<Event>, threshold: int,
                           cooldown: real) {
    IsRun(origin, calls, threshold, cooldown) && OverBy(calls, clock) && history == HistoryAfter(origin, calls)
  }

  lemma RecordExtends(origin: seq<Event>, calls: seq<Call>, clock: real, history: seq<Event>, threshold: int,
                      cooldown: real, c: Call)
    requires IsRecord(origin, calls, clock, history, threshold, cooldown) && clock <= c.start <= c.end
    requires c.outcome.ShortCircuited? <==> PhaseAt(history, threshold, cooldown, c.start) == Open
    ensures IsRecord(origin, calls + [c], c.end, history + Recorded(c), threshold, cooldown)
  {
    OverByExtends(calls, c, clock);
    RunExtends(origin, calls, c, threshold, cooldown);
  }

  /** `_RedisClientWrapper`.  It keeps the record of its calls as ghost state. */
  class RedisClientWrapper {
    const breaker: CircuitBreaker
    ghost const origin: seq<Event>
    ghost var calls: seq<Call>
    ghost var clock: real

    ghost predicate Valid()
      reads this, breaker
    {
      && breaker.Valid() && breaker.clock <= clock
      && IsRecord(origin, calls, clock, breaker.history, breaker.failureThreshold, breaker.cooldownSeconds)
    }

    constructor (breaker: CircuitBreaker)
      requires breaker.Valid()
      ensures Valid() && this.breaker == breaker && calls == [] && origin == breaker.history
    {
      this.breaker := breaker;
      origin, calls, clock := breaker.history, [], breaker.clock;
    }

    /** `_call`.  The answer is what Redis would do if the call got through. */
    method Invoke(answer: Answer, start: real, end: real) returns (outcome: Outcome)
      requires Valid() && clock <= start <= end
      modifies this, breaker
      ensures Valid() && clock == end
      ensures outcome == ShortCircuited || outcome == Reached(answer)
      ensures outcome == ShortCircuited <==>
        && EndsInFailures(old(breaker.history), Max(1, breaker.failureThreshold))
        && start - old(breaker.history)[|old(breaker.history)| - 1].at < breaker.cooldownSeconds
      ensures calls == old(calls) + [Call(start, end, outcome)]
      ensures breaker.history ==
        if outcome == Reached(Replied) then old(breaker.history) + [Success(end)]
        else if outcome == Reached(Unreachable) then old(breaker.history) + [Failure(end)]
        else old(breaker.history)
    {
      ghost var before := breaker.history;
      PhaseMeaning(before, breaker.failureThreshold, breaker.cooldownSeconds, start);
      var allowed := breaker.AllowRequest(start);
      if allowed {
        outcome := Reached(answer);
        if answer == Replied {
          breaker.RecordSuccess(end);
        } else if answer == Unreachable {
          breaker.RecordFailure(end);
        }
      } else {
        outcome := ShortCircuited;
      }
      RecordExtends(origin, calls, clock, before, breaker.failureThreshold, breaker.cooldownSeconds,
                    Call(start, end, outcome));
      calls, clock := calls + [Call(start, end, outcome)], end;
    }
  }

  /** The breaker recovers by itself: whatever has happened, a call that begins a cooldown after the
      last event gets through, and if Redis replies the breaker is closed from then on. */
  lemma Recovers(h0: seq<Event>, before: seq<Call>, c: Call, threshold: int, cooldown: real, now: real)
    requires IsRun(h0, before + [c], threshold, cooldown)
    requires var h := HistoryAfter(h0, before); h != [] ==> c.start >= h[|h| - 1].at + cooldown
    ensures c.outcome.Reached?
    ensures c.outcome.answer == Replied ==> PhaseAt(HistoryAfter(h0, before + [c]), threshold, cooldown, now) == Closed
  {
    assert (before + [c])[..|before|] == before;
  }

  // ---------- An outage ----------

  /** Every attempt fails. */
  ghost predicate Outage(calls: seq<Call>) {
    forall k :: 0 <= k < |calls| && calls[k].outcome.Reached? ==> calls[k].outcome.answer == Unreachable
  }

  function Attempts(calls: seq<Call>): nat {
    if calls == [] then 0
    else Attempts(calls[..|calls| - 1]) + if calls[|calls| - 1].outcome.Reached? then 1 else 0
  }

  lemma {:induction false} HistorySplits(h0: seq<Event>, a: seq<Call>, b: seq<Call>)
    ensures HistoryAfter(h0, a + b) == HistoryAfter(HistoryAfter(h0, a), b)
  {
    if b == [] {
      assert a + b == a;
    } else {
      HistorySplits(h0, a, b[..|b| - 1]);
      assert (a + b)[..|a + b| - 1] == a + b[..|b| - 1];
    }
  }

  lemma FollowsSuffix(a: seq<Call>, b: seq<Call>, c: Call)
    requires Follows(a + b, c)
    ensures Follows(b, c)
  {
    assert forall j :: 0 <= j < |b| ==> b[j] == (a + b)[|a| + j];
  }

  /** Any stretch of a run is itself a run, from the history at which it begins. */
  lemma {:induction false} RunSplits(h0: seq<Event>, a: seq<Call>, b: seq<Call>, threshold: int, cooldown: real)
    requires IsRun(h0, a + b, threshold, cooldown)
    ensures IsRun(h0, a, threshold, cooldown) && IsRun(HistoryAfter(h0, a), b, threshold, cooldown)
  {
    if b == [] {
      assert a + b == a;
    } else {
      var b' := b[..|b| - 1];
      assert (a + b)[..|a + b| - 1] == a + b';
      RunSplits(h0, a, b', threshold, cooldown);
      HistorySplits(h0, a, b');
      FollowsSuffix(a, b', b[|b| - 1]);
    }
  }

  /** During an outage every attempt lengthens the streak, and the latest event is the latest attempt's failure. */
  lemma {:induction false} OutageHistory(h0: seq<Event>, calls: seq<Call>)
    requires Outage(calls)
    ensures FailureStreak(HistoryAfter(h0, calls)) == FailureStreak(h0) + Attempts(calls)
    ensures Attempts(calls) > 0 ==> HistoryAfter(h0, calls) != []
  {
    if calls == [] {
    } else {
      var k := |calls| - 1;
      OutageHistory(h0, calls[..k]);
      var h := HistoryAfter(h0, calls[..k]);
      if calls[k].outcome.Reached? {
        assert (h + [Failure(calls[k].end)])[..|h|] == h;
      } else {
        assert h + [] == h;
      }
    }
  }

  ghost predicate InOrder(calls: seq<Call>) {
    forall i, j :: 0 <= i <= j < |calls| ==> calls[i].end <= calls[j].end
  }

  lemma {:induction false} EndsInOrder(h0: seq<Event>, calls: seq<Call>, threshold: int, cooldown: real, i: nat, j: nat)
    requires IsRun(h0, calls, threshold, cooldown) && i < j < |calls|
    ensures calls[i].end <= calls[j].end
  {
    var k := |calls| - 1;
    if j == k {
      assert Follows(calls[..k], calls[k]) && calls[..k][i] == calls[i];
    } else {
      EndsInOrder(h0, calls[..k], threshold, cooldown, i, j);
    }
  }

  lemma RunInOrder(h0: seq<Event>, calls: seq<Call>, threshold: int, cooldown: real)
    requires IsRun(h0, calls, threshold, cooldown)
    ensures InOrder(calls)
  {
    forall i, j | 0 <= i < j < |calls|
      ensures calls[i].end <= calls[j].end
    {
      EndsInOrder(h0, calls, threshold, cooldown, i, j);
    }
  }

  /** The latest failure recorded in an outage is no earlier than the end of any of its attempts. */
  lemma {:induction false} LatestFailure(h0: seq<Event>, calls: seq<Call>, p: nat)
    requires InOrder(calls) && Outage(calls)
    requires p < |calls| && calls[p].outcome.Reached?
    ensures var h := HistoryAfter(h0, calls); h != [] && h[|h| - 1].at >= calls[p].end
  {
    var k := |calls| - 1;
    var h := HistoryAfter(h0, calls[..k]);
    if calls[k].outcome.Reached? {
      assert HistoryAfter(h0, calls) == h + [Failure(calls[k].end)];
    } else {
      assert h + [] == h;
      LatestFailure(h0, calls[..k], p);
    }
  }

  /** Once the breaker has opened, an attempt in an outage begins at least the cooldown after every
      earlier attempt is over. */
  lemma AttemptsSpaced(h0: seq<Event>, before: seq<Call>, c: Call, threshold: int, cooldown: real, p: nat)
    requires IsRun(h0, before + [c], threshold, cooldown) && Outage(before)
    requires p < |before| && before[p].outcome.Reached? && c.outcome.Reached?
    requires PhaseAt(HistoryAfter(h0, before), threshold, cooldown, c.start) != Closed
    ensures c.start >= before[p].end + cooldown
  {
    assert (before + [c])[..|before|] == before;
    RunInOrder(h0, before, threshold, cooldown);
    LatestFailure(h0, before, p);
  }

  function Times(n: nat, x: real): real {
    if n == 0 then 0.0 else Times(n - 1, x) + x
  }

  lemma {:induction false} TimesIsProduct(n: nat, x: real)
    ensures Times(n, x) == n as real * x
  {
    if n == 0 {
    } else {
      TimesIsProduct(n - 1, x);
      assert n as real * x == (n - 1) as real * x + x;
    }
  }

  lemma NextAttempt(h0: seq<Event>, before: seq<Call>, c: Call, threshold: int, cooldown: real, p: nat)
    requires IsRun(h0, before, threshold, cooldown) && Follows(before, c) && Outage(before)
    requires c.outcome.Reached? && PhaseAt(HistoryAfter(h0, before), threshold, cooldown, c.start) != Open
    requires Attempts(before) >= Limit(threshold) && p < |before| && before[p].outcome.Reached?
    ensures c.start >= before[p].start + cooldown
  {
    OutageHistory(h0, before);
    RunExtends(h0, before, c, threshold, cooldown);
    AttemptsSpaced(h0, before, c, threshold, cooldown, p);
  }

  /** In a run that is all outage, attempts beyond the threshold cost a cooldown each. */
  lemma {:induction false} OutageCost(h0: seq<Event>, calls: seq<Call>, threshold: int, cooldown: real)
      returns (last: nat)
    requires IsRun(h0, calls, threshold, cooldown) && Outage(calls) && Attempts(calls) >= Limit(threshold)
    ensures last < |calls| && calls[last].outcome.Reached?
    ensures Times(Attempts(calls) - Limit(threshold), cooldown) <= calls[last].start - calls[0].start
  {
    var k := |calls| - 1;
    var rest := calls[..k];
    if Attempts(rest) < Limit(threshold) {
      last := k;
      assert k > 0 ==> rest[0].start <= calls[k].start;
    } else {
      last := OutageCost(h0, rest, threshold, cooldown);
      if calls[k].outcome.Reached? {
        NextAttempt(h0, rest, calls[k], threshold, cooldown, last);
        last := k;
      }
    }
  }

  /** In any period of an outage, whatever happened `before` it, at most `threshold + length / cooldown`
      calls reach Redis; a threshold below one counts as one. */
  lemma OutageBound(h0: seq<Event>, before: seq<Call>, period: seq<Call>, threshold: int, cooldown: real, length: real)
    requires IsRun(h0, before + period, threshold, cooldown) && cooldown > 0.0
    requires Outage(period) && length >= 0.0
    requires forall k :: 0 <= k < |period| ==> period[k].start <= period[0].start + length
    ensures Attempts(period) as real <= Max(1, threshold) as real + length / cooldown
  {
    if Attempts(period) > Limit(threshold) {
      RunSplits(h0, before, period, threshold, cooldown);
      var last := OutageCost(HistoryAfter(h0, before), period, threshold, cooldown);
      assert period[last].start <= period[0].start + length;
    }
    Quotient(Attempts(period), Limit(threshold), cooldown, length);
  }

  lemma Quotient(n: int, limit: int, x: real, total: real)
    requires x > 0.0 && total >= 0.0 && (n > limit ==> Times(n - limit, x) <= total)
    ensures n as real <= limit as real + total / x
  {
    var q := total / x;
    assert q * x == total;
    AtMost(0.0, q, x);
    if n > limit {
      TimesIsProduct(n - limit, x);
      AtMost((n - limit) as real, q, x);
    }
  }

  lemma StrictlyMore(a: real, b: real, x: real)
    requires a < b && x > 0.0
    ensures a * x < b * x
  {
    assert (b - a) * x > 0.0;
  }

  lemma AtMost(a: real, b: real, x: real)
    requires x > 0.0 && a * x <= b * x
    ensures a <= b
  {
    if a > b {
      StrictlyMore(b, a, x);
    }
  }
}
