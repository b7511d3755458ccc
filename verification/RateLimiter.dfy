/** The sliding-window rate limiter: one sorted set of request times per client, pruned at every
    request and given a time to live of twice the window.

    The specification looks only at the full log of requests; pruning and expiry do not occur in it. */
module RateLimiting {

  datatype Request = Request(client: string, at: real, admitted: bool)

  /** The stored set; member and score are both the request time. */
  datatype SortedSet = SortedSet(scores: set<real>, expireAt: real)

  datatype Response = Pass | TooManyRequests(retryAfter: int)

  /** The times in the window that ends at `now` at which `client` asked for something. */
  ghost function Recent(log: seq<Request>, client: string, now: real, window: real): set<real> {
    set i | 0 <= i < |log| && log[i].client == client && now - window < log[i].at :: log[i].at
  }

  ghost predicate Ordered(log: seq<Request>) {
    forall i, j :: 0 <= i < j < |log| ==> log[i].at <= log[j].at
  }

  /** Each decision counts the log up to and including the request itself, rejected requests included. */
  ghost predicate Decided(log: seq<Request>, limit: int, window: real) {
    log == [] ||
    var last := log[|log| - 1];
    && Decided(log[..|log| - 1], limit, window)
    && (last.admitted <==> |Recent(log, last.client, last.at, window)| <= limit)
  }

  /** What a stored key knows of its client's log: all of it, up to one window before the client's
      latest request, which was two windows before the key expires. */
  ghost predicate Holds(log: seq<Request>, clock: real, window: real, client: string, s: SortedSet) {
    var latest := s.expireAt - 2.0 * window;
    && latest <= clock
    && (forall t :: t in s.scores ==>
         t >= 0.0 && exists i :: 0 <= i < |log| && log[i].client == client && log[i].at == t)
    && (forall i :: 0 <= i < |log| && log[i].client == client ==>
          log[i].at <= latest && (log[i].at > latest - window ==> log[i].at in s.scores))
  }

  /** Pruning the key and letting it expire both leave exactly the trailing window: after two
      windows of silence there is nothing left in it to lose. */
  lemma PrunedIsRecent(log: seq<Request>, clock: real, window: real, client: string, s: SortedSet, now: real)
    requires window > 0.0 && clock <= now && Holds(log, clock, window, client, s)
    ensures now >= s.expireAt ==> Recent(log, client, now, window) == {}
    ensures (set t | t in s.scores && !(0.0 <= t <= now - window)) == Recent(log, client, now, window)
  {
  }

  lemma DecidedExtends(log: seq<Request>, r: Request, limit: int, window: real)
    requires Decided(log, limit, window) && (r.admitted <==> |Recent(log + [r], r.client, r.at, window)| <= limit)
    ensures Decided(log + [r], limit, window)
  {
    assert (log + [r])[..|log|] == log;
  }

  lemma RecentExtends(log: seq<Request>, r: Request, window: real)
    requires window > 0.0
    ensures Recent(log + [r], r.client, r.at, window) == Recent(log, r.client, r.at, window) + {r.at}
  {
    var more := log + [r];
    assert more[|log|] == r && forall i :: 0 <= i < |log| ==> more[i] == log[i];
  }

  /** A request of one client is nothing to the key of another. */
  lemma HoldsForOthers(log: seq<Request>, clock: real, window: real, client: string, s: SortedSet, r: Request)
    requires Holds(log, clock, window, client, s) && r.client != client && clock <= r.at
    ensures Holds(log + [r], r.at, window, client, s)
  {
    var more := log + [r];
    assert forall i :: 0 <= i < |log| ==> more[i] == log[i];
  }

  lemma HoldsAfter(log: seq<Request>, window: real, r: Request)
    requires window > 0.0 && r.at >= 0.0
    requires forall i :: 0 <= i < |log| ==> 0.0 <= log[i].at <= r.at
    ensures Holds(log + [r], r.at, window, r.client,
                  SortedSet(Recent(log + [r], r.client, r.at, window), r.at + window * 2.0))
  {
  }

  ghost predicate Consistent(store: map<string, SortedSet>, log: seq<Request>, clock: real, window: real) {
    && window > 0.0 && clock >= 0.0 && Ordered(log)
    && (forall i :: 0 <= i < |log| ==> 0.0 <= log[i].at <= clock && log[i].client in store)
    && (forall client :: client in store ==> Holds(log, clock, window, client, store[client]))
  }

  lemma StaysConsistent(store: map<string, SortedSet>, log: seq<Request>, clock: real, window: real, r: Request,
                        s: SortedSet)
    requires Consistent(store, log, clock, window) && clock <= r.at
    requires s == SortedSet(Recent(log + [r], r.client, r.at, window), r.at + window * 2.0)
    ensures Consistent(store[r.client := s], log + [r], r.at, window)
  {
    HoldsAfter(log, window, r);
    forall other | other in store && other != r.client
      ensures Holds(log + [r], r.at, window, other, store[other])
    {
      HoldsForOthers(log, clock, window, other, store[other], r);
    }
  }

  /** Adding the request to what pruning kept, and deciding by the size, is deciding by the log. */
  lemma RequestLogged(store: map<string, SortedSet>, log: seq<Request>, clock: real, limit: int, window: real,
                      kept: set<real>, r: Request, s: SortedSet)
    requires Consistent(store, log, clock, window) && Decided(log, limit, window) && clock <= r.at
    requires kept == Recent(log, r.client, r.at, window)
    requires s == SortedSet(kept + {r.at}, r.at + window * 2.0)
    requires r.admitted <==> |s.scores| <= limit
    ensures Consistent(store[r.client := s], log + [r], r.at, window) && Decided(log + [r], limit, window)
    ensures s.scores == Recent(log + [r], r.client, r.at, window)
  {
    RecentExtends(log, r, window);
    StaysConsistent(store, log, clock, window, r, s);
    DecidedExtends(log, r, limit, window);
  }

  lemma ClockAdvances(store: map<string, SortedSet>, log: seq<Request>, clock: real, window: real, now: real)
    requires Consistent(store, log, clock, window) && clock <= now
    ensures Consistent(store, log, now, window)
  {
  }

  class RateLimiter {
    const limit: int
    const windowSeconds: real
    var store: map<string, SortedSet>
    ghost var log: seq<Request>
    ghost var clock: real

    ghost predicate Valid()
      reads this
    {
      Consistent(store, log, clock, windowSeconds) && Decided(log, limit, windowSeconds)
    }

    constructor (limit: int := 60, windowSeconds: real := 60.0)
      requires windowSeconds > 0.0
      ensures Valid() && log == [] && clock == 0.0
      ensures this.limit == limit && this.windowSeconds == windowSeconds
    {
      this.limit, this.windowSeconds := limit, windowSeconds;
      store, log, clock := map[], [], 0.0;
    }

    /** `zremrangebyscore`, on a key that may have expired: what is left of the client's set. */
    method Prune(client: string, now: real) returns (kept: set<real>)
      requires Valid() && clock <= now
      ensures kept == Recent(log, client, now, windowSeconds)
    {
      kept := {};
      if client in store {
        PrunedIsRecent(log, clock, windowSeconds, client, store[client], now);
        if now < store[client].expireAt {
          kept := set t | t in store[client].scores && !(0.0 <= t <= now - windowSeconds);
        }
      }
    }

    /** The state after a request: the client's key written back, the request logged. */
    method Keep(updated: map<string, SortedSet>, ghost grown: seq<Request>, ghost now: real)
      requires Consistent(updated, grown, now, windowSeconds) && Decided(grown, limit, windowSeconds)
      modifies this
      ensures Valid() && store == updated && log == grown && clock == now
    {
      store, log, clock := updated, grown, now;
    }

    /** The pipeline: prune, add, count, and renew the time to live. */
    method RunPipeline(client: string, now: real) returns (requestCount: nat)
      requires Valid() && clock <= now
      modifies this
      ensures Valid() && clock == now
      ensures log == old(log) + [Request(client, now, requestCount <= limit)]
      ensures store ==
        old(store)[client := SortedSet(Recent(log, client, now, windowSeconds), now + windowSeconds * 2.0)]
      ensures requestCount == |Recent(log, client, now, windowSeconds)|
    {
      var kept := Prune(client, now);
      var scores := kept + {now};
      requestCount := |scores|;
      var s := SortedSet(scores, now + windowSeconds * 2.0);
      ghost var request := Request(client, now, requestCount <= limit);
      RequestLogged(store, log, clock, limit, windowSeconds, kept, request, s);
      Keep(store[client := s], log + [request], now);
    }

    /** The part of `dispatch` between the exemption test and the call of the next handler.  When
        Redis does not answer, the request goes through and leaves no trace. */
    method Dispatch(client: string, now: real, redisUp: bool) returns (response: Response)
      requires Valid() && clock <= now
      modifies this
      ensures Valid() && clock == now
      ensures !redisUp ==> response.Pass? && log == old(log) && store == old(store)
      ensures redisUp ==>
        && log == old(log) + [Request(client, now, response.Pass?)]
        && (response.Pass? <==> |Recent(log, client, now, windowSeconds)| <= limit)
        && store == old(store)[client := SortedSet(Recent(log, client, now, windowSeconds), now + windowSeconds * 2.0)]
      ensures response.TooManyRequests? ==> response.retryAfter == 1
    {
      if !redisUp {
        ClockAdvances(store, log, clock, windowSeconds, now);
        clock := now;
        return Pass;
      }
      var windowStart := now - windowSeconds;
      var requestCount := RunPipeline(client, now);
      if requestCount > limit {
        var retryAfter := (windowSeconds - (now - windowStart)).Floor;
        response := TooManyRequests(if retryAfter > 1 then retryAfter else 1);
      } else {
        response := Pass;
      }
    }
  }

  // ---------- At most `limit` in every window ----------

  ghost predicate InWindow(t: real, a: real, window: real, leftClosed: bool) {
    if leftClosed then a <= t < a + window else a < t <= a + window
  }

  ghost predicate Hit(r: Request, client: string, a: real, window: real, leftClosed: bool) {
    r.client == client && r.admitted && InWindow(r.at, a, window, leftClosed)
  }

  ghost function AdmittedTimes(log: seq<Request>, client: string, a: real, window: real, leftClosed: bool): set<real> {
    set i | 0 <= i < |log| && Hit(log[i], client, a, window, leftClosed) :: log[i].at
  }

  /** Admitted requests of `client` in the interval, counted one by one. */
  ghost function AdmittedCount(log: seq<Request>, client: string, a: real, window: real, leftClosed: bool): nat {
    if log == [] then 0 else
      AdmittedCount(log[..|log| - 1], client, a, window, leftClosed) +
      if Hit(log[|log| - 1], client, a, window, leftClosed) then 1 else 0
  }

  lemma SubsetSize(a: set<real>, b: set<real>)
    requires a <= b
    ensures |a| <= |b|
  {
    assert b == a + (b - a);
  }

  lemma AdmittedTimesStep(log: seq<Request>, r: Request, client: string, a: real, window: real, leftClosed: bool)
    ensures AdmittedTimes(log + [r], client, a, window, leftClosed) ==
            AdmittedTimes(log, client, a, window, leftClosed) +
            if Hit(r, client, a, window, leftClosed) then {r.at} else {}
  {
    var more := log + [r];
    assert more[|log|] == r && forall i :: 0 <= i < |log| ==> more[i] == log[i];
  }

  /** All the times admitted in an interval are recent for the latest of them. */
  lemma AdmittedAreRecent(log: seq<Request>, client: string, a: real, window: real, leftClosed: bool)
    requires Ordered(log) && log != [] && Hit(log[|log| - 1], client, a, window, leftClosed)
    ensures |AdmittedTimes(log, client, a, window, leftClosed)| <= |Recent(log, client, log[|log| - 1].at, window)|
  {
    SubsetSize(AdmittedTimes(log, client, a, window, leftClosed), Recent(log, client, log[|log| - 1].at, window));
  }

  /** In every half-open interval one window long, a client is admitted at no more than `limit`
      different times, whatever was rejected in between. */
  lemma {:induction false} AtMostLimitTimes(log: seq<Request>, limit: int, window: real, client: string, a: real,
                                            leftClosed: bool)
    requires Ordered(log) && Decided(log, limit, window)
    ensures |AdmittedTimes(log, client, a, window, leftClosed)| <= if limit < 0 then 0 else limit
  {
    if log == [] {
    } else {
      var before, last := log[..|log| - 1], log[|log| - 1];
      if Hit(last, client, a, window, leftClosed) {
        AdmittedAreRecent(log, client, a, window, leftClosed);
      } else {
        AtMostLimitTimes(before, limit, window, client, a, leftClosed);
        AdmittedTimesStep(before, last, client, a, window, leftClosed);
        assert log == before + [last];
      }
    }
  }

  /** No two requests of `client` share a time; those of other clients may. */
  ghost predicate StrictlyIncreasing(log: seq<Request>, client: string) {
    forall i, j :: 0 <= i < j < |log| && log[i].client == client && log[j].client == client ==> log[i].at < log[j].at
  }

  lemma LastIsNew(log: seq<Request>, client: string, a: real, window: real, leftClosed: bool)
    requires log != [] && StrictlyIncreasing(log, client)
    ensures StrictlyIncreasing(log[..|log| - 1], client)
    ensures log[|log| - 1].client == client ==>
      log[|log| - 1].at !in AdmittedTimes(log[..|log| - 1], client, a, window, leftClosed)
  {
  }

  lemma AddNew(times: set<real>, t: real, hit: bool)
    requires hit ==> t !in times
    ensures |times + if hit then {t} else {}| == |times| + if hit then 1 else 0
  {
    assert times + {} == times;
  }

  lemma {:induction false} CountIsTimes(log: seq<Request>, client: string, a: real, window: real, leftClosed: bool)
    requires StrictlyIncreasing(log, client)
    ensures AdmittedCount(log, client, a, window, leftClosed) == |AdmittedTimes(log, client, a, window, leftClosed)|
  {
    if log == [] {
    } else {
      var before, last := log[..|log| - 1], log[|log| - 1];
      LastIsNew(log, client, a, window, leftClosed);
      CountIsTimes(before, client, a, window, leftClosed);
      AdmittedTimesStep(before, last, client, a, window, leftClosed);
      assert log == before + [last];
      AddNew(AdmittedTimes(before, client, a, window, leftClosed), last.at, Hit(last, client, a, window, leftClosed));
    }
  }

  /** When the request times of a client strictly increase, every half-open interval one window long holds at
      most `limit` admitted requests of one client. */
  lemma AtMostLimitRequests(log: seq<Request>, limit: int, window: real, client: string, a: real, leftClosed: bool)
    requires Ordered(log) && StrictlyIncreasing(log, client) && Decided(log, limit, window)
    ensures AdmittedCount(log, client, a, window, leftClosed) <= if limit < 0 then 0 else limit
  {
    AtMostLimitTimes(log, limit, window, client, a, leftClosed);
    CountIsTimes(log, client, a, window, leftClosed);
  }

  // ---------- When the bound on requests holds ----------

  /** The requests of `rs`, each decided anew as the limiter decides it. */
  ghost function Decisions(rs: seq<Request>, limit: int, window: real): (log: seq<Request>)
    ensures |log| == |rs|
  {
    if rs == [] then [] else
      var last := rs[|rs| - 1];
      Decisions(rs[..|rs| - 1], limit, window) +
      [Request(last.client, last.at, |Recent(rs, last.client, last.at, window)| <= limit)]
  }

  /** Clients and times are as they were, and each request counts those up to it. */
  lemma {:induction false} DecisionAt(rs: seq<Request>, limit: int, window: real, i: nat)
    requires i < |rs|
    ensures Decisions(rs, limit, window)[i] ==
            Request(rs[i].client, rs[i].at, |Recent(rs[..i + 1], rs[i].client, rs[i].at, window)| <= limit)
  {
    if i == |rs| - 1 {
      assert rs[..i + 1] == rs;
    } else {
      DecisionAt(rs[..|rs| - 1], limit, window, i);
      assert rs[..|rs| - 1][..i + 1] == rs[..i + 1];
    }
  }

  ghost predicate SameCalls(a: seq<Request>, b: seq<Request>) {
    |a| == |b| && forall i :: 0 <= i < |a| ==> a[i].client == b[i].client && a[i].at == b[i].at
  }

  lemma DecisionsAreCalls(rs: seq<Request>, limit: int, window: real)
    ensures SameCalls(Decisions(rs, limit, window), rs)
  {
    forall i | 0 <= i < |rs|
      ensures Decisions(rs, limit, window)[i].client == rs[i].client && Decisions(rs, limit, window)[i].at == rs[i].at
    {
      DecisionAt(rs, limit, window, i);
    }
  }

  lemma SameRecent(a: seq<Request>, b: seq<Request>, client: string, now: real, window: real)
    requires SameCalls(a, b)
    ensures Recent(a, client, now, window) == Recent(b, client, now, window)
  {
  }

  /** A log that the limiter has decided is the one that deciding its calls anew gives, and no other is. */
  lemma {:induction false} DecidedIsDecisions(log: seq<Request>, limit: int, window: real)
    ensures Decided(log, limit, window) <==> log == Decisions(log, limit, window)
  {
    if log == [] {
    } else {
      var before, last := log[..|log| - 1], log[|log| - 1];
      DecidedIsDecisions(before, limit, window);
      assert log == before + [last];
    }
  }

  lemma {:induction false} DecisionsAreDecided(rs: seq<Request>, limit: int, window: real)
    ensures Decided(Decisions(rs, limit, window), limit, window)
  {
    if rs == [] {
    } else {
      var before, last := rs[..|rs| - 1], rs[|rs| - 1];
      DecisionsAreDecided(before, limit, window);
      DecisionsAreCalls(rs, limit, window);
      SameRecent(Decisions(rs, limit, window), rs, last.client, last.at, window);
      DecidedExtends(Decisions(before, limit, window), Decisions(rs, limit, window)[|before|], limit, window);
    }
  }

  /** No half-open interval one window long holds more than `limit` admitted requests of `client`. */
  ghost predicate NeverOver(log: seq<Request>, limit: int, window: real, client: string) {
    forall a: real, leftClosed: bool :: AdmittedCount(log, client, a, window, leftClosed) <= limit
  }

  /** The different times at which `client` asks. */
  ghost function Times(rs: seq<Request>, client: string): set<real> {
    set i | 0 <= i < |rs| && rs[i].client == client :: rs[i].at
  }

  /** Long enough for all of the log. */
  ghost function Span(rs: seq<Request>): real {
    if rs == [] then 1.0 else rs[|rs| - 1].at - rs[0].at + 1.0
  }

  /** With a limit of as many requests as the client has different times, it is never refused. */
  lemma AllAdmitted(rs: seq<Request>, client: string, i: nat, window: real)
    requires i < |rs| && rs[i].client == client
    ensures Decisions(rs, |Times(rs, client)|, window)[i].admitted
  {
    DecisionAt(rs, |Times(rs, client)|, window, i);
    SubsetSize(Recent(rs[..i + 1], client, rs[i].at, window), Times(rs, client));
  }

  /** Then one window as long as the log takes in all its requests. */
  lemma AllHit(rs: seq<Request>, client: string, i: nat)
    requires Ordered(rs) && i < |rs| && rs[i].client == client
    ensures Hit(Decisions(rs, |Times(rs, client)|, Span(rs))[i], client, rs[0].at, Span(rs), true)
  {
    AllAdmitted(rs, client, i, Span(rs));
    DecisionAt(rs, |Times(rs, client)|, Span(rs), i);
    assert InWindow(rs[i].at, rs[0].at, Span(rs), true);
  }

  lemma HitsAreTimes(log: seq<Request>, rs: seq<Request>, client: string, a: real, window: real)
    requires SameCalls(log, rs)
    requires forall i :: 0 <= i < |rs| && rs[i].client == client ==> Hit(log[i], client, a, window, true)
    ensures Times(rs, client) <= AdmittedTimes(log, client, a, window, true)
  {
    forall t | t in Times(rs, client)
      ensures t in AdmittedTimes(log, client, a, window, true)
    {
      var i :| 0 <= i < |rs| && rs[i].client == client && rs[i].at == t;
      HitIsAdmittedTime(log, i, client, a, window, true);
    }
  }

  lemma HitIsAdmittedTime(log: seq<Request>, i: nat, client: string, a: real, window: real, leftClosed: bool)
    requires i < |log| && Hit(log[i], client, a, window, leftClosed)
    ensures log[i].at in AdmittedTimes(log, client, a, window, leftClosed)
  {
  }

  lemma {:induction false} TimesAtMostCount(log: seq<Request>, client: string, a: real, window: real, leftClosed: bool)
    ensures |AdmittedTimes(log, client, a, window, leftClosed)| <= AdmittedCount(log, client, a, window, leftClosed)
  {
    if log == [] {
    } else {
      var before, last := log[..|log| - 1], log[|log| - 1];
      TimesAtMostCount(before, client, a, window, leftClosed);
      AdmittedTimesStep(before, last, client, a, window, leftClosed);
      assert log == before + [last];
    }
  }

  /** Two admitted requests at one time are one time and two requests. */
  lemma {:induction false} RepeatedTimeCountsTwice(log: seq<Request>, i: nat, j: nat, client: string, a: real,
                                                   window: real,
                                                   leftClosed: bool)
    requires i < j < |log| && log[i].at == log[j].at
    requires Hit(log[i], client, a, window, leftClosed) && Hit(log[j], client, a, window, leftClosed)
    ensures |AdmittedTimes(log, client, a, window, leftClosed)| < AdmittedCount(log, client, a, window, leftClosed)
  {
    var before, last := log[..|log| - 1], log[|log| - 1];
    assert log == before + [last];
    AdmittedTimesStep(before, last, client, a, window, leftClosed);
    if j == |log| - 1 {
      HitIsAdmittedTime(before, i, client, a, window, leftClosed);
      assert AdmittedTimes(before, client, a, window, leftClosed) + {last.at} ==
        AdmittedTimes(before, client, a, window, leftClosed);
      TimesAtMostCount(before, client, a, window, leftClosed);
    } else {
      RepeatedTimeCountsTwice(before, i, j, client, a, window, leftClosed);
    }
  }

  /** A repeated time takes the client over some limit in some window. */
  lemma RepeatedTimeGoesOver(rs: seq<Request>, client: string)
    requires Ordered(rs) && !StrictlyIncreasing(rs, client)
    ensures Span(rs) > 0.0
    ensures !NeverOver(Decisions(rs, |Times(rs, client)|, Span(rs)), |Times(rs, client)|, Span(rs), client)
  {
    var i, j :| 0 <= i < j < |rs| && rs[i].client == client && rs[j].client == client && !(rs[i].at < rs[j].at);
    var log := Decisions(rs, |Times(rs, client)|, Span(rs));
    DecisionsAreCalls(rs, |Times(rs, client)|, Span(rs));
    forall k | 0 <= k < |rs| && rs[k].client == client
      ensures Hit(log[k], client, rs[0].at, Span(rs), true)
    {
      AllHit(rs, client, k);
    }
    HitsAreTimes(log, rs, client, rs[0].at, Span(rs));
    SubsetSize(Times(rs, client), AdmittedTimes(log, client, rs[0].at, Span(rs), true));
    RepeatedTimeCountsTwice(log, i, j, client, rs[0].at, Span(rs), true);
  }

  lemma StrictNeverGoesOver(rs: seq<Request>, client: string, limit: nat, window: real)
    requires Ordered(rs) && StrictlyIncreasing(rs, client)
    ensures NeverOver(Decisions(rs, limit, window), limit, window, client)
  {
    var log := Decisions(rs, limit, window);
    DecisionsAreCalls(rs, limit, window);
    DecisionsAreDecided(rs, limit, window);
    forall a: real, leftClosed: bool
      ensures AdmittedCount(log, client, a, window, leftClosed) <= limit
    {
      AtMostLimitRequests(log, limit, window, client, a, leftClosed);
    }
  }

  /** For requests at given times, a client is held to the limit in every window, whatever limit and
      window are, exactly when it never asks twice at one time. */
  lemma LimitHoldsExactly(rs: seq<Request>, client: string)
    requires Ordered(rs)
    ensures StrictlyIncreasing(rs, client) <==>
            forall limit: nat, window: real :: window > 0.0 ==>
              NeverOver(Decisions(rs, limit, window), limit, window, client)
  {
    if StrictlyIncreasing(rs, client) {
      forall limit: nat, window: real | window > 0.0
        ensures NeverOver(Decisions(rs, limit, window), limit, window, client)
      {
        StrictNeverGoesOver(rs, client, limit, window);
      }
    } else {
      RepeatedTimeGoesOver(rs, client);
    }
  }

  function Repeated(r: Request, n: nat): (log: seq<Request>)
    ensures |log| == n && forall i :: 0 <= i < n ==> log[i] == r
  {
    if n == 0 then [] else Repeated(r, n - 1) + [r]
  }

  lemma RecentOfOne(log: seq<Request>, r: Request, window: real)
    requires window > 0.0 && log != [] && forall i :: 0 <= i < |log| ==> log[i] == r
    ensures |Recent(log, r.client, r.at, window)| == 1
  {
    assert log[0].at in Recent(log, r.client, r.at, window);
    assert Recent(log, r.client, r.at, window) == {r.at};
  }

  lemma {:induction false} RepeatedIsDecided(r: Request, n: nat, limit: int, window: real)
    requires limit >= 1 && window > 0.0 && r.admitted
    ensures Decided(Repeated(r, n), limit, window)
  {
    if n == 0 {
    } else {
      RepeatedIsDecided(r, n - 1, limit, window);
      RecentOfOne(Repeated(r, n), r, window);
      DecidedExtends(Repeated(r, n - 1), r, limit, window);
    }
  }

  /** An instance: any number of requests of one client at one time is admitted. */
  lemma SimultaneousRequestsCollapse(client: string, at: real, n: nat, limit: int, window: real)
    requires limit >= 1 && window > 0.0
    ensures Ordered(Repeated(Request(client, at, true), n))
    ensures Decided(Repeated(Request(client, at, true), n), limit, window)
  {
    RepeatedIsDecided(Request(client, at, true), n, limit, window);
  }
}
