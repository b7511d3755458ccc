/** Retries with a bounded number of attempts and a backoff between them. */
module RetryManagement {
  import opened Options

  datatype RetryStrategy = ExponentialBackoff | LinearBackoff | Immediate

  /** What a scan can find under a key: something that is not a retry record, or a record, possibly
      with a field missing. */
  datatype Payload =
    | Garbled
    | Fields(session: Option<string>, retryAfter: Option<real>, attempt: int, delay: int)

  datatype Stored = Stored(payload: Payload, expireAt: real)

  // ---------- Delays ----------

  function Power(base: int, n: nat): int {
    if n == 0 then 1 else base * Power(base, n - 1)
  }

  datatype Settings = Settings(maxRetries: int, baseDelay: int, maxDelay: int, strategy: RetryStrategy)

  /** `_calculate_delay`. */
  function Delay(s: Settings, attempt: nat): int {
    Min(match s.strategy
        case ExponentialBackoff => Power(s.baseDelay, attempt)
        case LinearBackoff => s.baseDelay * attempt
        case Immediate => 0,
        s.maxDelay)
  }

  lemma {:induction false} PowerRises(base: int, m: nat, n: nat)
    requires base >= 1 && m <= n
    ensures 1 <= Power(base, m) <= Power(base, n)
  {
    if n == 0 {
    } else {
      PowerRises(base, 0, n - 1);
      assert Power(base, n - 1) >= 1 ==> base * Power(base, n - 1) >= Power(base, n - 1);
      if m < n {
        PowerRises(base, m, n - 1);
      }
    }
  }

  lemma {:induction false} MultiplesRise(base: int, m: nat, n: nat)
    requires base >= 1 && 1 <= m <= n
    ensures 1 <= base * m <= base * n
  {
    if m < n {
      MultiplesRise(base, m, n - 1);
      assert base * n == base * (n - 1) + base;
    } else if m > 1 {
      MultiplesRise(base, 1, m - 1);
      assert base * m == base * (m - 1) + base;
    }
  }

  /** With a backoff strategy and a base of at least one second, a later attempt waits no less, up
      to the cap. */
  lemma BackoffRises(s: Settings, m: nat, n: nat)
    requires s.strategy != Immediate && s.baseDelay >= 1 && 1 <= m <= n
    ensures Delay(s, m) <= Delay(s, n) <= s.maxDelay
    ensures s.maxDelay >= 1 ==> Delay(s, m) >= 1
  {
    PowerRises(s.baseDelay, m, n);
    MultiplesRise(s.baseDelay, m, n);
  }

  lemma CappedProduct(base: int, x: int, cap: int)
    requires base >= 1 && cap >= 0
    ensures Min(base * x, cap) == Min(base * Min(x, cap), cap)
  {
    if x > cap {
      assert base * x >= base * cap >= cap;
    }
  }

  /** How each delay follows from the one before, by strategy. */
  lemma {:induction false} DelayLaws(s: Settings, n: nat)
    requires s.baseDelay >= 1 && s.maxDelay >= 0 && n >= 1
    ensures s.strategy != Immediate ==> Delay(s, 1) == Min(s.baseDelay, s.maxDelay)
    ensures s.strategy == ExponentialBackoff ==> Delay(s, n + 1) == Min(s.baseDelay * Delay(s, n), s.maxDelay)
    ensures s.strategy == LinearBackoff ==> Delay(s, n + 1) == Min(Delay(s, n) + s.baseDelay, s.maxDelay)
    ensures s.strategy == Immediate ==> Delay(s, n) == 0
  {
    CappedProduct(s.baseDelay, Power(s.baseDelay, n), s.maxDelay);
    assert Power(s.baseDelay, 1) == s.baseDelay * Power(s.baseDelay, 0);
    assert s.baseDelay * (n + 1) == s.baseDelay * n + s.baseDelay;
  }

  // ---------- What has been granted ----------

  /** One `schedule_retry` that returned true. */
  datatype Grant = Grant(session: string, attempt: nat, delay: int, calculated: bool)

  function GrantsOf(log: seq<Grant>, id: string): seq<Grant> {
    if log == [] then [] else
      GrantsOf(log[..|log| - 1], id) + if log[|log| - 1].session == id then [log[|log| - 1]] else []
  }

  /** All grants of the session, each as often as it was made, and no others. */
  lemma {:induction false} GrantsOfMeaning(log: seq<Grant>, id: string, g: Grant)
    ensures multiset(GrantsOf(log, id))[g] == if g.session == id then multiset(log)[g] else 0
  {
    if log == [] {
    } else {
      var before, last := log[..|log| - 1], log[|log| - 1];
      GrantsOfMeaning(before, id, g);
      assert log == before + [last];
      if last.session != id {
        assert GrantsOf(log, id) == GrantsOf(before, id);
      }
    }
  }

  function TotalDelay(log: seq<Grant>): int {
    if log == [] then 0 else TotalDelay(log[..|log| - 1]) + log[|log| - 1].delay
  }

  predicate Lawful(g: Grant, s: Settings) {
    && 1 <= g.attempt <= s.maxRetries
    && 0 < g.delay <= s.maxDelay
    && (g.calculated ==> g.delay == Delay(s, g.attempt))
  }

  /** Attempts of one session are numbered upwards. */
  ghost predicate IsGrantLog(log: seq<Grant>, s: Settings) {
    && (forall i :: 0 <= i < |log| ==> Lawful(log[i], s))
    && (forall i, j :: 0 <= i < j < |log| && log[i].session == log[j].session ==> log[i].attempt < log[j].attempt)
  }

  lemma {:induction false} GrantsBelow(log: seq<Grant>, s: Settings, id: string, n: nat)
    requires IsGrantLog(log, s) && forall i :: 0 <= i < |log| && log[i].session == id ==> log[i].attempt <= n
    ensures |GrantsOf(log, id)| <= n
  {
    if log == [] {
    } else {
      var last := log[|log| - 1];
      GrantsBelow(log[..|log| - 1], s, id, if last.session == id then last.attempt - 1 else n);
    }
  }

  /** No session is granted more than `max_retries` retries. */
  lemma AtMostMaxRetries(log: seq<Grant>, s: Settings, id: string)
    requires IsGrantLog(log, s)
    ensures |GrantsOf(log, id)| <= Max(0, s.maxRetries)
  {
    GrantsBelow(log, s, id, Max(0, s.maxRetries));
  }

  lemma Products(a: int, b: int, d: int)
    requires 0 <= a <= b && 0 <= d
    ensures a * d <= b * d && (a + 1) * d == a * d + d
  {
    assert b * d == a * d + (b - a) * d;
    assert (b - a) * d >= 0;
  }

  lemma TotalDelayStep(log: seq<Grant>, g: Grant)
    ensures TotalDelay(log + [g]) == TotalDelay(log) + g.delay
  {
    assert (log + [g])[..|log|] == log;
  }

  lemma {:induction false} DelaysCapped(log: seq<Grant>, s: Settings, id: string)
    requires IsGrantLog(log, s)
    ensures 0 <= TotalDelay(GrantsOf(log, id)) <= |GrantsOf(log, id)| * Max(0, s.maxDelay)
  {
    if log == [] {
    } else {
      DelaysCapped(log[..|log| - 1], s, id);
      var before, last := GrantsOf(log[..|log| - 1], id), log[|log| - 1];
      if last.session == id {
        TotalDelayStep(before, last);
        Products(|before|, |before|, Max(0, s.maxDelay));
      } else {
        assert before + [] == before;
      }
    }
  }

  /** All the time a session is made to wait is bounded by `max_retries * max_delay`, overrides included. */
  lemma TotalDelayBound(log: seq<Grant>, s: Settings, id: string)
    requires IsGrantLog(log, s)
    ensures TotalDelay(GrantsOf(log, id)) <= Max(0, s.maxRetries) * Max(0, s.maxDelay)
  {
    DelaysCapped(log, s, id);
    AtMostMaxRetries(log, s, id);
    Products(|GrantsOf(log, id)|, Max(0, s.maxRetries), Max(0, s.maxDelay));
  }

  /** Calculated delays of one session never fall. */
  lemma CalculatedDelaysRise(log: seq<Grant>, s: Settings, i: nat, j: nat)
    requires IsGrantLog(log, s) && s.strategy != Immediate && s.baseDelay >= 1
    requires i < j < |log| && log[i].session == log[j].session && log[i].calculated && log[j].calculated
    ensures log[i].delay <= log[j].delay <= s.maxDelay
  {
    BackoffRises(s, log[i].attempt, log[j].attempt);
  }

  /** The calculated delays a session is granted: the first is the base, and each next attempt's follows
      from the one before, multiplied by the base or raised by it, up to the cap. */
  lemma GrantedDelaysFollow(log: seq<Grant>, s: Settings, i: nat, j: nat)
    requires IsGrantLog(log, s) && s.baseDelay >= 1 && s.strategy != Immediate
    requires i < |log| && j < |log| && log[i].calculated && log[j].calculated
    ensures log[i].attempt == 1 ==> log[i].delay == Min(s.baseDelay, s.maxDelay)
    ensures s.strategy == ExponentialBackoff && log[j].attempt == log[i].attempt + 1 ==>
      log[j].delay == Min(s.baseDelay * log[i].delay, s.maxDelay)
    ensures s.strategy == LinearBackoff && log[j].attempt == log[i].attempt + 1 ==>
      log[j].delay == Min(log[i].delay + s.baseDelay, s.maxDelay)
  {
    DelayLaws(s, log[i].attempt);
  }

  lemma GrantAdded(log: seq<Grant>, s: Settings, g: Grant)
    requires IsGrantLog(log, s) && Lawful(g, s)
    requires forall i :: 0 <= i < |log| && log[i].session == g.session ==> log[i].attempt < g.attempt
    ensures IsGrantLog(log + [g], s)
  {
  }

  // ---------- The retry manager ----------

  datatype RetryInfo = RetryInfo(currentRetryCount: nat, canRetry: bool, nextDelay: Option<int>)

  class RetryManager {
    const settings: Settings
    /** `retry_count:<id>`, `retry:<id>` and `retry_scheduled:<id>`, by session id. */
    var counts: map<string, nat>
    var records: map<string, Stored>
    var scheduled: map<string, Stored>
    ghost var granted: seq<Grant>

    function CountOf(id: string): nat
      reads this
    {
      if id in counts then counts[id] else 0
    }

    function NextDelay(id: string): Option<int>
      reads this
    {
      if CountOf(id) < settings.maxRetries then Some(Delay(settings, CountOf(id) + 1)) else None
    }

    ghost predicate Valid()
      reads this
    {
      && IsGrantLog(granted, settings)
      && forall i :: 0 <= i < |granted| ==> granted[i].attempt <= CountOf(granted[i].session)
    }

    constructor (settings: Settings := Settings(3, 2, 3600, ExponentialBackoff))
      ensures Valid() && this.settings == settings && granted == [] && counts == map[]
    {
      this.settings := settings;
      counts, records, scheduled, granted := map[], map[], map[], [];
    }

    method CanRetry(id: string) returns (can: bool)
      ensures can == (CountOf(id) < settings.maxRetries)
    {
      can := (if id in counts then counts[id] else 0) < settings.maxRetries;
    }

    method IncrementRetry(id: string) returns (count: nat)
      requires Valid()
      modifies this`counts
      ensures Valid() && counts == old(counts)[id := count] && count == old(CountOf(id)) + 1
    {
      count := (if id in counts then counts[id] else 0) + 1;
      counts := counts[id := count];
    }

    method GetRetryInfo(id: string) returns (info: RetryInfo)
      ensures info == RetryInfo(CountOf(id), CountOf(id) < settings.maxRetries, NextDelay(id))
    {
      var count := if id in counts then counts[id] else 0;
      var can := CanRetry(id);
      info := RetryInfo(count, can, if can then Some(Delay(settings, count + 1)) else None);
    }

    /** `schedule_retry`.  The clock is read at `readAt` and Redis stores the entry at `setAt`.
        Redis refuses to store anything with a lifetime that is not positive; by then the attempt
        has been counted. */
    method ScheduleRetry(id: string, override: Option<int>, readAt: real, setAt: real) returns (ok: bool)
      requires Valid() && readAt <= setAt
      modifies this
      ensures Valid()
      ensures old(CountOf(id)) >= settings.maxRetries ==>
        !ok && counts == old(counts) && records == old(records) && scheduled == old(scheduled)
        && granted == old(granted)
      ensures old(CountOf(id)) < settings.maxRetries ==> counts == old(counts)[id := old(CountOf(id)) + 1]
      ensures old(CountOf(id)) < settings.maxRetries ==>
        var delay := if override.None? then old(NextDelay(id)).value else Min(override.value, settings.maxDelay);
        && ok == (delay > 0)
        && (ok ==>
              && granted == old(granted) + [Grant(id, old(CountOf(id)) + 1, delay, override.None?)]
              && scheduled ==
                   old(scheduled)[id :=
                     Stored(Fields(Some(id), Some(readAt + delay as real), old(CountOf(id)) + 1, delay),
                            setAt + delay as real)])
        && (!ok ==> granted == old(granted) && scheduled == old(scheduled))
        && records == if delay + 600 <= 0 then old(records) else
             old(records)[id := Stored(Fields(Some(id), Some(readAt + delay as real), old(CountOf(id)) + 1, delay),
                                        setAt + (delay + 600) as real)]
    {
      var can := CanRetry(id);
      if !can {
        return false;
      }
      var count := IncrementRetry(id);
      var delay := match override
        case None => Delay(settings, count)
        case Some(seconds) => Min(seconds, settings.maxDelay);
      var data := Fields(Some(id), Some(readAt + delay as real), count, delay);
      if delay + 600 <= 0 {
        return false;
      }
      records := records[id := Stored(data, setAt + (delay + 600) as real)];
      if delay <= 0 {
        return false;
      }
      scheduled := scheduled[id := Stored(data, setAt + delay as real)];
      GrantAdded(granted, settings, Grant(id, count, delay, override.None?));
      granted := granted + [Grant(id, count, delay, override.None?)];
      ok := true;
    }
  }

  /** The manager of the application. */
  method ApplicationRetryManager() returns (manager: RetryManager)
    ensures fresh(manager) && manager.Valid()
    ensures manager.settings == Settings(3, 2, 3600, ExponentialBackoff)
  {
    manager := new RetryManager();
  }

  /** `k` requests in a row for a session with no retries so far, none with an override.  Each is granted,
      with the delay announced just before, and the delays follow the strategy. */
  method RetryInARow(manager: RetryManager, id: string, k: nat, now: real) returns (delays: seq<int>)
    requires manager.Valid() && manager.CountOf(id) == 0 && k <= manager.settings.maxRetries
    requires manager.settings.baseDelay >= 1 && manager.settings.maxDelay >= 1
    requires manager.settings.strategy != Immediate
    modifies manager
    ensures manager.Valid() && |delays| == k && manager.CountOf(id) == k
    ensures k > 0 ==> delays[0] == Min(manager.settings.baseDelay, manager.settings.maxDelay)
    ensures manager.settings.strategy == ExponentialBackoff ==>
      forall i :: 0 < i < k ==> delays[i] == Min(manager.settings.baseDelay * delays[i - 1], manager.settings.maxDelay)
    ensures manager.settings.strategy == LinearBackoff ==>
      forall i :: 0 < i < k ==> delays[i] == Min(delays[i - 1] + manager.settings.baseDelay, manager.settings.maxDelay)
    ensures k > 0 ==> id in manager.scheduled
    ensures k > 0 ==>
      manager.scheduled[id] ==
      Stored(Fields(Some(id), Some(now + delays[k - 1] as real), k, delays[k - 1]), now + delays[k - 1] as real)
  {
    delays := [];
    var s := manager.settings;
    for n := 0 to k
      invariant manager.Valid() && |delays| == n && manager.CountOf(id) == n
      invariant forall i :: 0 <= i < n ==> delays[i] == Delay(s, i + 1)
      invariant n > 0 ==> id in manager.scheduled
      invariant n > 0 ==>
        manager.scheduled[id] ==
        Stored(Fields(Some(id), Some(now + delays[n - 1] as real), n, delays[n - 1]), now + delays[n - 1] as real)
    {
      var info := manager.GetRetryInfo(id);
      var announced := info.nextDelay.value;
      BackoffRises(s, n + 1, n + 1);
      var ok := manager.ScheduleRetry(id, None, now, now);
      assert ok;
      delays := delays + [announced];
    }
    forall i | 0 < i < k
      ensures s.strategy == ExponentialBackoff ==> delays[i] == Min(s.baseDelay * delays[i - 1], s.maxDelay)
      ensures s.strategy == LinearBackoff ==> delays[i] == Min(delays[i - 1] + s.baseDelay, s.maxDelay)
    {
      DelayLaws(s, i);
    }
    DelayLaws(s, 1);
  }

  /** With the immediate strategy no retry is ever granted without an override, though each request
      uses up an attempt: the calculated delay is not positive. */
  lemma ImmediateIsRefused(s: Settings, attempt: nat)
    requires s.strategy == Immediate
    ensures Delay(s, attempt) <= 0 && !Lawful(Grant("", attempt, Delay(s, attempt), true), s)
  {
  }
}
