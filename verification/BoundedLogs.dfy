/** Logs that keep only their newest entries: the audit buffer, and the failure log with one
    expiring list per day.  The specification keeps everything and looks at the end of it. */
module BoundedLogs {
  import opened Options

  /** The last `n` elements, or all of them. */
  function Last<T>(s: seq<T>, n: nat): seq<T> {
    if n <= |s| then s[|s| - n..] else s
  }

  /** The first `n` elements, or all of them. */
  function First<T>(s: seq<T>, n: nat): seq<T> {
    if n <= |s| then s[..n] else s
  }

  function Reversed<T>(s: seq<T>): (r: seq<T>)
    ensures |r| == |s| && forall i :: 0 <= i < |s| ==> r[i] == s[|s| - 1 - i]
  {
    if s == [] then [] else [s[|s| - 1]] + Reversed(s[..|s| - 1])
  }

  lemma {:induction false} ReversedSuffix<T>(s: seq<T>, m: nat)
    requires m <= |s|
    ensures Reversed(s[|s| - m..]) == Reversed(s)[..m]
  {
    if m == 0 {
    } else {
      var prefix := s[..|s| - 1];
      ReversedSuffix(prefix, m - 1);
      assert s[|s| - m..][..m - 1] == prefix[|prefix| - (m - 1)..];
    }
  }

  /** The newest `m` of a bounded window, newest first, are the first `m` of all events, newest first. */
  lemma NewestOfWindow<T>(s: seq<T>, bound: nat, m: nat)
    requires m <= |Last(s, bound)|
    ensures var w := Last(s, bound); Reversed(w[|w| - m..]) == First(Reversed(s), m)
  {
    var w := Last(s, bound);
    assert w[|w| - m..] == s[|s| - m..];
    ReversedSuffix(s, m);
  }

  lemma NewestFirst<T>(s: seq<T>, n: nat)
    ensures |First(Reversed(s), n)| == Min(n, |s|)
    ensures forall i :: 0 <= i < Min(n, |s|) ==> First(Reversed(s), n)[i] == s[|s| - 1 - i]
  {
  }

  lemma TakeOneMore<T>(before: seq<T>, all: seq<T>, k: nat)
    requires k < |all|
    ensures before + all[..k] + [all[k]] == before + all[..k + 1]
  {
  }

  // ---------- The audit buffer ----------

  const BUFFER_MAX := 500

  class AuditLogger<Event> {
    var buffer: seq<Event>
    /** All events since the start or the last `Close`. */
    ghost var events: seq<Event>

    ghost predicate Valid()
      reads this
    {
      buffer == Last(events, BUFFER_MAX)
    }

    constructor ()
      ensures Valid() && events == []
    {
      buffer, events := [], [];
    }

    method LogEvent(e: Event)
      requires Valid()
      modifies this
      ensures Valid() && events == old(events) + [e]
    {
      buffer := buffer + [e];
      if |buffer| > BUFFER_MAX {
        buffer := buffer[|buffer| - BUFFER_MAX..];
      }
      events := events + [e];
    }

    method Close()
      modifies this
      ensures Valid() && events == []
    {
      buffer, events := [], [];
    }

    /** `self._buffer[-limit:]`, reversed.  A limit of zero slices from the beginning, and a negative
        one drops that many of the oldest buffered events. */
    method GetRecentEvents(limit: int) returns (recent: seq<Event>)
      requires Valid()
      ensures recent == First(Reversed(events),
                              if limit >= 1 then Min(limit, 500)
                              else if limit == 0 then 500
                              else Max(0, Min(|events|, 500) + limit))
      ensures |recent| == if limit >= 1 then Min(Min(limit, 500), |events|)
                          else if limit == 0 then Min(500, |events|)
                          else Max(0, Min(|events|, 500) + limit)
      ensures forall i :: 0 <= i < |recent| ==> recent[i] == events[|events| - 1 - i]
    {
      var start := if limit > 0 then Max(0, |buffer| - limit) else Min(-limit, |buffer|);
      recent := Reversed(buffer[start..]);
      NewestOfWindow(events, BUFFER_MAX, |buffer| - start);
      NewestFirst(events, |buffer| - start);
    }
  }

  // ---------- The daily failure logs ----------

  const DAILY_MAX := 1000
  const SECONDS_PER_DAY := 86400.0

  function Day(at: real): int {
    (at / SECONDS_PER_DAY).Floor
  }

  datatype Failure = Failure(at: real, entry: string)

  /** All failures of a day, newest first. */
  function OfDay(history: seq<Failure>, day: int): seq<string> {
    if history == [] then [] else
      var f := history[|history| - 1];
      (if Day(f.at) == day then [f.entry] else []) + OfDay(history[..|history| - 1], day)
  }

  /** What is kept of a day. */
  function Daily(history: seq<Failure>, day: int): seq<string> {
    First(OfDay(history, day), DAILY_MAX)
  }

  /** The newest thousand of each of `days` days, from `today` backwards. */
  function Recent(history: seq<Failure>, today: int, days: nat): seq<string> {
    if days == 0 then [] else Recent(history, today, days - 1) + Daily(history, today - (days - 1))
  }

  lemma {:induction false} RecentGrows(history: seq<Failure>, today: int, m: nat, n: nat)
    requires m <= n
    ensures Recent(history, today, m) <= Recent(history, today, n)
  {
    if m == n {
    } else {
      RecentGrows(history, today, m, n - 1);
    }
  }

  /** The newest thousand of each of the last seven days, laid end to end. */
  function LastWeek(history: seq<Failure>, today: int): seq<string> {
    First(OfDay(history, today), 1000) + First(OfDay(history, today - 1), 1000)
    + First(OfDay(history, today - 2), 1000) + First(OfDay(history, today - 3), 1000)
    + First(OfDay(history, today - 4), 1000) + First(OfDay(history, today - 5), 1000)
    + First(OfDay(history, today - 6), 1000)
  }

  lemma WeekIsSevenDays(history: seq<Failure>, today: int)
    ensures Recent(history, today, 7) == LastWeek(history, today)
  {
    assert [] + Daily(history, today) == Daily(history, today);
    assert Recent(history, today, 1) == Daily(history, today);
    assert Recent(history, today, 2) == Recent(history, today, 1) + Daily(history, today - 1);
    assert Recent(history, today, 3) == Recent(history, today, 2) + Daily(history, today - 2);
    assert Recent(history, today, 4) == Recent(history, today, 3) + Daily(history, today - 3);
    assert Recent(history, today, 5) == Recent(history, today, 4) + Daily(history, today - 4);
    assert Recent(history, today, 6) == Recent(history, today, 5) + Daily(history, today - 5);
  }

  /** `s[:n]`. */
  function PythonTake<T>(s: seq<T>, n: int): seq<T> {
    if n >= 0 then First(s, n) else s[..Max(0, |s| + n)]
  }

  /** After the lists `before`, the first `n` of what a limit asks of one more list: enough is the
      beginning of all of them, and too little is all of them. */
  lemma DayCollected(before: seq<string>, day: seq<string>, n: nat, entries: seq<string>, limit: int)
    requires limit > 0 && |before| < limit && n <= RangeLength(|day|, limit - 1) && entries == before + day[..n]
    ensures |entries| == limit ==> limit <= |before + day| && entries == First(before + day, limit)
    ensures |entries| < limit && n == RangeLength(|day|, limit - 1) ==> entries == before + day
  {
    assert day[..|day|] == day;
  }

  lemma FirstOfPrefix(prefix: seq<string>, s: seq<string>, n: nat)
    requires prefix <= s && n <= |prefix|
    ensures First(prefix, n) == First(s, n)
  {
  }

  /** The same for the lists of the last days: enough is the beginning of the seven days, too little
      is all of one day more. */
  lemma DaysCollected(history: seq<Failure>, today: int, days: nat, n: nat, entries: seq<string>, limit: int)
    requires days < 7 && limit > 0 && |Recent(history, today, days)| < limit
    requires n <= RangeLength(|Daily(history, today - days)|, limit - 1)
    requires entries == Recent(history, today, days) + Daily(history, today - days)[..n]
    ensures |entries| == limit ==> entries == First(Recent(history, today, 7), limit)
    ensures |entries| < limit && n == RangeLength(|Daily(history, today - days)|, limit - 1) ==>
      entries == Recent(history, today, days + 1)
  {
    var before, day := Recent(history, today, days), Daily(history, today - days);
    DayCollected(before, day, n, entries, limit);
    assert Recent(history, today, days + 1) == before + day;
    if |entries| == limit {
      RecentGrows(history, today, days + 1, 7);
      FirstOfPrefix(before + day, Recent(history, today, 7), limit);
    }
  }

  /** After `days` days the limit is not reached, and all their lists are collected; a limit of zero or
      less collects nothing. */
  ghost predicate SoFar(history: seq<Failure>, today: int, days: nat, entries: seq<string>, limit: int) {
    if limit > 0 then entries == Recent(history, today, days) && |entries| < limit else entries == []
  }

  /** How much of a list of `length` elements lies before index `stop`, which counts from the end
      when it is negative. */
  function RangeLength(length: nat, stop: int): (n: nat)
    ensures n <= length
  {
    Min(length, if stop >= 0 then stop + 1 else Max(0, length + stop + 1))
  }

  datatype DayLog = DayLog(entries: seq<string>, expireAt: real)

  lemma DayBounds(at: real)
    ensures Day(at) as real * 86400.0 <= at < (Day(at) + 1) as real * 86400.0
  {
    var q := at / SECONDS_PER_DAY;
    assert q * SECONDS_PER_DAY == at;
    assert q.Floor as real <= q < q.Floor as real + 1.0;
  }

  /** The inner loop of `get_failure_log`: append one entry after the other, the first `n` of
      `more`, until the limit is reached.  What is left of the day is not looked at. */
  method AppendUpTo(entries: seq<string>, more: seq<string>, ghost day: seq<string>, limit: int)
      returns (collected: seq<string>, n: nat, enough: bool)
    requires |more| <= |day| && more == day[..|more|]
    requires if limit > 0 then |entries| < limit else entries == []
    ensures n <= |more| && collected == entries + day[..n]
    ensures enough ==> |collected| == if limit > 0 then limit else 1
    ensures !enough ==> n == |more| && if limit > 0 then |collected| < limit else more == []
  {
    collected := entries;
    for k := 0 to |more|
      invariant collected == entries + day[..k]
      invariant if limit > 0 then |collected| < limit else k == 0
    {
      TakeOneMore(entries, day, k);
      collected := collected + [more[k]];
      if |collected| >= limit {
        return collected, k + 1, true;
      }
    }
    n, enough := |more|, false;
  }

  lemma OfDayGrows(history: seq<Failure>, f: Failure, day: int)
    ensures OfDay(history + [f], day) == (if day == Day(f.at) then [f.entry] else []) + OfDay(history, day)
  {
    assert (history + [f])[..|history|] == history;
  }

  lemma FirstOfMore<T>(x: T, s: seq<T>, n: nat)
    ensures First([x] + s, n) == First([x] + First(s, n), n)
  {
  }

  /** A failure is the first entry of its day, and of no other. */
  lemma DailyGrows(history: seq<Failure>, f: Failure, day: int)
    ensures Daily(history + [f], day) ==
            if day == Day(f.at) then First([f.entry] + Daily(history, day), 1000) else Daily(history, day)
  {
    OfDayGrows(history, f, day);
    FirstOfMore(f.entry, OfDay(history, day), DAILY_MAX);
  }

  /** Every list holds what is kept of its day and outlives the sixth day after it. */
  ghost predicate Holds(logs: map<int, DayLog>, history: seq<Failure>) {
    && (forall day :: day in logs ==>
          && logs[day].entries == Daily(history, day)
          && logs[day].expireAt >= (day + 7) as real * SECONDS_PER_DAY)
    && (forall day :: day !in logs ==> OfDay(history, day) == [])
  }

  lemma HoldsAfter(logs: map<int, DayLog>, history: seq<Failure>, f: Failure, log: DayLog)
    requires Holds(logs, history)
    requires log.entries == Daily(history + [f], Day(f.at)) && log.expireAt >= (Day(f.at) + 7) as real * SECONDS_PER_DAY
    ensures Holds(logs[Day(f.at) := log], history + [f])
  {
    forall day | day != Day(f.at)
      ensures Daily(history + [f], day) == Daily(history, day) && OfDay(history + [f], day) == OfDay(history, day)
    {
      OfDayGrows(history, f, day);
      assert [] + OfDay(history, day) == OfDay(history, day);
    }
  }

  class FaultManager {
    /** `failure_log:<date>`, by day number. */
    var logs: map<int, DayLog>
    ghost var history: seq<Failure>

    ghost predicate Valid()
      reads this
    {
      Holds(logs, history)
    }

    constructor ()
      ensures Valid() && history == []
    {
      logs, history := map[], [];
    }

    method LogFailure(entry: string, now: real)
      requires Valid()
      modifies this
      ensures Valid() && history == old(history) + [Failure(now, entry)]
    {
      var day := Day(now);
      DayBounds(now);
      DailyGrows(history, Failure(now, entry), day);
      var entries := if day in logs && now < logs[day].expireAt then logs[day].entries else [];
      entries := [entry] + entries;
      if |entries| > DAILY_MAX {
        entries := entries[..DAILY_MAX];
      }
      HoldsAfter(logs, history, Failure(now, entry), DayLog(entries, now + 604800.0));
      logs := logs[day := DayLog(entries, now + 604800.0)];
      history := history + [Failure(now, entry)];
    }

    /** `lrange(key, 0, stop)`, on a key that may have expired. */
    method Range(day: int, stop: int, now: real) returns (entries: seq<string>)
      requires Valid()
      ensures day + 6 >= Day(now) ==>
        |entries| == RangeLength(|Daily(history, day)|, stop) && entries == Daily(history, day)[..|entries|]
    {
      DayBounds(now);
      var all := if day in logs && now < logs[day].expireAt then logs[day].entries else [];
      entries := all[..RangeLength(|all|, stop)];
    }

    /** One turn of the outer loop of `get_failure_log`. */
    method CollectDay(entries: seq<string>, ghost today: int, daysBack: nat, limit: int, now: real)
        returns (collected: seq<string>, enough: bool)
      requires Valid() && today == Day(now) && daysBack < 7 && SoFar(history, today, daysBack, entries, limit)
      ensures !enough ==> SoFar(history, today, daysBack + 1, collected, limit)
      ensures enough && limit > 0 ==> collected == First(Recent(history, today, 7), limit)
      ensures enough && limit <= 0 ==> |collected| == 1
    {
      ghost var day := Daily(history, today - daysBack);
      var logEntries := Range(Day(now) - daysBack, limit - 1, now);
      var n;
      collected, n, enough := AppendUpTo(entries, logEntries, day, limit);
      if limit > 0 {
        DaysCollected(history, today, daysBack, n, collected, limit);
      }
    }

    /** The newest entries of the last seven days, `limit` of them if there are so many; none for a
        limit of zero or less. */
    method GetFailureLog(limit: int, now: real) returns (result: seq<string>)
      requires Valid()
      ensures result == First(Recent(history, Day(now), 7), Max(0, limit))
      ensures result == First(LastWeek(history, Day(now)), Max(0, limit))
    {
      WeekIsSevenDays(history, Day(now));
      ghost var today := Day(now);
      var entries, enough := [], false;
      for daysBack := 0 to 7
        invariant SoFar(history, today, daysBack, entries, limit)
      {
        entries, enough := CollectDay(entries, today, daysBack, limit, now);
        if enough {
          result := PythonTake(entries, limit);
          return;
        }
      }
      result := PythonTake(entries, limit);
    }
  }
}
