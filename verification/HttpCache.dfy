/** The response cache: a decorator that keeps a function's dict or list results for `ttl` seconds
    under a fixed name, and a way to invalidate names early.

    The log records when the wrapped functions really ran and when names were invalidated.  What
    the store holds is a function of it. */
module HttpCaching {
  import opened Options

  /** A JSON value; only dicts and lists are cached. */
  datatype Json = Null | Scalar(text: string) | DictOrList(text: string)

  datatype Stored = Stored(value: Json, expireAt: real)

  datatype Event =
    | Evaluated(name: string, start: real, end: real, value: Json)
    | Invalidated(names: set<string>)
    | InvalidatedAll

  predicate Drops(e: Event, name: string) {
    e.InvalidatedAll? || (e.Invalidated? && name in e.names)
  }

  predicate Keeps(e: Event, name: string) {
    e.Evaluated? && e.name == name && e.value.DictOrList?
  }

  /** The latest evaluation of `name` that was worth keeping, if nothing has dropped the name since. */
  function Latest(log: seq<Event>, name: string): (latest: Option<Event>)
    ensures latest.Some? ==> latest.value in log && Keeps(latest.value, name)
  {
    if log == [] then None else
      var last := log[|log| - 1];
      if Drops(last, name) then None
      else if Keeps(last, name) then Some(last)
      else Latest(log[..|log| - 1], name)
  }

  ghost predicate IsLatest(log: seq<Event>, name: string, k: int) {
    && 0 <= k < |log| && Keeps(log[k], name)
    && forall j :: k < j < |log| ==> !Drops(log[j], name) && !Keeps(log[j], name)
  }

  lemma {:induction false} LatestFound(log: seq<Event>, name: string, k: int)
    requires IsLatest(log, name, k)
    ensures Latest(log, name) == Some(log[k])
  {
    var last := |log| - 1;
    if k == last {
    } else {
      LatestFound(log[..last], name, k);
    }
  }

  lemma {:induction false} LatestIsSomewhere(log: seq<Event>, name: string) returns (k: int)
    requires Latest(log, name).Some?
    ensures IsLatest(log, name, k)
  {
    k := |log| - 1;
    if Keeps(log[k], name) {
    } else {
      k := LatestIsSomewhere(log[..k], name);
    }
  }

  /** `Latest` is the evaluation worth keeping that nothing has replaced or dropped, if there is one. */
  lemma LatestMeaning(log: seq<Event>, name: string)
    ensures forall k :: IsLatest(log, name, k) ==> Latest(log, name) == Some(log[k])
    ensures Latest(log, name).Some? ==> exists k :: IsLatest(log, name, k)
  {
    forall k | IsLatest(log, name, k)
      ensures Latest(log, name) == Some(log[k])
    {
      LatestFound(log, name, k);
    }
    if Latest(log, name).Some? {
      var k := LatestIsSomewhere(log, name);
    }
  }

  /** What a caller may still be given at `now`: a value returned less than `ttl` ago and not invalidated since. */
  function Fresh(log: seq<Event>, name: string, ttl: int, now: real): Option<Json> {
    match Latest(log, name)
    case Some(Evaluated(_, _, end, value)) => if now < end + ttl as real then Some(value) else None
    case _ => None
  }

  /** Entry `i` is an evaluation of `name` with a dict or list, over less than `ttl` ago, and after it the
      name has been neither invalidated nor evaluated to a dict or list again. */
  ghost predicate IsAlive(log: seq<Event>, name: string, ttl: int, now: real, i: int) {
    && 0 <= i < |log|
    && log[i].Evaluated? && log[i].name == name && log[i].value.DictOrList? && now < log[i].end + ttl as real
    && forall j :: i < j < |log| ==>
         && !log[j].InvalidatedAll? && !(log[j].Invalidated? && name in log[j].names)
         && !(log[j].Evaluated? && log[j].name == name && log[j].value.DictOrList?)
  }

  lemma FreshMeaning(log: seq<Event>, name: string, ttl: int, now: real)
    ensures Fresh(log, name, ttl, now).Some? <==> exists i :: IsAlive(log, name, ttl, now, i)
    ensures forall i :: IsAlive(log, name, ttl, now, i) ==> Fresh(log, name, ttl, now) == Some(log[i].value)
  {
    forall i | IsAlive(log, name, ttl, now, i)
      ensures Fresh(log, name, ttl, now) == Some(log[i].value)
    {
      LatestFound(log, name, i);
    }
    if Fresh(log, name, ttl, now).Some? {
      var k := LatestIsSomewhere(log, name);
      LatestFound(log, name, k);
      assert IsAlive(log, name, ttl, now, k);
    }
  }

  /** The store holds the latest evaluations of the names with a positive lifetime, and nothing else. */
  ghost predicate Backed(store: map<string, Stored>, log: seq<Event>, ttls: map<string, int>) {
    && (forall name :: name in store ==> name in ttls && ttls[name] > 0)
    && (forall name :: name in ttls && ttls[name] > 0 ==>
          match Latest(log, name)
          case Some(e) => name in store && store[name] == Stored(e.value, e.end + ttls[name] as real)
          case None => name !in store)
  }

  /** A function runs only when there is nothing fresh to return, and one call after the other. */
  ghost predicate IsRun(log: seq<Event>, ttls: map<string, int>) {
    log == [] ||
    var prefix, last := log[..|log| - 1], log[|log| - 1];
    && IsRun(prefix, ttls)
    && (last.Evaluated? ==>
          && last.name in ttls && last.start <= last.end
          && (ttls[last.name] > 0 ==> Fresh(prefix, last.name, ttls[last.name], last.start).None?))
  }

  /** What the store gives a caller is what is fresh. */
  lemma HitIsFresh(store: map<string, Stored>, log: seq<Event>, ttls: map<string, int>, name: string, now: real)
    requires Backed(store, log, ttls) && name in ttls
    ensures (name in store && now < store[name].expireAt) <==> ttls[name] > 0 && Fresh(log, name, ttls[name], now).Some?
    ensures name in store && now < store[name].expireAt ==>
      store[name].value.DictOrList? && Fresh(log, name, ttls[name], now) == Some(store[name].value)
  {
  }

  function Kept(store: map<string, Stored>, e: Event, ttl: int): map<string, Stored>
    requires e.Evaluated?
  {
    if e.value.DictOrList? && ttl > 0 then store[e.name := Stored(e.value, e.end + ttl as real)] else store
  }

  lemma CallIsBacked(store: map<string, Stored>, log: seq<Event>, ttls: map<string, int>, e: Event)
    requires Backed(store, log, ttls) && e.Evaluated? && e.name in ttls
    ensures Backed(Kept(store, e, ttls[e.name]), log + [e], ttls)
  {
    assert (log + [e])[..|log|] == log;
  }

  lemma CallRecorded(store: map<string, Stored>, log: seq<Event>, ttls: map<string, int>, e: Event)
    requires Backed(store, log, ttls) && IsRun(log, ttls)
    requires e.Evaluated? && e.name in ttls && e.start <= e.end
    requires ttls[e.name] > 0 ==> Fresh(log, e.name, ttls[e.name], e.start).None?
    ensures IsRun(log + [e], ttls) && Backed(Kept(store, e, ttls[e.name]), log + [e], ttls)
  {
    CallIsBacked(store, log, ttls, e);
    assert (log + [e])[..|log|] == log;
  }

  class HttpCache {
    /** The lifetime each decorated function was given. */
    const ttls: map<string, int>
    var store: map<string, Stored>
    ghost var log: seq<Event>

    ghost predicate Valid()
      reads this
    {
      Backed(store, log, ttls) && IsRun(log, ttls)
    }

    constructor (ttls: map<string, int>)
      ensures Valid() && this.ttls == ttls && log == []
    {
      this.ttls := ttls;
      store, log := map[], [];
    }

    method Get(name: string, now: real) returns (hit: Option<Json>)
      ensures hit == if name in store && now < store[name].expireAt && store[name].value != Null
                     then Some(store[name].value) else None
    {
      hit := None;
      if name in store && now < store[name].expireAt && store[name].value != Null {
        hit := Some(store[name].value);
      }
    }

    /** Redis refuses a lifetime that is not positive, and the refusal is swallowed. */
    method Set(name: string, value: Json, ttl: int, now: real)
      modifies this`store
      ensures store == if ttl > 0 then old(store)[name := Stored(value, now + ttl as real)] else old(store)
    {
      if ttl > 0 {
        store := store[name := Stored(value, now + ttl as real)];
      }
    }

    ghost method Record(grown: seq<Event>)
      requires Backed(store, grown, ttls) && IsRun(grown, ttls)
      modifies this`log
      ensures Valid() && log == grown
    {
      log := grown;
    }

    /** The function has run: its result is kept if it is a dict or a list. */
    method Evaluate(name: string, ghost start: real, end: real, result: Json)
      requires Valid() && name in ttls && start <= end
      requires ttls[name] > 0 ==> Fresh(log, name, ttls[name], start).None?
      modifies this
      ensures Valid() && log == old(log) + [Evaluated(name, start, end, result)]
      ensures store == if result.DictOrList? && ttls[name] > 0
                       then old(store)[name := Stored(result, end + ttls[name] as real)] else old(store)
    {
      ghost var e, was := Evaluated(name, start, end, result), store;
      CallRecorded(was, log, ttls, e);
      if result.DictOrList? {
        Set(name, result, ttls[name], end);
      }
      assert store == Kept(was, e, ttls[name]);
      Record(log + [e]);
    }

    /** `sync_wrapper` of the function decorated with `name`, called at `start`; if the function has
        to run, it returns `result` at `end`.  A caller is given what is fresh, and the function
        runs exactly when nothing is. */
    method CallCached(name: string, start: real, end: real, result: Json) returns (value: Json)
      requires Valid() && name in ttls && start <= end
      modifies this
      ensures Valid()
      ensures var held := Fresh(old(log), name, ttls[name], start);
        if ttls[name] > 0 && held.Some? then
          value == held.value && log == old(log)
        else
          value == result && log == old(log) + [Evaluated(name, start, end, result)]
      ensures log == old(log) <==> ttls[name] > 0 && exists i :: IsAlive(old(log), name, ttls[name], start, i)
      ensures log == old(log) ==>
        exists i :: IsAlive(old(log), name, ttls[name], start, i) && value == old(log)[i].value
      ensures log != old(log) ==>
        store == if result.DictOrList? && ttls[name] > 0
                 then old(store)[name := Stored(result, end + ttls[name] as real)] else old(store)
    {
      FreshMeaning(log, name, ttls[name], start);
      HitIsFresh(store, log, ttls, name, start);
      var hit := Get(name, start);
      if hit.Some? {
        return hit.value;
      }
      value := result;
      Evaluate(name, start, end, result);
    }

    /** `invalidate`: the named entries in one call to Redis, or without names every entry in turn. */
    method Invalidate(names: set<string>)
      requires Valid()
      modifies this
      ensures Valid()
      ensures store == if names == {} then map[] else old(store) - names
      ensures log == old(log) + [if names == {} then InvalidatedAll else Invalidated(names)]
    {
      ghost var e := if names == {} then InvalidatedAll else Invalidated(names);
      assert (log + [e])[..|log|] == log;
      if names != {} {
        store := store - names;
      } else {
        var keys := store.Keys;
        while keys != {}
          modifies `store
          invariant store.Keys == keys
          decreases keys
        {
          var k :| k in keys;
          store := store - {k};
          keys := keys - {k};
        }
      }
      log := log + [e];
    }
  }

  // ---------- How often a function runs ----------

  /** The evaluations of `name`, in order. */
  function Evaluations(log: seq<Event>, name: string): seq<Event> {
    if log == [] then [] else
      var last := log[|log| - 1];
      Evaluations(log[..|log| - 1], name) + if last.Evaluated? && last.name == name then [last] else []
  }

  /** All evaluations of the name, each as often as it happened, and no others. */
  lemma {:induction false} EvaluationsMeaning(log: seq<Event>, name: string, e: Event)
    ensures multiset(Evaluations(log, name))[e] == if e.Evaluated? && e.name == name then multiset(log)[e] else 0
  {
    if log == [] {
    } else {
      var before, last := log[..|log| - 1], log[|log| - 1];
      EvaluationsMeaning(before, name, e);
      assert log == before + [last];
      OneMore(before, last, e);
      if last.Evaluated? && last.name == name {
        assert Evaluations(log, name) == Evaluations(before, name) + [last];
        OneMore(Evaluations(before, name), last, e);
      } else {
        assert Evaluations(log, name) == Evaluations(before, name);
      }
    }
  }

  lemma OneMore(s: seq<Event>, last: Event, e: Event)
    ensures multiset(s + [last])[e] == multiset(s)[e] + if e == last then 1 else 0
  {
  }

  /** A stretch of the log in which `name` is not invalidated and its function returns only dicts and lists. */
  ghost predicate Quiet(period: seq<Event>, name: string) {
    forall k :: 0 <= k < |period| ==>
      !Drops(period[k], name) && (period[k].Evaluated? && period[k].name == name ==> period[k].value.DictOrList?)
  }

  lemma {:induction false} LatestInPeriod(before: seq<Event>, period: seq<Event>, name: string)
    requires Quiet(period, name)
    ensures var evs := Evaluations(period, name); evs != [] ==> Latest(before + period, name) == Some(evs[|evs| - 1])
  {
    if period == [] {
    } else {
      LatestInPeriod(before, period[..|period| - 1], name);
      assert (before + period)[..|before + period| - 1] == before + period[..|period| - 1];
    }
  }

  ghost predicate Apart(evs: seq<Event>, name: string, ttl: int) {
    && (forall i :: 0 <= i < |evs| ==> evs[i].Evaluated? && evs[i].start <= evs[i].end)
    && forall i :: 0 < i < |evs| ==> evs[i].start >= evs[i - 1].end + ttl as real
  }

  /** An evaluation that starts when nothing is fresh starts a lifetime after the end of the one before. */
  lemma NextIsApart(log: seq<Event>, evs: seq<Event>, name: string, ttl: int, e: Event)
    requires Apart(evs, name, ttl) && (evs != [] ==> Latest(log, name) == Some(evs[|evs| - 1]))
    requires e.Evaluated? && e.start <= e.end && Fresh(log, name, ttl, e.start).None?
    ensures Apart(evs + [e], name, ttl)
  {
  }

  lemma RunLast(log: seq<Event>, e: Event, ttls: map<string, int>)
    requires IsRun(log + [e], ttls)
    ensures IsRun(log, ttls)
    ensures e.Evaluated? ==> e.name in ttls && e.start <= e.end
    ensures e.Evaluated? && ttls[e.name] > 0 ==> Fresh(log, e.name, ttls[e.name], e.start).None?
  {
    assert (log + [e])[..|log|] == log;
  }

  /** The period `earlier` with one event more. */
  lemma PeriodGrows(before: seq<Event>, earlier: seq<Event>, e: Event, ttls: map<string, int>, name: string)
    requires name in ttls && ttls[name] > 0 && IsRun(before + earlier + [e], ttls)
    requires Quiet(earlier, name) && Apart(Evaluations(earlier, name), name, ttls[name])
    ensures Apart(Evaluations(earlier + [e], name), name, ttls[name])
  {
    RunLast(before + earlier, e, ttls);
    assert (earlier + [e])[..|earlier|] == earlier;
    if e.Evaluated? && e.name == name {
      LatestInPeriod(before, earlier, name);
      NextIsApart(before + earlier, Evaluations(earlier, name), name, ttls[name], e);
    }
  }

  /** In a quiet period each evaluation starts at least the lifetime after the one before it ended. */
  lemma {:induction false} EvaluationsApart(before: seq<Event>, period: seq<Event>, ttls: map<string, int>,
                                            name: string)
    requires IsRun(before + period, ttls) && Quiet(period, name) && name in ttls && ttls[name] > 0
    ensures Apart(Evaluations(period, name), name, ttls[name])
  {
    if period == [] {
    } else {
      var earlier, last := period[..|period| - 1], period[|period| - 1];
      assert period == earlier + [last];
      assert before + period == before + earlier + [last];
      RunLast(before + earlier, last, ttls);
      EvaluationsApart(before, earlier, ttls, name);
      PeriodGrows(before, earlier, last, ttls, name);
    }
  }

  lemma {:induction false} ApartTakesTime(evs: seq<Event>, name: string, ttl: int, n: nat)
    requires Apart(evs, name, ttl) && n < |evs|
    ensures evs[n].start - evs[0].start >= (n * ttl) as real
  {
    if n == 0 {
    } else {
      ApartTakesTime(evs, name, ttl, n - 1);
      assert n * ttl == (n - 1) * ttl + ttl;
    }
  }

  /** Without invalidations, a function that returns dicts or lists runs at most `length / ttl + 1`
      times in any period. */
  lemma EvaluationBound(before: seq<Event>, period: seq<Event>, ttls: map<string, int>, name: string, length: real)
    requires IsRun(before + period, ttls) && Quiet(period, name) && name in ttls && ttls[name] > 0
    requires var evs := Evaluations(period, name);
      evs != [] && evs[0].Evaluated? && evs[|evs| - 1].Evaluated? && evs[|evs| - 1].start <= evs[0].start + length
    ensures |Evaluations(period, name)| as real <= length / ttls[name] as real + 1.0
  {
    var evs, ttl := Evaluations(period, name), ttls[name];
    EvaluationsApart(before, period, ttls, name);
    ApartTakesTime(evs, name, ttl, |evs| - 1);
    Quotient(|evs| - 1, ttl, length);
  }

  lemma Quotient(n: nat, x: int, total: real)
    requires x > 0 && (n * x) as real <= total
    ensures n as real <= total / x as real
  {
    assert (n * x) as real == n as real * x as real;
    assert total / x as real * x as real == total;
  }
}
