/** The periodic scan that dispatches the retries that are due. */
module RetryScanning {
  import opened Options
  import opened RetryManagement

  /** A key that SCAN returned and the time at which it is looked at. */
  datatype Visit = Visit(key: string, at: real)

  datatype Dispatch = Dispatch(key: string, session: string, at: real)

  predicate Ready(store: map<string, Stored>, v: Visit) {
    && v.key in store && v.at < store[v.key].expireAt
    && var p := store[v.key].payload;
       p.Fields? && p.retryAfter.Some? && p.retryAfter.value <= v.at && p.session.Some? && p.session.value != ""
  }

  datatype Progress = Progress(store: map<string, Stored>, dispatches: seq<Dispatch>)

  function Look(p: Progress, v: Visit): Progress {
    if Ready(p.store, v) then
      Progress(p.store - {v.key}, p.dispatches + [Dispatch(v.key, p.store[v.key].payload.session.value, v.at)])
    else p
  }

  function Pass(store: map<string, Stored>, visits: seq<Visit>): Progress {
    if visits == [] then Progress(store, []) else Look(Pass(store, visits[..|visits| - 1]), visits[|visits| - 1])
  }

  function Concat(batches: seq<seq<Visit>>): seq<Visit> {
    if batches == [] then [] else Concat(batches[..|batches| - 1]) + batches[|batches| - 1]
  }

  /** Every key of every batch is visited. */
  lemma {:induction false} EveryBatchVisited(batches: seq<seq<Visit>>, b: nat, k: nat) returns (i: nat)
    requires b < |batches| && k < |batches[b]|
    ensures i < |Concat(batches)| && Concat(batches)[i] == batches[b][k]
  {
    var last := |batches| - 1;
    if b == last {
      i := |Concat(batches[..last])| + k;
    } else {
      i := EveryBatchVisited(batches[..last], b, k);
    }
  }

  ghost predicate Dispatched(dispatches: seq<Dispatch>, key: string) {
    exists i :: 0 <= i < |dispatches| && dispatches[i].key == key
  }

  /** The entries under `retry_scheduled:`. */
  class RetryScanner {
    var scheduled: map<string, Stored>

    constructor (scheduled: map<string, Stored>)
      ensures this.scheduled == scheduled
    {
      this.scheduled := scheduled;
    }

    /** `scan_and_dispatch_retries`, for the batches that the cursor yields one after the other. */
    method ScanAndDispatch(batches: seq<seq<Visit>>) returns (dispatched: nat, dispatches: seq<Dispatch>)
      modifies this
      ensures Progress(scheduled, dispatches) == Pass(old(scheduled), Concat(batches))
      ensures dispatched == |dispatches|
    {
      dispatched, dispatches := 0, [];
      for b := 0 to |batches|
        invariant Progress(scheduled, dispatches) == Pass(old(scheduled), Concat(batches[..b]))
        invariant dispatched == |dispatches|
      {
        var keys := batches[b];
        var before := Concat(batches[..b]);
        assert before + keys[..0] == before;
        for k := 0 to |keys|
          invariant Progress(scheduled, dispatches) == Pass(old(scheduled), before + keys[..k])
          invariant dispatched == |dispatches|
        {
          PassStep(old(scheduled), before, keys, k);
          var key, now := keys[k].key, keys[k].at;
          if key !in scheduled || now >= scheduled[key].expireAt {
            continue;
          }
          var data := scheduled[key].payload;
          if data.Garbled? || data.retryAfter.None? {
            continue;
          }
          if now < data.retryAfter.value {
            continue;
          }
          if data.session.None? || data.session.value == "" {
            continue;
          }
          dispatches := dispatches + [Dispatch(key, data.session.value, now)];
          dispatched := dispatched + 1;
          scheduled := scheduled - {key};
        }
        assert keys[..|keys|] == keys;
        assert batches[..b + 1][..b] == batches[..b];
      }
      assert batches[..|batches|] == batches;
    }
  }

  lemma PassStep(store: map<string, Stored>, before: seq<Visit>, keys: seq<Visit>, k: nat)
    requires k < |keys|
    ensures Pass(store, before + keys[..k + 1]) == Look(Pass(store, before + keys[..k]), keys[k])
  {
    assert (before + keys[..k + 1])[..|before| + k] == before + keys[..k];
  }

  lemma DispatchedStep(dispatches: seq<Dispatch>, d: Dispatch, key: string)
    ensures Dispatched(dispatches + [d], key) <==> Dispatched(dispatches, key) || key == d.key
  {
    var more := dispatches + [d];
    assert more[|dispatches|] == d && forall i :: 0 <= i < |dispatches| ==> more[i] == dispatches[i];
  }

  /** What is left, what was dispatched and what there was. */
  ghost predicate Accounts(store: map<string, Stored>, p: Progress) {
    && (forall key :: key in p.store <==> key in store && !Dispatched(p.dispatches, key))
    && (forall key :: key in p.store ==> p.store[key] == store[key])
  }

  lemma LookAccounts(store: map<string, Stored>, p: Progress, v: Visit)
    requires Accounts(store, p)
    ensures Accounts(store, Look(p, v))
  {
    if Ready(p.store, v) {
      forall key
        ensures Dispatched(Look(p, v).dispatches, key) <==> Dispatched(p.dispatches, key) || key == v.key
      {
        DispatchedStep(p.dispatches, Dispatch(v.key, p.store[v.key].payload.session.value, v.at), key);
      }
    }
  }

  lemma {:induction false} PassAccounts(store: map<string, Stored>, visits: seq<Visit>)
    ensures Accounts(store, Pass(store, visits))
  {
    if visits == [] {
    } else {
      PassAccounts(store, visits[..|visits| - 1]);
      LookAccounts(store, Pass(store, visits[..|visits| - 1]), visits[|visits| - 1]);
    }
  }

  ghost predicate KeysDistinct(dispatches: seq<Dispatch>) {
    forall i, j :: 0 <= i < j < |dispatches| ==> dispatches[i].key != dispatches[j].key
  }

  ghost predicate KeysIn(dispatches: seq<Dispatch>, store: map<string, Stored>) {
    forall i :: 0 <= i < |dispatches| ==> dispatches[i].key in store
  }

  lemma LookIsNew(store: map<string, Stored>, p: Progress, v: Visit)
    requires Accounts(store, p) && KeysDistinct(p.dispatches) && KeysIn(p.dispatches, store)
    ensures KeysDistinct(Look(p, v).dispatches) && KeysIn(Look(p, v).dispatches, store)
  {
    if Ready(p.store, v) {
      assert !Dispatched(p.dispatches, v.key);
    }
  }

  lemma LookCounts(p: Progress, v: Visit)
    ensures |Look(p, v).store| + |Look(p, v).dispatches| == |p.store| + |p.dispatches|
  {
    if Ready(p.store, v) {
      assert p.store.Keys == Look(p, v).store.Keys + {v.key};
    }
  }

  /** One pass dispatches no key twice and removes exactly the keys it dispatches, leaving every
      other entry as it was; the number it reports is the number removed. */
  lemma {:induction false} PassRemovesDispatched(store: map<string, Stored>, visits: seq<Visit>)
    ensures var p := Pass(store, visits);
      && Accounts(store, p) && KeysDistinct(p.dispatches) && KeysIn(p.dispatches, store)
      && |p.store| == |store| - |p.dispatches|
  {
    PassAccounts(store, visits);
    if visits == [] {
    } else {
      var before, v := Pass(store, visits[..|visits| - 1]), visits[|visits| - 1];
      PassRemovesDispatched(store, visits[..|visits| - 1]);
      LookIsNew(store, before, v);
      LookCounts(before, v);
    }
  }

  /** The visit finds an entry live, complete and due, and `d` is what comes of it. */
  ghost predicate Finds(store: map<string, Stored>, v: Visit, d: Dispatch) {
    Ready(store, v) && d == Dispatch(v.key, store[v.key].payload.session.value, v.at)
  }

  /** Nothing is dispatched but what a visit finds live, complete and due: never early. */
  lemma {:induction false} PassIsNeverEarly(store: map<string, Stored>, visits: seq<Visit>, i: nat) returns (k: nat)
    requires i < |Pass(store, visits).dispatches|
    ensures k < |visits| && Finds(store, visits[k], Pass(store, visits).dispatches[i])
    ensures var v := visits[k];
      && v.key in store && v.at < store[v.key].expireAt
      && var p := store[v.key].payload;
         p.Fields? && p.retryAfter.Some? && p.retryAfter.value <= v.at && p.session.Some? && p.session.value != ""
  {
    k := |visits| - 1;
    PassRemovesDispatched(store, visits[..k]);
    if i < |Pass(store, visits[..k]).dispatches| {
      k := PassIsNeverEarly(store, visits[..k], i);
    }
  }

  /** Whatever a visit finds live, complete and due is dispatched, at this visit or an earlier one,
      in any order of visits and with any repetitions. */
  lemma {:induction false} PassDispatchesDue(store: map<string, Stored>, visits: seq<Visit>, k: nat)
    requires k < |visits| && visits[k].key in store && visits[k].at < store[visits[k].key].expireAt
    requires var p := store[visits[k].key].payload;
      && p.Fields? && p.retryAfter.Some? && p.retryAfter.value <= visits[k].at
      && p.session.Some? && p.session.value != ""
    ensures Dispatched(Pass(store, visits).dispatches, visits[k].key)
  {
    var last := |visits| - 1;
    var before, v := Pass(store, visits[..last]), visits[last];
    PassRemovesDispatched(store, visits[..last]);
    if k < last {
      PassDispatchesDue(store, visits[..last], k);
    }
    if Ready(before.store, v) {
      DispatchedStep(before.dispatches, Dispatch(v.key, before.store[v.key].payload.session.value, v.at),
        visits[k].key);
    }
  }

  /** The entry of a scheduled retry lives as long as the delay, and is due after the same delay.
      A scan can dispatch it only in the gap between the reading of the clock and the storing of
      the entry; without a gap, or for an empty session id, never. */
  lemma DispatchWindow(store: map<string, Stored>, v: Visit, id: string, attempt: int, delay: int, readAt: real,
                       setAt: real)
    requires v.key in store
    requires store[v.key] ==
             Stored(Fields(Some(id), Some(readAt + delay as real), attempt, delay), setAt + delay as real)
    ensures Ready(store, v) <==> id != "" && 0.0 <= v.at - (readAt + delay as real) < setAt - readAt
  {
  }
}
