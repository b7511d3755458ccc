/** The registry of worker nodes: a local dictionary in insertion order, mirrored in Redis.

    The active-task count is kept twice.  The local one is clamped at zero when it is decremented,
    the one in Redis is not; `CountEvent` histories say how far the two drift apart.  The status is
    kept twice too, and a worker that has fallen silent is marked in the local copy only;
    `StatusEvent` histories say what Redis still holds. */
module WorkerRegistries {
  import opened Options

  /** `lastHeartbeat` is the time of the last sign of life, if one is recorded. */
  datatype Worker = Worker(
    id: string, status: string, active: int, capacity: int, processed: int, failed: int, lastHeartbeat: Option<real>)

  /** The hash stored under `worker:<id>`. */
  datatype WorkerHash = WorkerHash(
    status: string, active: int, capacity: int, processed: int, failed: int, lastHeartbeat: Option<real>)

  const HEALTHY := "healthy"
  const UNHEALTHY := "unhealthy"

  function Mirror(w: Worker): WorkerHash {
    WorkerHash(w.status, w.active, w.capacity, w.processed, w.failed, w.lastHeartbeat)
  }

  /** The worker that hydration makes of a hash. */
  function Restored(id: string, hash: WorkerHash): Worker {
    Worker(id, hash.status, hash.active, hash.capacity, hash.processed, hash.failed, hash.lastHeartbeat)
  }

  function Registered(id: string, capacity: int, now: real): Worker {
    Worker(id, HEALTHY, 0, capacity, 0, 0, Some(now))
  }

  // ---------- Two counters, one clamped ----------

  /** What happens to the two counters of one worker.  `Sync` sets both: registration, heartbeat, hydration. */
  datatype CountEvent = Sync(count: int) | Up | Down

  /** The unclamped counter. */
  function RedisCount(h: seq<CountEvent>): int {
    if h == [] then 0 else
      match h[|h| - 1]
      case Sync(n) => n
      case Up => RedisCount(h[..|h| - 1]) + 1
      case Down => RedisCount(h[..|h| - 1]) - 1
  }

  /** The lowest value below zero to which a decrement has brought the unclamped counter since the last `Sync`. */
  function Floor(h: seq<CountEvent>): int {
    if h == [] then 0 else
      match h[|h| - 1]
      case Sync(_) => 0
      case Up => Floor(h[..|h| - 1])
      case Down => Min(Floor(h[..|h| - 1]), RedisCount(h))
  }

  function LocalCount(h: seq<CountEvent>): int {
    RedisCount(h) - Floor(h)
  }

  /** Position `i` lies after the last `Sync`. */
  ghost predicate SinceSync(h: seq<CountEvent>, i: int) {
    0 <= i < |h| && forall k :: i <= k < |h| ==> !h[k].Sync?
  }

  ghost predicate Underflow(h: seq<CountEvent>, i: int) {
    SinceSync(h, i) && h[i].Down? && RedisCount(h[..i + 1]) < 0
  }

  lemma {:induction false} FloorIsLowest(h: seq<CountEvent>, i: int)
    requires SinceSync(h, i) && h[i].Down?
    ensures Floor(h) <= RedisCount(h[..i + 1])
  {
    var k := |h| - 1;
    if i < k {
      assert h[..k][..i + 1] == h[..i + 1];
      FloorIsLowest(h[..k], i);
    } else {
      assert h[..i + 1] == h;
    }
  }

  lemma {:induction false} FloorIsReached(h: seq<CountEvent>) returns (i: int)
    ensures Floor(h) <= 0
    ensures Floor(h) < 0 ==> Underflow(h, i) && RedisCount(h[..i + 1]) == Floor(h)
  {
    i := -1;
    if h == [] {
    } else {
      var k := |h| - 1;
      i := FloorIsReached(h[..k]);
      if h[k].Down? && Floor(h) == RedisCount(h) {
        i := k;
        assert h[..k + 1] == h;
      } else if Floor(h) < 0 {
        assert h[..k][..i + 1] == h[..i + 1];
      }
    }
  }

  /** The counters agree exactly when no decrement has underflowed since they were last set together. */
  lemma CountersAgree(h: seq<CountEvent>)
    ensures LocalCount(h) == RedisCount(h) <==> !exists i :: Underflow(h, i)
  {
    var lowest := FloorIsReached(h);
    forall i | Underflow(h, i)
      ensures Floor(h) < 0
    {
      FloorIsLowest(h, i);
    }
  }

  /** The value both counters were last set to. */
  function LastSync(h: seq<CountEvent>): int {
    if h == [] then 0 else if h[|h| - 1].Sync? then h[|h| - 1].count else LastSync(h[..|h| - 1])
  }

  /** The lowest value the unclamped counter has had since then, that value included. */
  function Lowest(h: seq<CountEvent>): int {
    if h == [] then 0
    else if h[|h| - 1].Sync? then h[|h| - 1].count
    else Min(Lowest(h[..|h| - 1]), RedisCount(h))
  }

  /** The drift is the counter's lowest value (at most zero) exactly when the counters were last set
      to no less than that drift; setting them to zero or more always is enough. */
  lemma {:induction false} DriftIsLowest(h: seq<CountEvent>)
    ensures LocalCount(h) == RedisCount(h) - Min(0, Lowest(h)) <==> Floor(h) <= LastSync(h)
    ensures LastSync(h) >= 0 ==> LocalCount(h) == RedisCount(h) - Min(0, Lowest(h))
  {
    LowestSplits(h);
    var lowest := FloorIsReached(h);
  }

  lemma {:induction false} LowestSplits(h: seq<CountEvent>)
    ensures Min(0, Lowest(h)) == Min(Floor(h), LastSync(h))
    ensures Lowest(h) <= RedisCount(h)
  {
    if h == [] {
    } else {
      LowestSplits(h[..|h| - 1]);
    }
  }

  /** A heartbeat that reports a negative number is the case left out: local and Redis count then
      agree although the Redis count is below zero. */
  lemma NegativeHeartbeat(h: seq<CountEvent>, n: int)
    requires n < 0
    ensures var h' := h + [Sync(n)];
      LocalCount(h') == RedisCount(h') != RedisCount(h') - Min(0, Lowest(h'))
  {
  }

  /** An increment that is taken back restores the unclamped counter always, the clamped one
      exactly when it was not negative. */
  lemma RollbackRestores(h: seq<CountEvent>)
    ensures RedisCount(h + [Up, Down]) == RedisCount(h)
    ensures LocalCount(h + [Up, Down]) == Max(0, LocalCount(h))
  {
    var up := h + [Up];
    var down := up + [Down];
    assert up[..|h|] == h && down[..|up|] == up && h + [Up, Down] == down;
    assert RedisCount(up) == RedisCount(h) + 1 && Floor(up) == Floor(h);
    assert Floor(down) == Min(Floor(up), RedisCount(down));
  }

  // ---------- Two statuses, one of them marked ----------

  /** What happens to the status of one worker.  `Wrote` sets it locally and in Redis: registration,
      heartbeat, update, hydration.  `Marked` sets the local one to "unhealthy". */
  datatype StatusEvent = Wrote(status: string) | Marked

  function RedisStatus(s: seq<StatusEvent>): string {
    if s == [] then HEALTHY
    else if s[|s| - 1].Wrote? then s[|s| - 1].status
    else RedisStatus(s[..|s| - 1])
  }

  function LocalStatus(s: seq<StatusEvent>): string {
    if s == [] then HEALTHY
    else if s[|s| - 1].Wrote? then s[|s| - 1].status
    else UNHEALTHY
  }

  /** A marking with no write after it. */
  ghost predicate MarkStands(s: seq<StatusEvent>, i: int) {
    0 <= i < |s| && forall k :: i <= k < |s| ==> s[k].Marked?
  }

  /** The statuses agree exactly when the worker has not been marked since its status was last written
      to both, or what was written was "unhealthy" already. */
  lemma StatusesAgree(s: seq<StatusEvent>)
    ensures LocalStatus(s) == RedisStatus(s) <==> (!exists i :: MarkStands(s, i)) || RedisStatus(s) == UNHEALTHY
  {
    if s != [] && s[|s| - 1].Marked? {
      assert MarkStands(s, |s| - 1);
    }
  }

  // ---------- Availability ----------

  predicate Eligible(w: Worker) {
    w.status == HEALTHY && w.active < w.capacity
  }

  function Available(order: seq<string>, local: map<string, Worker>): seq<Worker> {
    if order == [] then [] else
      var id := order[|order| - 1];
      Available(order[..|order| - 1], local) + if id in local && Eligible(local[id]) then [local[id]] else []
  }

  ghost predicate Distinct<T>(s: seq<T>) {
    forall i, j :: 0 <= i < j < |s| ==> s[i] != s[j]
  }

  /** A dictionary of workers under their own ids, and its keys in insertion order. */
  ghost predicate IsFleet(order: seq<string>, local: map<string, Worker>) {
    && Distinct(order)
    && (forall id :: id in local ==> id in order && local[id].id == id)
    && (forall i :: 0 <= i < |order| ==> order[i] in local)
  }

  lemma {:induction false} AvailableMembers(order: seq<string>, local: map<string, Worker>)
    requires forall id :: id in local ==> local[id].id == id
    ensures forall w :: w in Available(order, local) <==>
      w.id in order && w.id in local && local[w.id] == w && w.status == "healthy" && w.active < w.capacity
  {
    if order == [] {
    } else {
      AvailableMembers(order[..|order| - 1], local);
    }
  }

  lemma {:induction false} AvailableDistinct(order: seq<string>, local: map<string, Worker>)
    requires Distinct(order) && forall id :: id in local ==> local[id].id == id
    ensures Distinct(Available(order, local))
  {
    if order == [] {
    } else {
      AvailableDistinct(order[..|order| - 1], local);
      AvailableMembers(order[..|order| - 1], local);
    }
  }

  /** `x` stands before `y`. */
  ghost predicate Precedes<T>(s: seq<T>, x: T, y: T) {
    exists i, j :: 0 <= i < j < |s| && s[i] == x && s[j] == y
  }

  lemma PrecedesExtends<T>(s: seq<T>, x: T, y: T, last: T)
    ensures Precedes(s + [last], x, y) <==> Precedes(s, x, y) || (x in s && y == last)
  {
    var more := s + [last];
    assert more[|s|] == last && forall i :: 0 <= i < |s| ==> more[i] == s[i];
    if Precedes(more, x, y) {
      var i, j :| 0 <= i < j < |more| && more[i] == x && more[j] == y;
      assert j < |s| ==> s[i] == x && s[j] == y;
      assert j == |s| ==> s[i] == x;
    }
    if Precedes(s, x, y) {
      var i, j :| 0 <= i < j < |s| && s[i] == x && s[j] == y;
      assert more[i] == x && more[j] == y;
    }
    if x in s && y == last {
      var i :| 0 <= i < |s| && s[i] == x;
      assert more[i] == x && more[|s|] == y;
    }
  }

  /** The available workers are listed in the order of their registration. */
  lemma {:induction false} AvailableInOrder(order: seq<string>, local: map<string, Worker>, i: nat, j: nat)
    requires forall id :: id in local ==> local[id].id == id
    requires i < j < |Available(order, local)|
    ensures Precedes(order, Available(order, local)[i].id, Available(order, local)[j].id)
  {
    var prefix, last := order[..|order| - 1], order[|order| - 1];
    var before := Available(prefix, local);
    assert order == prefix + [last];
    PrecedesExtends(prefix, Available(order, local)[i].id, Available(order, local)[j].id, last);
    if j < |before| {
      AvailableInOrder(prefix, local, i, j);
    } else {
      AvailableMembers(prefix, local);
      assert before[i] in before;
    }
  }

  /** Where the first worker with the fewest active tasks stands. */
  function LeastIndex(ws: seq<Worker>): (k: nat)
    requires ws != []
    ensures k < |ws|
    ensures forall j :: 0 <= j < k ==> ws[j].active > ws[k].active
    ensures forall j :: 0 <= j < |ws| ==> ws[j].active >= ws[k].active
  {
    if |ws| == 1 then 0
    else
      var best := LeastIndex(ws[..|ws| - 1]);
      if ws[|ws| - 1].active < ws[best].active then |ws| - 1 else best
  }

  function LeastLoaded(ws: seq<Worker>): Worker
    requires ws != []
  {
    ws[LeastIndex(ws)]
  }

  // ---------- Silent workers ----------

  const HEARTBEAT_TIMEOUT := 60.0

  /** The last recorded heartbeat is longer ago than the timeout. */
  predicate Silent(w: Worker, now: real) {
    w.lastHeartbeat.Some? && w.lastHeartbeat.value < now - HEARTBEAT_TIMEOUT
  }

  function Mark(w: Worker, now: real): Worker {
    if Silent(w, now) then w.(status := UNHEALTHY) else w
  }

  function MarkAll(local: map<string, Worker>, now: real): map<string, Worker> {
    map id | id in local :: Mark(local[id], now)
  }

  /** The silent workers, in registration order. */
  function SilentIds(order: seq<string>, local: map<string, Worker>, now: real): seq<string> {
    if order == [] then [] else
      var id := order[|order| - 1];
      SilentIds(order[..|order| - 1], local, now) + if id in local && Silent(local[id], now) then [id] else []
  }

  /** Marking takes exactly the silent workers out of the available ones, and reports every silent worker. */
  lemma MarkedAreUnavailable(order: seq<string>, local: map<string, Worker>, now: real, w: Worker)
    requires IsFleet(order, local)
    ensures w in Available(order, MarkAll(local, now)) <==>
      w in Available(order, local) && !(w.lastHeartbeat.Some? && now - w.lastHeartbeat.value > 60.0)
    ensures w.id in SilentIds(order, local, now) <==>
      && w.id in local && local[w.id].lastHeartbeat.Some?
      && now - local[w.id].lastHeartbeat.value > 60.0
  {
    AvailableMembers(order, local);
    AvailableMembers(order, MarkAll(local, now));
    SilentMembers(order, local, now, w.id);
  }

  lemma {:induction false} SilentMembers(order: seq<string>, local: map<string, Worker>, now: real, id: string)
    ensures id in SilentIds(order, local, now) <==> id in order && id in local && Silent(local[id], now)
  {
    if order == [] {
    } else {
      SilentMembers(order[..|order| - 1], local, now, id);
      assert order == order[..|order| - 1] + [order[|order| - 1]];
    }
  }

  lemma {:induction false} SilentInOrder(order: seq<string>, local: map<string, Worker>, now: real, i: nat, j: nat)
    requires i < j < |SilentIds(order, local, now)|
    ensures Precedes(order, SilentIds(order, local, now)[i], SilentIds(order, local, now)[j])
  {
    var prefix, last := order[..|order| - 1], order[|order| - 1];
    var before := SilentIds(prefix, local, now);
    assert order == prefix + [last];
    PrecedesExtends(prefix, SilentIds(order, local, now)[i], SilentIds(order, local, now)[j], last);
    if j < |before| {
      SilentInOrder(prefix, local, now, i, j);
    } else {
      SilentMembers(prefix, local, now, before[i]);
    }
  }

  /** Who is reported, and what becomes of whom. */
  lemma DetectedExactly(order: seq<string>, local: map<string, Worker>, now: real)
    requires IsFleet(order, local)
    ensures forall id :: id in SilentIds(order, local, now) <==>
      id in local && local[id].lastHeartbeat.Some? && now - local[id].lastHeartbeat.value > 60.0
    ensures forall id :: id in local ==>
      MarkAll(local, now)[id] ==
      if id in SilentIds(order, local, now) then local[id].(status := "unhealthy") else local[id]
    ensures forall i, j :: 0 <= i < j < |SilentIds(order, local, now)| ==>
      Precedes(order, SilentIds(order, local, now)[i], SilentIds(order, local, now)[j])
  {
    forall i, j | 0 <= i < j < |SilentIds(order, local, now)|
      ensures Precedes(order, SilentIds(order, local, now)[i], SilentIds(order, local, now)[j])
    {
      SilentInOrder(order, local, now, i, j);
    }
    forall id
      ensures id in SilentIds(order, local, now) <==> id in order && id in local && Silent(local[id], now)
    {
      SilentMembers(order, local, now, id);
    }
  }

  // ---------- The registry ----------

  /** Redis takes the time of a heartbeat a moment after the local copy. */
  ghost predicate HeardNoLater(local: Option<real>, redis: Option<real>) {
    if local.None? then redis.None? else redis.Some? && local.value <= redis.value
  }

  datatype History = History(counts: seq<CountEvent>, statuses: seq<StatusEvent>)

  ghost predicate Mirrored(w: Worker, hash: WorkerHash, h: History) {
    && w.active == LocalCount(h.counts) && hash.active == RedisCount(h.counts)
    && w.status == LocalStatus(h.statuses) && hash.status == RedisStatus(h.statuses)
    && hash.capacity == w.capacity && hash.processed == w.processed && hash.failed == w.failed
    && HeardNoLater(w.lastHeartbeat, hash.lastHeartbeat)
  }

  function Incremented(w: Worker): Worker {
    w.(active := w.active + 1)
  }

  function IncrementedHash(hash: WorkerHash): WorkerHash {
    hash.(active := hash.active + 1)
  }

  function Decremented(w: Worker): Worker {
    w.(active := Max(0, w.active - 1), processed := w.processed + 1)
  }

  function Heard(w: Worker, active: int, now: real): Worker {
    w.(active := active, lastHeartbeat := Some(now), status := HEALTHY)
  }

  function HeardHash(hash: WorkerHash, active: int, now: real): WorkerHash {
    hash.(active := active, lastHeartbeat := Some(now), status := HEALTHY)
  }

  function DecrementedHash(hash: WorkerHash): WorkerHash {
    hash.(active := hash.active - 1, processed := hash.processed + 1)
  }

  /** Hydration reads back the local count exactly when no decrement has underflowed, and the local
      status exactly when the worker has not been marked since its status was last written, or was
      "unhealthy" already; the rest it always reads back, but for a slightly later heartbeat. */
  lemma HydrationRestores(w: Worker, hash: WorkerHash, h: History)
    requires Mirrored(w, hash, h)
    ensures var v := Restored(w.id, hash);
      && (v.active == w.active <==> !exists i :: Underflow(h.counts, i))
      && (v.status == w.status <==> (!exists i :: MarkStands(h.statuses, i)) || hash.status == UNHEALTHY)
      && v == w.(active := v.active, status := v.status, lastHeartbeat := v.lastHeartbeat)
      && HeardNoLater(w.lastHeartbeat, v.lastHeartbeat)
  {
    CountersAgree(h.counts);
    StatusesAgree(h.statuses);
  }

  function Happened(h: History, e: CountEvent): History {
    h.(counts := h.counts + [e])
  }

  function Written(h: History, status: string): History {
    h.(statuses := h.statuses + [Wrote(status)])
  }

  lemma CountAfter(h: seq<CountEvent>, e: CountEvent)
    ensures RedisCount(h + [e]) == match e case Sync(n) => n case Up => RedisCount(h) + 1 case Down => RedisCount(h) - 1
    ensures LocalCount(h + [e]) ==
      match e case Sync(n) => n case Up => LocalCount(h) + 1 case Down => Max(0, LocalCount(h) - 1)
  {
    assert (h + [e])[..|h|] == h;
  }

  lemma UpMirrored(w: Worker, hash: WorkerHash, h: History)
    requires Mirrored(w, hash, h)
    ensures Mirrored(Incremented(w), IncrementedHash(hash), Happened(h, Up))
  {
    CountAfter(h.counts, Up);
  }

  lemma DownMirrored(w: Worker, hash: WorkerHash, h: History)
    requires Mirrored(w, hash, h)
    ensures Mirrored(Decremented(w), DecrementedHash(hash), Happened(h, Down))
  {
    CountAfter(h.counts, Down);
  }

  lemma StatusAfter(s: seq<StatusEvent>, e: StatusEvent)
    ensures RedisStatus(s + [e]) == match e case Wrote(status) => status case Marked => RedisStatus(s)
    ensures LocalStatus(s + [e]) == match e case Wrote(status) => status case Marked => UNHEALTHY
  {
    assert (s + [e])[..|s|] == s;
  }

  ghost predicate Consistent(order: seq<string>, local: map<string, Worker>, redis: map<string, WorkerHash>,
                             allWorkers: set<string>, histories: map<string, History>) {
    && IsFleet(order, local)
    && local.Keys <= allWorkers && local.Keys <= redis.Keys && local.Keys <= histories.Keys
    && forall id :: id in local ==> Mirrored(local[id], redis[id], histories[id])
  }

  /** One worker's two records and history change together. */
  lemma WorkerChanged(order: seq<string>, local: map<string, Worker>, redis: map<string, WorkerHash>,
                      allWorkers: set<string>,
                      histories: map<string, History>, id: string, w: Worker, hash: WorkerHash, h: History)
    requires Consistent(order, local, redis, allWorkers, histories)
    requires id in local && w.id == id && Mirrored(w, hash, h)
    ensures Consistent(order, local[id := w], redis[id := hash], allWorkers, histories[id := h])
  {
  }

  lemma WorkerAdded(order: seq<string>, local: map<string, Worker>, redis: map<string, WorkerHash>,
                    allWorkers: set<string>,
                    histories: map<string, History>, id: string, w: Worker, hash: WorkerHash, h: History)
    requires Consistent(order, local, redis, allWorkers, histories)
    requires id !in local && w.id == id && Mirrored(w, hash, h)
    ensures Consistent(order + [id], local[id := w], redis[id := hash], allWorkers + {id}, histories[id := h])
  {
    FleetGrows(order, local, id, w);
  }

  lemma FleetGrows(order: seq<string>, local: map<string, Worker>, id: string, w: Worker)
    requires IsFleet(order, local) && id !in local && w.id == id
    ensures IsFleet(order + [id], local[id := w])
  {
  }

  function Without(order: seq<string>, id: string): seq<string> {
    if order == [] then [] else
      Without(order[..|order| - 1], id) + if order[|order| - 1] == id then [] else [order[|order| - 1]]
  }

  lemma {:induction false} WithoutMeaning(order: seq<string>, id: string)
    requires Distinct(order)
    ensures Distinct(Without(order, id))
    ensures forall x :: x in Without(order, id) <==> x in order && x != id
  {
    if order == [] {
    } else {
      var k := |order| - 1;
      WithoutMeaning(order[..k], id);
      assert order == order[..k] + [order[k]] && order[k] !in order[..k];
    }
  }

  /** Whoever is taken out, the others keep their order. */
  lemma {:induction false} WithoutKeepsOrder(order: seq<string>, id: string, x: string, y: string)
    requires Distinct(order)
    ensures Precedes(Without(order, id), x, y) <==> x != id && y != id && Precedes(order, x, y)
  {
    if order == [] {
    } else {
      var prefix, last := order[..|order| - 1], order[|order| - 1];
      assert order == prefix + [last];
      WithoutKeepsOrder(prefix, id, x, y);
      WithoutMeaning(prefix, id);
      PrecedesExtends(prefix, x, y, last);
      PrecedesExtends(Without(prefix, id), x, y, last);
      if last == id {
        assert Without(order, id) == Without(prefix, id);
      }
    }
  }

  lemma FleetShrinks(order: seq<string>, local: map<string, Worker>, id: string)
    requires IsFleet(order, local)
    ensures IsFleet(Without(order, id), local - {id})
  {
    WithoutMeaning(order, id);
    assert forall i :: 0 <= i < |Without(order, id)| ==> Without(order, id)[i] in Without(order, id);
  }

  lemma WorkerRemoved(order: seq<string>, local: map<string, Worker>, redis: map<string, WorkerHash>,
                      allWorkers: set<string>,
                      histories: map<string, History>, id: string)
    requires Consistent(order, local, redis, allWorkers, histories)
    ensures Consistent(Without(order, id), local - {id}, redis - {id}, allWorkers - {id}, histories - {id})
  {
    FleetShrinks(order, local, id);
  }

  function MarkHistory(h: History, w: Worker, now: real): History {
    if Silent(w, now) then h.(statuses := h.statuses + [Marked]) else h
  }

  lemma MarkMirrored(w: Worker, hash: WorkerHash, h: History, now: real)
    requires Mirrored(w, hash, h)
    ensures Mirrored(Mark(w, now), hash, MarkHistory(h, w, now))
  {
    StatusAfter(h.statuses, Marked);
  }

  ghost function MarkHistories(histories: map<string, History>, local: map<string, Worker>, now: real)
      : map<string, History>
  {
    map id | id in histories :: if id in local then MarkHistory(histories[id], local[id], now) else histories[id]
  }

  lemma WorkersMarked(order: seq<string>, local: map<string, Worker>, redis: map<string, WorkerHash>,
                      allWorkers: set<string>,
                      histories: map<string, History>, now: real)
    requires Consistent(order, local, redis, allWorkers, histories)
    ensures Consistent(order, MarkAll(local, now), redis, allWorkers, MarkHistories(histories, local, now))
  {
    forall id | id in local
      ensures Mirrored(MarkAll(local, now)[id], redis[id], MarkHistories(histories, local, now)[id])
    {
      MarkMirrored(local[id], redis[id], histories[id], now);
    }
  }

  /** The first `n` workers have been looked at. */
  ghost predicate MarkedUpTo(order: seq<string>, local: map<string, Worker>, marked: map<string, Worker>, now: real,
                             n: nat) {
    && marked.Keys == local.Keys && n <= |order| && IsFleet(order, local)
    && forall k :: 0 <= k < |order| ==>
         marked[order[k]] == if k < n then Mark(local[order[k]], now) else local[order[k]]
  }

  lemma MarkNext(order: seq<string>, local: map<string, Worker>, marked: map<string, Worker>, now: real, n: nat)
    requires n < |order| && MarkedUpTo(order, local, marked, now, n)
    ensures order[n] in local && marked[order[n]] == local[order[n]]
    ensures MarkedUpTo(order, local, marked[order[n] := Mark(local[order[n]], now)], now, n + 1)
    ensures !Silent(local[order[n]], now) ==> marked[order[n] := Mark(local[order[n]], now)] == marked
    ensures SilentIds(order[..n + 1], local, now) ==
            SilentIds(order[..n], local, now) + if Silent(local[order[n]], now) then [order[n]] else []
  {
    assert order[..n + 1][..n] == order[..n];
  }

  lemma AllMarked(order: seq<string>, local: map<string, Worker>, marked: map<string, Worker>, now: real)
    requires MarkedUpTo(order, local, marked, now, |order|)
    ensures marked == MarkAll(local, now)
  {
  }

  /** What a new process knows of a member of `workers:all`, if it has a hash. */
  function Hydrated(redis: map<string, WorkerHash>, members: seq<string>): map<string, Worker> {
    map id | id in members && id in redis :: Restored(id, redis[id])
  }

  lemma HydrateNext(redis: map<string, WorkerHash>, members: seq<string>, ids: seq<string>,
                    workers: map<string, Worker>, i: nat)
    requires i < |members| && Distinct(members)
    requires IsFleet(ids, workers) && workers == Hydrated(redis, members[..i])
    ensures members[i] in redis ==>
      && IsFleet(ids + [members[i]], workers[members[i] := Restored(members[i], redis[members[i]])])
      && Hydrated(redis, members[..i + 1]) == workers[members[i] := Restored(members[i], redis[members[i]])]
    ensures members[i] !in redis ==> Hydrated(redis, members[..i + 1]) == workers
  {
    var id := members[i];
    assert members[..i + 1] == members[..i] + [id];
    if id in redis {
      FleetGrows(ids, workers, id, Restored(id, redis[id]));
    }
  }

  ghost function HydratedHistory(hash: WorkerHash): History {
    History([Sync(hash.active)], [Wrote(hash.status)])
  }

  lemma HydratedIsConsistent(order: seq<string>, redis: map<string, WorkerHash>, members: seq<string>)
    requires IsFleet(order, Hydrated(redis, members))
    ensures Consistent(order, Hydrated(redis, members), redis, set id | id in members,
                       map id | id in Hydrated(redis, members) :: HydratedHistory(redis[id]))
  {
  }

  class WorkerRegistry {
    var order: seq<string>
    var local: map<string, Worker>
    /** The part of Redis that this registry writes: the hashes and the set `workers:all`. */
    var redis: map<string, WorkerHash>
    var allWorkers: set<string>
    ghost var histories: map<string, History>

    ghost predicate Valid()
      reads this
    {
      Consistent(order, local, redis, allWorkers, histories)
    }

    function AvailableNow(): seq<Worker>
      reads this
    {
      Available(order, local)
    }

    /** A registry of a new process: it takes over what Redis holds, in whatever order Redis lists
        the members of `workers:all`; a member without a hash is passed over. */
    constructor Hydrate(redis: map<string, WorkerHash>, members: seq<string>)
      requires Distinct(members)
      ensures Valid() && this.redis == redis && allWorkers == set id | id in members
      ensures local == Hydrated(redis, members)
      ensures forall id :: id in local ==> histories[id] == HydratedHistory(redis[id])
    {
      var ids: seq<string>, workers: map<string, Worker> := [], map[];
      for i := 0 to |members|
        invariant IsFleet(ids, workers)
        invariant workers == Hydrated(redis, members[..i])
      {
        HydrateNext(redis, members, ids, workers, i);
        var id := members[i];
        if id in redis {
          ids := ids + [id];
          workers := workers[id := Restored(id, redis[id])];
        }
      }
      assert members[..|members|] == members;
      HydratedIsConsistent(ids, redis, members);
      order, local, this.redis, allWorkers := ids, workers, redis, set id | id in members;
      histories := map id | id in Hydrated(redis, members) :: HydratedHistory(redis[id]);
    }

    /** Both copies of the worker data, after a change to one worker. */
    method Write(local: map<string, Worker>, redis: map<string, WorkerHash>, ghost histories: map<string, History>)
      requires Consistent(order, local, redis, allWorkers, histories)
      modifies this`local, this`redis, this`histories
      ensures Valid() && this.local == local && this.redis == redis && this.histories == histories
    {
      this.local, this.redis, this.histories := local, redis, histories;
    }

    method RegisterWorker(id: string, capacity: int := 4, now: real) returns (ok: bool)
      requires Valid()
      modifies this
      ensures Valid() && ok
      ensures order == if id in old(local) then old(order) else old(order) + [id]
      ensures local == old(local)[id := Worker(id, "healthy", 0, capacity, 0, 0, Some(now))]
      ensures redis == old(redis)[id := WorkerHash("healthy", 0, capacity, 0, 0, Some(now))]
      ensures allWorkers == old(allWorkers) + {id}
      ensures histories == old(histories)[id := History([Sync(0)], [Wrote(HEALTHY)])]
    {
      var data := Registered(id, capacity, now);
      ghost var h := History([Sync(0)], [Wrote(HEALTHY)]);
      if id in local {
        WorkerChanged(order, local, redis, allWorkers, histories, id, data, Mirror(data), h);
        assert allWorkers + {id} == allWorkers;
      } else {
        WorkerAdded(order, local, redis, allWorkers, histories, id, data, Mirror(data), h);
        order := order + [id];
      }
      allWorkers := allWorkers + {id};
      Write(local[id := data], redis[id := Mirror(data)], histories[id := h]);
      ok := true;
    }

    method UpdateWorkerStatus(id: string, status: string) returns (ok: bool)
      requires Valid()
      modifies this
      ensures Valid() && ok == (id in old(local)) && order == old(order) && allWorkers == old(allWorkers)
      ensures !ok ==> local == old(local) && redis == old(redis) && histories == old(histories)
      ensures ok ==> local == old(local)[id := old(local)[id].(status := status)]
      ensures ok ==> redis == old(redis)[id := old(redis)[id].(status := status)]
      ensures ok ==> histories == old(histories)[id := Written(old(histories)[id], status)]
    {
      if id !in local {
        return false;
      }
      var worker, hash := local[id].(status := status), redis[id].(status := status);
      StatusAfter(histories[id].statuses, Wrote(status));
      WorkerChanged(order, local, redis, allWorkers, histories, id, worker, hash, Written(histories[id], status));
      Write(local[id := worker], redis[id := hash], histories[id := Written(histories[id], status)]);
      ok := true;
    }

    /** The clock is read twice: at `now` for the local copy and at `written` for Redis. */
    method Heartbeat(id: string, activeTasks: int, now: real, written: real) returns (ok: bool)
      requires Valid() && now <= written
      modifies this
      ensures Valid() && ok == (id in old(local)) && order == old(order) && allWorkers == old(allWorkers)
      ensures !ok ==> local == old(local) && redis == old(redis) && histories == old(histories)
      ensures ok ==>
        local ==
        old(local)[id := old(local)[id].(active := activeTasks, lastHeartbeat := Some(now), status := "healthy")]
      ensures ok ==>
        redis ==
        old(redis)[id := old(redis)[id].(active := activeTasks, lastHeartbeat := Some(written), status := "healthy")]
      ensures ok ==>
        histories == old(histories)[id := Written(Happened(old(histories)[id], Sync(activeTasks)), HEALTHY)]
    {
      if id !in local {
        return false;
      }
      var worker := local[id].(active := activeTasks, lastHeartbeat := Some(now), status := HEALTHY);
      var hash := redis[id].(active := activeTasks, lastHeartbeat := Some(written), status := HEALTHY);
      ghost var h := Written(Happened(histories[id], Sync(activeTasks)), HEALTHY);
      CountAfter(histories[id].counts, Sync(activeTasks));
      StatusAfter(histories[id].statuses, Wrote(HEALTHY));
      WorkerChanged(order, local, redis, allWorkers, histories, id, worker, hash, h);
      Write(local[id := worker], redis[id := hash], histories[id := h]);
      ok := true;
    }

    method IncrementActiveTasks(id: string) returns (ok: bool)
      requires Valid()
      modifies this
      ensures Valid() && ok == (id in old(local)) && order == old(order) && allWorkers == old(allWorkers)
      ensures !ok ==> local == old(local) && redis == old(redis) && histories == old(histories)
      ensures ok ==> local == old(local)[id := Incremented(old(local)[id])]
      ensures ok ==> redis == old(redis)[id := IncrementedHash(old(redis)[id])]
      ensures ok ==> local[id].active == old(local)[id].active + 1 && redis[id].active == old(redis)[id].active + 1
      ensures ok ==> histories == old(histories)[id := Happened(old(histories)[id], Up)]
    {
      if id !in local {
        return false;
      }
      var worker, hash := local[id].(active := local[id].active + 1), redis[id].(active := redis[id].active + 1);
      UpMirrored(local[id], redis[id], histories[id]);
      WorkerChanged(order, local, redis, allWorkers, histories, id, worker, hash, Happened(histories[id], Up));
      Write(local[id := worker], redis[id := hash], histories[id := Happened(histories[id], Up)]);
      ok := true;
    }

    method DecrementActiveTasks(id: string) returns (ok: bool)
      requires Valid()
      modifies this
      ensures Valid() && ok == (id in old(local)) && order == old(order) && allWorkers == old(allWorkers)
      ensures !ok ==> local == old(local) && redis == old(redis) && histories == old(histories)
      ensures ok ==> local == old(local)[id := Decremented(old(local)[id])]
      ensures ok ==> redis == old(redis)[id := DecrementedHash(old(redis)[id])]
      ensures ok ==> local[id].active == (if old(local)[id].active >= 1 then old(local)[id].active - 1 else 0)
      ensures ok ==> redis[id].active == old(redis)[id].active - 1
      ensures ok ==> local[id].processed == old(local)[id].processed + 1
      ensures ok ==> redis[id].processed == old(redis)[id].processed + 1
      ensures ok ==> histories == old(histories)[id := Happened(old(histories)[id], Down)]
    {
      if id !in local {
        return false;
      }
      var current := local[id].active;
      var worker := local[id].(active := Max(0, current - 1), processed := local[id].processed + 1);
      var hash := redis[id].(active := redis[id].active - 1, processed := redis[id].processed + 1);
      DownMirrored(local[id], redis[id], histories[id]);
      WorkerChanged(order, local, redis, allWorkers, histories, id, worker, hash, Happened(histories[id], Down));
      Write(local[id := worker], redis[id := hash], histories[id := Happened(histories[id], Down)]);
      ok := true;
    }

    method GetAvailableWorkers() returns (available: seq<Worker>)
      ensures available == AvailableNow()
    {
      available := [];
      for i := 0 to |order|
        invariant available == Available(order[..i], local)
      {
        assert order[..i + 1][..i] == order[..i];
        if order[i] in local {
          var worker := local[order[i]];
          if worker.status == HEALTHY && worker.active < worker.capacity {
            available := available + [worker];
          }
        }
      }
      assert order[..|order|] == order;
    }

    method GetLeastLoadedWorker() returns (worker: Option<Worker>)
      ensures worker == if AvailableNow() == [] then None else Some(LeastLoaded(AvailableNow()))
    {
      var available := GetAvailableWorkers();
      if available == [] {
        return None;
      }
      worker := Some(LeastLoaded(available));
    }

    /** The loop over the local copy that collects and marks the silent workers. */
    method MarkSilent(now: real) returns (unhealthy: seq<string>)
      requires IsFleet(order, local)
      modifies `local
      ensures local == MarkAll(old(local), now) && unhealthy == SilentIds(order, old(local), now)
    {
      ghost var was := local;
      unhealthy := [];
      for i := 0 to |order|
        invariant MarkedUpTo(order, was, local, now, i)
        invariant unhealthy == SilentIds(order[..i], was, now)
      {
        MarkNext(order, was, local, now, i);
        var id := order[i];
        if local[id].lastHeartbeat.Some? && local[id].lastHeartbeat.value < now - HEARTBEAT_TIMEOUT {
          unhealthy := unhealthy + [id];
          local := local[id := local[id].(status := UNHEALTHY)];
        }
      }
      assert order[..|order|] == order;
      AllMarked(order, was, local, now);
    }

    /** Marks the silent workers, in the local copy only, and reports them. */
    method DetectUnhealthyWorkers(now: real) returns (unhealthy: seq<string>)
      requires Valid()
      modifies this
      ensures Valid() && order == old(order) && redis == old(redis) && allWorkers == old(allWorkers)
      ensures local == MarkAll(old(local), now) && unhealthy == SilentIds(order, old(local), now)
      ensures forall id :: id in unhealthy <==>
        && id in old(local) && old(local)[id].lastHeartbeat.Some?
        && now - old(local)[id].lastHeartbeat.value > 60.0
      ensures forall i, j :: 0 <= i < j < |unhealthy| ==> Precedes(order, unhealthy[i], unhealthy[j])
      ensures local.Keys == old(local).Keys
      ensures forall id :: id in local ==>
        local[id] == if id in unhealthy then old(local)[id].(status := "unhealthy") else old(local)[id]
      ensures histories == MarkHistories(old(histories), old(local), now)
    {
      WorkersMarked(order, local, redis, allWorkers, histories, now);
      DetectedExactly(order, local, now);
      ghost var marked := MarkHistories(histories, local, now);
      unhealthy := MarkSilent(now);
      Write(local, redis, marked);
    }

    method DeregisterWorker(id: string) returns (ok: bool)
      requires Valid()
      modifies this
      ensures Valid() && ok
      ensures local == old(local) - {id} && redis == old(redis) - {id}
      ensures allWorkers == old(allWorkers) - {id} && histories == old(histories) - {id}
      ensures order == Without(old(order), id)
    {
      WorkerRemoved(order, local, redis, allWorkers, histories, id);
      order, allWorkers := Without(order, id), allWorkers - {id};
      Write(local - {id}, redis - {id}, histories - {id});
      ok := true;
    }
  }
}
