/** The session lifecycle: database rows, their copies in the Redis cache, the set of active ids,
    and the calls and worker tasks that move them.

    `World` is the joint state of database and cache; one `Step` is one API call, taken atomically
    with Redis reachable.  The classes update the state in place and are proved to take these steps. */
module Sessions {
  import opened Options

  // ---------- The transition table ----------

  /** `Unknown` is any other string. */
  datatype Status =
    | Created | Queued | Processing | VideoProcessing | AudioProcessing | Evaluating
    | Completed | Failed | Timeout | Cancelled | Unknown(name: string)

  function ValidTransitions(s: Status): set<Status> {
    match s
    case Created => {Queued, Failed, Cancelled}
    case Queued => {Processing, VideoProcessing, Failed, Cancelled}
    case Processing => {VideoProcessing, AudioProcessing, Evaluating, Completed, Failed, Timeout}
    case VideoProcessing => {AudioProcessing, Processing, Failed, Timeout}
    case AudioProcessing => {Evaluating, Processing, Failed, Timeout}
    case Evaluating => {Completed, Processing, Failed, Timeout}
    case Timeout => {Failed}
    case Completed | Failed | Cancelled | Unknown(_) => {}
  }

  predicate IsValidTransition(current: Status, next: Status) {
    next in ValidTransitions(current)
  }

  /** The table read from the other side: from where each status is accepted. */
  lemma TransitionsInto(current: Status)
    ensures IsValidTransition(current, Queued) <==> current == Created
    ensures IsValidTransition(current, Processing) <==>
      current == Queued || current == VideoProcessing || current == AudioProcessing || current == Evaluating
    ensures IsValidTransition(current, VideoProcessing) <==> current == Queued || current == Processing
    ensures IsValidTransition(current, AudioProcessing) <==> current == Processing || current == VideoProcessing
    ensures IsValidTransition(current, Evaluating) <==> current == Processing || current == AudioProcessing
    ensures IsValidTransition(current, Completed) <==> current == Processing || current == Evaluating
    ensures IsValidTransition(current, Failed) <==>
      !(current == Completed || current == Failed || current == Cancelled || current.Unknown?)
    ensures IsValidTransition(current, Timeout) <==>
      current == Processing || current == VideoProcessing || current == AudioProcessing || current == Evaluating
    ensures IsValidTransition(current, Cancelled) <==> current == Created || current == Queued
    ensures !IsValidTransition(current, Created) && forall name :: !IsValidTransition(current, Unknown(name))
  {
  }

  predicate InPipeline(s: Status) {
    s.Processing? || s.VideoProcessing? || s.AudioProcessing? || s.Evaluating?
  }

  /** A walk along the table; a refused update stays where it is. */
  ghost predicate IsPath(p: seq<Status>) {
    forall i :: 0 <= i < |p| - 1 ==> p[i + 1] == p[i] || IsValidTransition(p[i], p[i + 1])
  }

  function Rank(s: Status): nat {
    match s
    case Created => 0
    case Queued => 1
    case Processing | VideoProcessing | AudioProcessing | Evaluating => 2
    case Timeout => 3
    case Completed | Failed | Cancelled | Unknown(_) => 4
  }

  lemma {:induction false} RankRises(p: seq<Status>, i: nat, j: nat)
    requires IsPath(p) && i <= j < |p|
    ensures Rank(p[i]) <= Rank(p[j])
    ensures Rank(p[i]) == Rank(p[j]) && p[i] != p[j] ==> InPipeline(p[i])
  {
    if i == j {
    } else {
      RankRises(p, i, j - 1);
    }
  }

  /** A walk that comes back to a status it has left does so inside the processing pipeline, and
      all it passes on the way lies there too. */
  lemma CyclesStayInPipeline(p: seq<Status>, i: nat, k: nat, j: nat)
    requires IsPath(p) && i <= k <= j < |p|
    requires p[i] == p[j] && p[k] != p[i]
    ensures InPipeline(p[i]) && InPipeline(p[k])
  {
    RankRises(p, i, k);
    RankRises(p, k, j);
  }

  /** A terminal status is not left. */
  lemma TerminalIsFinal(p: seq<Status>, i: nat, j: nat)
    requires IsPath(p) && i <= j < |p| && (p[i] == Completed || p[i] == Failed || p[i] == Cancelled)
    ensures p[j] == p[i]
    decreases j
  {
    if i < j {
      TerminalIsFinal(p, i, j - 1);
    }
  }

  /** The pipeline really is one: each of its statuses can be reached from each other one. */
  lemma PipelineIsConnected(a: Status, b: Status) returns (p: seq<Status>)
    requires InPipeline(a) && InPipeline(b)
    ensures IsPath(p) && p != [] && p[0] == a && p[|p| - 1] == b && forall i :: 0 <= i < |p| ==> InPipeline(p[i])
  {
    p := [a, Processing, b];
  }

  // ---------- Database and cache ----------

  datatype Row = Row(status: Status, risk: Option<real>)

  /** A cached session: its JSON object, reduced to the two fields the database also has. */
  datatype Cached = Cached(status: Status, risk: Option<real>)

  datatype World = World(rows: map<string, Row>, cache: map<string, Cached>, active: set<string>)

  /** `metadata` of an update: the value under the key "status", if it has that key. */
  type Metadata = Option<Status>

  datatype Step =
    | CreateSession(id: string)
    | UpdateStatus(id: string, status: Status, metadata: Metadata)
    | MarkCompleted(id: string, risk: real)
    | GetSession(id: string)
    | ResetFailed(id: string)
    | RecordRisk(id: string, risk: real)
    | Expire(id: string)
    | DeleteState(id: string)
    | SyncToDb(id: string)
    | ClearCache

  function Put(w: World, id: string, c: Cached): World {
    w.(cache := w.cache[id := c], active := w.active + {id})
  }

  function SetStatus(w: World, id: string, status: Status): World
    requires id in w.rows
  {
    w.(rows := w.rows[id := w.rows[id].(status := status)])
  }

  function UpdateStatusStep(w: World, id: string, status: Status, metadata: Metadata): World {
    if id in w.rows && IsValidTransition(w.rows[id].status, status) then
      var stored := SetStatus(w, id, status);
      if id in w.cache then
        Put(stored, id, w.cache[id].(status := if metadata.Some? then metadata.value else status))
      else stored
    else w
  }

  function MarkCompletedStep(w: World, id: string, risk: real): World {
    if id in w.rows then
      var stored := w.(rows := w.rows[id := Row(Completed, Some(risk))]);
      if id in w.cache then Put(stored, id, Cached(Completed, Some(risk))) else stored
    else w
  }

  function GetSessionStep(w: World, id: string): World {
    if id !in w.cache && id in w.rows then Put(w, id, Cached(w.rows[id].status, w.rows[id].risk)) else w
  }

  /** `POST /sync-to-database`: what the cache holds of a session overwrites its row. */
  function SyncStep(w: World, id: string): World {
    if id in w.cache && id in w.rows then
      var c := w.cache[id];
      w.(rows := w.rows[id := Row(c.status, if c.risk.Some? then c.risk else w.rows[id].risk)])
    else w
  }

  function Apply(w: World, s: Step): World {
    match s
    case CreateSession(id) =>
      if id in w.rows then w else Put(w.(rows := w.rows[id := Row(Created, None)]), id, Cached(Created, None))
    case UpdateStatus(id, status, metadata) => UpdateStatusStep(w, id, status, metadata)
    case MarkCompleted(id, risk) => MarkCompletedStep(w, id, risk)
    case GetSession(id) => GetSessionStep(w, id)
    case ResetFailed(id) => if id in w.rows && w.rows[id].status == Failed then SetStatus(w, id, Queued) else w
    case RecordRisk(id, risk) => if id in w.rows then w.(rows := w.rows[id := w.rows[id].(risk := Some(risk))]) else w
    case Expire(id) => w.(cache := w.cache - {id})
    case DeleteState(id) => w.(cache := w.cache - {id}, active := w.active - {id})
    case SyncToDb(id) => SyncStep(w, id)
    case ClearCache => w.(cache := w.cache - w.active, active := {})
  }

  function Run(w: World, steps: seq<Step>): World {
    if steps == [] then w else Apply(Run(w, steps[..|steps| - 1]), steps[|steps| - 1])
  }

  lemma RunOf(w: World, steps: seq<Step>, s: Step)
    ensures Run(w, steps + [s]) == Apply(Run(w, steps), s)
  {
    assert (steps + [s])[..|steps|] == steps;
  }

  const START := World(map[], map[], {})

  /** Metadata carries no status key, or one that repeats the new status. */
  predicate IsPlain(s: Step) {
    s.UpdateStatus? ==> s.metadata == None || s.metadata == Some(s.status)
  }

  predicate AllPlain(steps: seq<Step>) {
    forall i :: 0 <= i < |steps| ==> IsPlain(steps[i])
  }

  // ---------- What every run keeps ----------

  /** The cache never holds more than the active set and the database do. */
  ghost predicate Tracked(w: World) {
    w.cache.Keys <= w.active && w.cache.Keys <= w.rows.Keys
  }

  /** The one way in which a cached status can differ from the database. */
  ghost predicate StaleAfterReset(w: World, id: string)
    requires id in w.cache && id in w.rows
  {
    w.cache[id].status == Failed && w.rows[id].status == Queued
  }

  ghost predicate Agrees(w: World, id: string)
    requires Tracked(w)
  {
    id in w.cache ==> w.cache[id].status == w.rows[id].status
  }

  ghost predicate AgreesUpToReset(w: World) {
    Tracked(w) && forall id :: id in w.cache ==> Agrees(w, id) || StaleAfterReset(w, id)
  }

  ghost predicate Coherent(w: World) {
    Tracked(w) && forall id :: id in w.cache ==> Agrees(w, id)
  }

  lemma StepKeepsTracked(w: World, s: Step)
    requires Tracked(w)
    ensures Tracked(Apply(w, s)) && w.rows.Keys <= Apply(w, s).rows.Keys
  {
  }

  lemma {:induction false} RunKeepsTracked(w: World, steps: seq<Step>)
    requires Tracked(w)
    ensures Tracked(Run(w, steps))
  {
    if steps == [] {
    } else {
      RunKeepsTracked(w, steps[..|steps| - 1]);
      StepKeepsTracked(Run(w, steps[..|steps| - 1]), steps[|steps| - 1]);
    }
  }

  /** `clear_cache` deletes only the ids it finds in the active set, yet after any run it leaves no
      session in the cache. */
  lemma ClearLeavesNothing(steps: seq<Step>)
    ensures Apply(Run(START, steps), ClearCache).cache == map[]
  {
    RunKeepsTracked(START, steps);
  }

  lemma StepKeepsAgreement(w: World, s: Step)
    requires AgreesUpToReset(w) && IsPlain(s)
    ensures AgreesUpToReset(Apply(w, s))
    ensures Coherent(w) && !s.ResetFailed? ==> Coherent(Apply(w, s))
  {
    StepKeepsTracked(w, s);
  }

  /** Over every run, a cached status is the database status, or FAILED where the row has been
      reset to QUEUED; without resets it is the database status. */
  lemma {:induction false} RunKeepsAgreement(steps: seq<Step>)
    requires AllPlain(steps)
    ensures AgreesUpToReset(Run(START, steps))
    ensures (forall i :: 0 <= i < |steps| ==> !steps[i].ResetFailed?) ==> Coherent(Run(START, steps))
  {
    if steps == [] {
    } else {
      RunKeepsAgreement(steps[..|steps| - 1]);
      StepKeepsAgreement(Run(START, steps[..|steps| - 1]), steps[|steps| - 1]);
    }
  }

  /** The status `get_session` returns. */
  function Reported(w: World, id: string): Option<Status> {
    if id in w.cache then Some(w.cache[id].status)
    else if id in w.rows then Some(w.rows[id].status)
    else None
  }

  function Stored(w: World, id: string): Option<Status> {
    if id in w.rows then Some(w.rows[id].status) else None
  }

  /** In a coherent world, hit or miss, `get_session` reports the database status, and syncing the
      cache to the database changes no status. */
  lemma CoherentReads(w: World, id: string, other: string)
    requires Coherent(w)
    ensures Reported(w, id) == Stored(w, id)
    ensures Stored(Apply(w, SyncToDb(id)), other) == Stored(w, other)
  {
    assert id in w.cache ==> Agrees(w, id);
  }

  /** When a cached session expires, readers are told what the database holds of it, and of the others
      what they were told before. */
  lemma ExpiryReveals(w: World, id: string, other: string)
    ensures Reported(Apply(w, Expire(id)), id) == Stored(w, id)
    ensures other != id ==> Reported(Apply(w, Expire(id)), other) == Reported(w, other)
    ensures Stored(Apply(w, Expire(id)), other) == Stored(w, other)
  {
  }

  /** A reset is seen through the cache exactly when the session is cached: the reader then goes on
      being told FAILED, and a sync to the database takes the reset back. */
  lemma ResetIsHidden(w: World, id: string)
    requires Coherent(w) && id in w.rows && w.rows[id].status == Failed
    ensures var reset := Apply(w, ResetFailed(id));
      && Stored(reset, id) == Some(Queued)
      && (Coherent(reset) <==> id !in w.cache)
      && Reported(reset, id) == Some(if id in w.cache then Failed else Queued)
      && Stored(Apply(reset, SyncToDb(id)), id) == Reported(reset, id)
  {
    var reset := Apply(w, ResetFailed(id));
    if id in w.cache {
      assert Agrees(w, id) && !Agrees(reset, id);
    } else {
      forall other | other in reset.cache
        ensures Agrees(reset, other)
      {
        assert Agrees(w, other);
      }
    }
  }

  /** Metadata with a status key breaks coherence, unless it repeats the new status. */
  lemma StatusInMetadata(w: World, id: string, status: Status, metadata: Status)
    requires Coherent(w) && id in w.cache && IsValidTransition(w.rows[id].status, status)
    ensures Coherent(Apply(w, UpdateStatus(id, status, Some(metadata)))) <==> metadata == status
  {
    var v := Apply(w, UpdateStatus(id, status, Some(metadata)));
    assert Agrees(v, id) <==> metadata == status;
    forall other | other in v.cache && other != id
      ensures Agrees(v, other)
    {
      assert Agrees(w, other);
    }
  }

  // ---------- COMPLETED is absorbing ----------

  /** The row is COMPLETED, and so is whatever the cache holds of the session. */
  predicate Sealed(w: World, id: string) {
    Stored(w, id) == Some(Completed) && (id in w.cache ==> w.cache[id].status == Completed)
  }

  lemma StepKeepsSealed(w: World, s: Step, id: string)
    requires Sealed(w, id)
    ensures Sealed(Apply(w, s), id)
  {
  }

  lemma {:induction false} RunKeepsSealed(w: World, steps: seq<Step>, id: string)
    requires Sealed(w, id)
    ensures Sealed(Run(w, steps), id)
  {
    if steps == [] {
    } else {
      RunKeepsSealed(w, steps[..|steps| - 1], id);
      StepKeepsSealed(Run(w, steps[..|steps| - 1]), steps[|steps| - 1], id);
    }
  }

  /** A COMPLETED row stays COMPLETED over every continuation, whatever its steps and their
      metadata, exactly when the cache holds no other status of the session. */
  lemma StaysCompletedExactly(w: World, id: string)
    requires Stored(w, id) == Some(Completed)
    ensures (id in w.cache ==> w.cache[id].status == Completed) <==>
            forall steps :: Stored(Run(w, steps), id) == Some(Completed)
  {
    if Sealed(w, id) {
      forall steps
        ensures Stored(Run(w, steps), id) == Some(Completed)
      {
        RunKeepsSealed(w, steps, id);
      }
    } else {
      SyncReopens(w, id);
      assert Stored(Run(w, [SyncToDb(id)]), id) != Some(Completed);
    }
  }

  /** A sync to the database is what reopens a row whose cached status differs. */
  lemma SyncReopens(w: World, id: string)
    requires id in w.rows && id in w.cache
    ensures Stored(Run(w, [SyncToDb(id)]), id) == Some(w.cache[id].status)
  {
    RunOf(w, [], SyncToDb(id));
    assert [] + [SyncToDb(id)] == [SyncToDb(id)];
  }

  /** Metadata of an update to COMPLETED of this session carries no other status. */
  predicate CompletesPlainly(s: Step, id: string) {
    s.UpdateStatus? && s.id == id && s.status == Completed ==> s.metadata == None || s.metadata == Some(Completed)
  }

  /** The step that completes a row leaves another status in the cache exactly when it is an update
      of a cached session with another status in its metadata. */
  lemma CompletingSeals(w: World, s: Step, id: string)
    requires Stored(w, id) != Some(Completed) && Stored(Apply(w, s), id) == Some(Completed)
    ensures Sealed(Apply(w, s), id) <==> CompletesPlainly(s, id) || id !in w.cache
  {
  }

  lemma {:induction false} CompletedIsSealed(steps: seq<Step>, id: string)
    requires forall i :: 0 <= i < |steps| ==> CompletesPlainly(steps[i], id)
    requires Stored(Run(START, steps), id) == Some(Completed)
    ensures Sealed(Run(START, steps), id)
  {
    if steps == [] {
    } else {
      var before, last := Run(START, steps[..|steps| - 1]), steps[|steps| - 1];
      if Stored(before, id) == Some(Completed) {
        CompletedIsSealed(steps[..|steps| - 1], id);
        StepKeepsSealed(before, last, id);
      } else {
        CompletingSeals(before, last, id);
      }
    }
  }

  lemma {:induction false} RunJoins(w: World, before: seq<Step>, after: seq<Step>)
    ensures Run(w, before + after) == Run(Run(w, before), after)
  {
    if after == [] {
      assert before + after == before;
    } else {
      var rest, last := after[..|after| - 1], after[|after| - 1];
      RunJoins(w, before, rest);
      RunOf(w, before + rest, last);
      assert before + after == before + rest + [last];
    }
  }

  /** Once a row is COMPLETED it stays so, over every continuation of every run in which no update to
      COMPLETED of this session named another status in its metadata: updates, failures,
      completions, resets of failed rows, cache fills, expiry, deletion, clearing and syncing. */
  lemma CompletedIsAbsorbing(before: seq<Step>, after: seq<Step>, id: string)
    requires forall i :: 0 <= i < |before| ==> CompletesPlainly(before[i], id)
    requires Stored(Run(START, before), id) == Some(Completed)
    ensures Stored(Run(START, before + after), id) == Some(Completed)
  {
    CompletedIsSealed(before, id);
    RunKeepsSealed(Run(START, before), after, id);
    RunJoins(START, before, after);
  }

  /** An instance: completing a session with another status in the metadata and syncing sets its
      row to whatever the metadata said, if the session is cached. */
  lemma MetadataReopens(w: World, id: string, metadata: Status)
    requires id in w.rows && IsValidTransition(w.rows[id].status, Completed)
    ensures var done := Apply(w, UpdateStatus(id, Completed, Some(metadata)));
      && Stored(done, id) == Some(Completed)
      && Stored(Apply(done, SyncToDb(id)), id) == Some(if id in w.cache then metadata else Completed)
  {
  }

  // ---------- Updates alone walk the table ----------

  function NextStatus(s: Status, requested: Status): Status {
    if IsValidTransition(s, requested) then requested else s
  }

  /** What an update call makes of the status of session `id`. */
  function Moved(s: Status, call: Step, id: string): Status
    requires call.UpdateStatus?
  {
    if call.id == id then NextStatus(s, call.status) else s
  }

  lemma UpdateMovesRow(w: World, call: Step, id: string)
    requires call.UpdateStatus? && id in w.rows
    ensures Stored(Apply(w, call), id) == Some(Moved(w.rows[id].status, call, id))
  {
  }

  ghost predicate OnlyUpdates(steps: seq<Step>) {
    forall i :: 0 <= i < |steps| ==> steps[i].UpdateStatus?
  }

  /** The statuses session `id` goes through, from `s`. */
  ghost function Trail(s: Status, steps: seq<Step>, id: string): (p: seq<Status>)
    requires OnlyUpdates(steps)
    ensures |p| == |steps| + 1
  {
    if steps == [] then [s] else
      var k := |steps| - 1;
      var before := Trail(s, steps[..k], id);
      before + [Moved(before[k], steps[k], id)]
  }

  lemma {:induction false} TrailMoves(s: Status, steps: seq<Step>, id: string)
    requires OnlyUpdates(steps)
    ensures Trail(s, steps, id)[0] == s
    ensures forall i :: 0 <= i < |steps| ==> Trail(s, steps, id)[i + 1] == Moved(Trail(s, steps, id)[i], steps[i], id)
  {
    if steps == [] {
    } else {
      TrailMoves(s, steps[..|steps| - 1], id);
    }
  }

  lemma {:induction false} TrailIsStored(w: World, steps: seq<Step>, id: string)
    requires id in w.rows && OnlyUpdates(steps)
    ensures Stored(Run(w, steps), id) == Some(Trail(w.rows[id].status, steps, id)[|steps|])
  {
    if steps == [] {
    } else {
      TrailIsStored(w, steps[..|steps| - 1], id);
      UpdateMovesRow(Run(w, steps[..|steps| - 1]), steps[|steps| - 1], id);
    }
  }

  /** A run of `update_session_status` calls takes a row along a path of the table, moving at every
      call the table allows and at no other. */
  lemma UpdatesWalkTable(w: World, steps: seq<Step>, id: string) returns (p: seq<Status>)
    requires id in w.rows && OnlyUpdates(steps)
    ensures IsPath(p) && |p| == |steps| + 1 && p[0] == w.rows[id].status
    ensures forall i :: 0 <= i < |steps| ==>
      p[i + 1] == if steps[i].id == id && IsValidTransition(p[i], steps[i].status) then steps[i].status else p[i]
    ensures Stored(Run(w, steps), id) == Some(p[|steps|])
  {
    p := Trail(w.rows[id].status, steps, id);
    TrailMoves(w.rows[id].status, steps, id);
    TrailIsStored(w, steps, id);
  }
}
