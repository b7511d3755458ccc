/** The classes that hold the session state and update it in place: the database, the state
    synchronizer over the Redis cache, and the session manager. */
module SessionServices {
  import opened Options
  import opened Sessions

  class Database {
    var rows: map<string, Row>

    constructor ()
      ensures rows == map[]
    {
      rows := map[];
    }
  }

  class StateSynchronizer {
    const db: Database
    var cache: map<string, Cached>
    var active: set<string>

    ghost function Now(): World
      reads this, db
    {
      World(db.rows, cache, active)
    }

    constructor (db: Database)
      ensures this.db == db && cache == map[] && active == {}
    {
      this.db, cache, active := db, map[], {};
    }

    method SetSessionState(id: string, data: Cached)
      modifies this
      ensures cache == old(cache)[id := data] && active == old(active) + {id}
    {
      cache := cache[id := data];
      active := active + {id};
    }

    method GetSessionState(id: string) returns (data: Option<Cached>)
      ensures data == if id in cache then Some(cache[id]) else None
    {
      data := if id in cache then Some(cache[id]) else None;
    }

    method DeleteSessionState(id: string)
      modifies this
      ensures Now() == Apply(old(Now()), DeleteState(id))
      ensures cache == old(cache) - {id} && active == old(active) - {id}
    {
      cache := cache - {id};
      active := active - {id};
    }

    method SyncStateToDb(id: string, data: Cached) returns (ok: bool)
      modifies db
      ensures ok == (id in old(db.rows))
      ensures ok ==>
        db.rows == old(db.rows)[id := Row(data.status, if data.risk.Some? then data.risk else old(db.rows)[id].risk)]
      ensures id in cache && data == cache[id] ==> Now() == Apply(old(Now()), SyncToDb(id))
      ensures !ok ==> db.rows == old(db.rows)
    {
      if id !in db.rows {
        return false;
      }
      var interview := db.rows[id].(status := data.status);
      if data.risk.Some? {
        interview := interview.(risk := data.risk);
      }
      db.rows := db.rows[id := interview];
      ok := true;
    }

    method ClearCache()
      modifies this
      ensures Now() == Apply(old(Now()), Step.ClearCache)
      ensures cache == old(cache) - old(active) && active == {}
      ensures old(Tracked(Now())) ==> cache == map[]
    {
      var sessions := active;
      while sessions != {}
        modifies `cache
        invariant sessions <= active
        invariant cache == old(cache) - (active - sessions)
        decreases sessions
      {
        var id :| id in sessions;
        cache := cache - {id};
        sessions := sessions - {id};
      }
      active := {};
    }
  }

  class SessionManager {
    const sync: StateSynchronizer

    ghost function Now(): World
      reads sync, sync.db
    {
      sync.Now()
    }

    constructor (sync: StateSynchronizer)
      ensures this.sync == sync
    {
      this.sync := sync;
    }

    /** The id comes from a random generator; the database refuses one that is taken. */
    method CreateSession(id: string) returns (ok: bool)
      modifies sync, sync.db
      ensures Now() == Apply(old(Now()), Step.CreateSession(id)) && ok == (id !in old(sync.db.rows))
      ensures !ok ==> Now() == old(Now())
      ensures ok ==>
        && sync.db.rows == old(sync.db.rows)[id := Row(Created, None)]
        && sync.cache == old(sync.cache)[id := Cached(Created, None)] && sync.active == old(sync.active) + {id}
    {
      if id in sync.db.rows {
        return false;
      }
      sync.db.rows := sync.db.rows[id := Row(Created, None)];
      sync.SetSessionState(id, Cached(Created, None));
      ok := true;
    }

    method UpdateSessionStatus(id: string, newStatus: Status, metadata: Metadata) returns (ok: bool)
      modifies sync, sync.db
      ensures Now() == Apply(old(Now()), UpdateStatus(id, newStatus, metadata))
      ensures ok == (id in old(sync.db.rows) && IsValidTransition(old(sync.db.rows)[id].status, newStatus))
      ensures !ok ==> Now() == old(Now())
      ensures ok ==> sync.db.rows == old(sync.db.rows)[id := old(sync.db.rows)[id].(status := newStatus)]
      ensures ok ==> sync.cache ==
                     if id !in old(sync.cache) then old(sync.cache)
                     else old(sync.cache)[id := old(sync.cache)[id].(
                                            status := if metadata.Some? then metadata.value else newStatus)]
    {
      if id !in sync.db.rows {
        return false;
      }
      var interview := sync.db.rows[id];
      if !IsValidTransition(interview.status, newStatus) {
        return false;
      }
      sync.db.rows := sync.db.rows[id := interview.(status := newStatus)];
      var data := sync.GetSessionState(id);
      if data.Some? {
        var updated := data.value.(status := newStatus);
        if metadata.Some? {
          updated := updated.(status := metadata.value);
        }
        sync.SetSessionState(id, updated);
      }
      ok := true;
    }

    method GetSession(id: string) returns (data: Option<Cached>)
      modifies sync
      ensures Now() == Apply(old(Now()), Step.GetSession(id))
      ensures Reported(old(Now()), id) == if data.Some? then Some(data.value.status) else None
      ensures data ==
        if id in old(sync.cache) then Some(old(sync.cache)[id])
        else if id in sync.db.rows then Some(Cached(sync.db.rows[id].status, sync.db.rows[id].risk))
        else None
      ensures sync.cache == if data.Some? then old(sync.cache)[id := data.value] else old(sync.cache)
    {
      data := sync.GetSessionState(id);
      if data.Some? {
        return;
      }
      if id !in sync.db.rows {
        return None;
      }
      data := Some(Cached(sync.db.rows[id].status, sync.db.rows[id].risk));
      sync.SetSessionState(id, data.value);
    }

    method MarkSessionFailed(id: string) returns (ok: bool)
      modifies sync, sync.db
      ensures Now() == Apply(old(Now()), UpdateStatus(id, Failed, None))
      ensures ok == (id in old(sync.db.rows) && IsValidTransition(old(sync.db.rows)[id].status, Failed))
    {
      ok := UpdateSessionStatus(id, Failed, None);
    }

    method MarkSessionCompleted(id: string, risk: real) returns (ok: bool)
      modifies sync, sync.db
      ensures Now() == Apply(old(Now()), MarkCompleted(id, risk)) && ok == (id in old(sync.db.rows))
      ensures !ok ==> Now() == old(Now())
      ensures ok ==> sync.db.rows == old(sync.db.rows)[id := Row(Completed, Some(risk))]
      ensures ok ==> sync.cache ==
                     if id in old(sync.cache) then old(sync.cache)[id := Cached(Completed, Some(risk))]
                     else old(sync.cache)
    {
      if id !in sync.db.rows {
        return false;
      }
      sync.db.rows := sync.db.rows[id := sync.db.rows[id].(status := Completed, risk := Some(risk))];
      var data := sync.GetSessionState(id);
      if data.Some? {
        sync.SetSessionState(id, data.value.(status := Completed, risk := Some(risk)));
      }
      ok := true;
    }
  }

  /** A new session taken through the whole pipeline: every update is accepted. */
  method WalkPipeline(manager: SessionManager, id: string) returns (accepted: bool)
    requires id !in manager.sync.db.rows
    modifies manager.sync, manager.sync.db
    ensures accepted && manager.sync.db.rows == old(manager.sync.db.rows)[id := Row(Completed, None)]
  {
    accepted := manager.CreateSession(id);
    var pipeline := [Queued, Processing, VideoProcessing, AudioProcessing, Evaluating, Completed];
    ghost var before := manager.sync.db.rows;
    for i := 0 to |pipeline|
      invariant accepted
      invariant manager.sync.db.rows == before[id := Row(if i == 0 then Created else pipeline[i - 1], None)]
    {
      var ok := manager.UpdateSessionStatus(id, pipeline[i], None);
      accepted := accepted && ok;
    }
  }
}
