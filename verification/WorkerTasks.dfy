/** The two Celery tasks that carry a session through its pipeline. */
module WorkerTasks {
  import opened Options
  import opened Sessions
  import opened SessionServices

  function ProcessSteps(id: string): seq<Step> {
    [ResetFailed(id), UpdateStatus(id, Processing, None), UpdateStatus(id, VideoProcessing, None)]
  }

  function AfterParallelSteps(id: string, evaluationRaises: bool, risk: real): seq<Step> {
    if evaluationRaises then [UpdateStatus(id, Evaluating, None), UpdateStatus(id, Failed, None)]
    else [UpdateStatus(id, Evaluating, None), RecordRisk(id, risk), MarkCompleted(id, risk), DeleteState(id)]
  }

  lemma RunTwo(w: World, a: Step, b: Step)
    ensures Run(w, [a, b]) == Apply(Apply(w, a), b)
  {
    RunOf(w, [], a);
    RunOf(w, [a], b);
    assert [] + [a] == [a] && [a] + [b] == [a, b];
  }

  lemma RunThree(w: World, a: Step, b: Step, c: Step)
    ensures Run(w, [a, b, c]) == Apply(Apply(Apply(w, a), b), c)
  {
    RunTwo(w, a, b);
    RunOf(w, [a, b], c);
    assert [a, b] + [c] == [a, b, c];
  }

  lemma RunFour(w: World, a: Step, b: Step, c: Step, d: Step)
    ensures Run(w, [a, b, c, d]) == Apply(Apply(Apply(Apply(w, a), b), c), d)
  {
    RunThree(w, a, b, c);
    RunOf(w, [a, b, c], d);
    assert [a, b, c] + [d] == [a, b, c, d];
  }

  lemma ProcessRun(w: World, id: string)
    ensures Run(w, ProcessSteps(id)) ==
            Apply(Apply(Apply(w, ResetFailed(id)), UpdateStatus(id, Processing, None)),
                  UpdateStatus(id, VideoProcessing, None))
  {
    RunThree(w, ResetFailed(id), UpdateStatus(id, Processing, None), UpdateStatus(id, VideoProcessing, None));
  }

  lemma AfterParallelRun(w: World, id: string, evaluationRaises: bool, risk: real)
    ensures var asked := Apply(w, UpdateStatus(id, Evaluating, None));
            Run(w, AfterParallelSteps(id, evaluationRaises, risk)) ==
            if evaluationRaises then Apply(asked, UpdateStatus(id, Failed, None))
            else Apply(Apply(Apply(asked, RecordRisk(id, risk)), MarkCompleted(id, risk)), DeleteState(id))
  {
    RunTwo(w, UpdateStatus(id, Evaluating, None), UpdateStatus(id, Failed, None));
    RunFour(w, UpdateStatus(id, Evaluating, None), RecordRisk(id, risk), MarkCompleted(id, risk), DeleteState(id));
  }

  /** `_after_parallel`.  The evaluation stage may raise. */
  method AfterParallel(manager: SessionManager, id: string, evaluationRaises: bool, risk: real)
    modifies manager.sync, manager.sync.db
    ensures manager.Now() == Run(old(manager.Now()), AfterParallelSteps(id, evaluationRaises, risk))
  {
    AfterParallelRun(manager.Now(), id, evaluationRaises, risk);
    var accepted := manager.UpdateSessionStatus(id, Evaluating, None);
    if evaluationRaises {
      accepted := manager.MarkSessionFailed(id);
    } else {
      if id in manager.sync.db.rows {
        manager.sync.db.rows := manager.sync.db.rows[id := manager.sync.db.rows[id].(risk := Some(risk))];
      }
      accepted := manager.MarkSessionCompleted(id, risk);
      manager.sync.DeleteSessionState(id);
    }
  }

  /** `process_interview_session`, up to the dispatch of `_after_parallel`. */
  method ProcessInterviewSession(manager: SessionManager, id: string) returns (found: bool)
    modifies manager.sync, manager.sync.db
    ensures found == (id in old(manager.sync.db.rows))
    ensures manager.Now() == if found then Run(old(manager.Now()), ProcessSteps(id)) else old(manager.Now())
  {
    ProcessRun(manager.Now(), id);
    if id !in manager.sync.db.rows {
      return false;
    }
    if manager.sync.db.rows[id].status == Failed {
      manager.sync.db.rows := manager.sync.db.rows[id := manager.sync.db.rows[id].(status := Queued)];
    }
    var accepted := manager.UpdateSessionStatus(id, Processing, None);
    accepted := manager.UpdateSessionStatus(id, VideoProcessing, None);
    found := true;
  }

  /** An update touches one row, and of it the status alone; of the cache no more than the same session. */
  lemma UpdateMoves(w: World, id: string, requested: Status)
    requires id in w.rows
    ensures var v := Apply(w, UpdateStatus(id, requested, None));
      && v.rows == w.rows[id := w.rows[id].(status := NextStatus(w.rows[id].status, requested))]
      && v.cache - {id} == w.cache - {id} && v.active - {id} == w.active - {id}
  {
  }

  /** The status a delivery of the main task leaves behind. */
  function Delivered(s: Status): Status {
    if s == Queued || s == Failed || InPipeline(s) then VideoProcessing else s
  }

  lemma DeliveryMoves(w: World, id: string)
    requires id in w.rows
    ensures id in Run(w, ProcessSteps(id)).rows
    ensures Run(w, ProcessSteps(id)).rows[id].status == Delivered(w.rows[id].status)
  {
    ProcessRun(w, id);
    var reset := Apply(w, ResetFailed(id));
    UpdateMoves(reset, id, Processing);
    UpdateMoves(Apply(reset, UpdateStatus(id, Processing, None)), id, VideoProcessing);
  }

  /** A delivery of the main task with no other step in between never enters EVALUATING, from
      whatever status it starts: the update its callback asks for is always refused. */
  lemma EvaluatingIsSkipped(w: World, id: string)
    requires id in w.rows
    ensures var v := Run(w, ProcessSteps(id));
      && Stored(v, id) == Some(match w.rows[id].status
                               case Queued | Failed | Processing | VideoProcessing | AudioProcessing | Evaluating =>
                                 VideoProcessing
                               case other => other)
      && Stored(v, id) != Some(Evaluating)
      && Apply(v, UpdateStatus(id, Evaluating, None)) == v
  {
    DeliveryMoves(w, id);
  }

  /** The callback leaves the row COMPLETED with its risk score and the session out of the cache,
      from whatever state it finds, terminal ones included. */
  lemma CallbackCompletes(w: World, id: string, risk: real)
    requires id in w.rows
    ensures var v := Run(w, AfterParallelSteps(id, false, risk));
      v.rows == w.rows[id := Row(Completed, Some(risk))] && v.cache == w.cache - {id} && v.active == w.active - {id}
  {
    AfterParallelRun(w, id, false, risk);
    UpdateMoves(w, id, Evaluating);
    CompletionClears(Apply(w, UpdateStatus(id, Evaluating, None)), id, risk);
  }

  lemma CompletionClears(w: World, id: string, risk: real)
    requires id in w.rows
    ensures Apply(Apply(Apply(w, RecordRisk(id, risk)), MarkCompleted(id, risk)), DeleteState(id)) ==
            World(w.rows[id := Row(Completed, Some(risk))], w.cache - {id}, w.active - {id})
  {
    var recorded := Apply(w, RecordRisk(id, risk));
    assert recorded == w.(rows := w.rows[id := w.rows[id].(risk := Some(risk))]);
    assert recorded.rows[id := Row(Completed, Some(risk))] == w.rows[id := Row(Completed, Some(risk))];
  }

  /** A callback whose evaluation raises leaves the row FAILED exactly when it was not COMPLETED,
      CANCELLED or of unknown status. */
  lemma CallbackFails(w: World, id: string, risk: real)
    requires id in w.rows
    ensures Stored(Run(w, AfterParallelSteps(id, true, risk)), id) == Some(Failed) <==>
            !(w.rows[id].status == Completed || w.rows[id].status == Cancelled || w.rows[id].status.Unknown?)
  {
    AfterParallelRun(w, id, true, risk);
    UpdateMoves(w, id, Evaluating);
    UpdateMoves(Apply(w, UpdateStatus(id, Evaluating, None)), id, Failed);
  }
}
