/** The scheduler: select a worker, count the task, dispatch it, and take the count back when the
    dispatch fails. */
module Scheduling {
  import opened Options
  import opened WorkerRegistries
  import opened LoadBalancing

  datatype TaskPriority = Low | Medium | High

  function Name(p: TaskPriority): string {
    match p
    case Low => "low"
    case Medium => "medium"
    case High => "high"
  }

  /** `markedFailed` says that the session was handed to `mark_session_failed`. */
  datatype Report = Report(scheduled: bool, markedFailed: bool)

  /** One task more (`up`) or one task done for worker `id`, locally and in Redis; nothing for an unknown worker. */
  ghost predicate Moved(id: string, up: bool, local: map<string, Worker>, redis: map<string, WorkerHash>,
                        local': map<string, Worker>, redis': map<string, WorkerHash>)
    requires local.Keys <= redis.Keys
  {
    if id !in local then local' == local && redis' == redis
    else if up then
      local' == local[id := Incremented(local[id])] && redis' == redis[id := IncrementedHash(redis[id])]
    else
      local' == local[id := Decremented(local[id])] && redis' == redis[id := DecrementedHash(redis[id])]
  }

  /** What scheduling one task does to a registry (before: `local`, `redis`) when the balancer chose `choice`. */
  ghost predicate Counted(choice: Option<Worker>, brokerAccepts: bool,
                          local: map<string, Worker>, redis: map<string, WorkerHash>,
                          local': map<string, Worker>, redis': map<string, WorkerHash>)
    requires local.Keys <= redis.Keys
  {
    if choice.None? then local' == local && redis' == redis
    else if brokerAccepts then Moved(choice.value.id, true, local, redis, local', redis')
    else TakenBack(choice.value.id, local, redis, local', redis')
  }

  /** What is left of counting a task and taking the count back: the clamp, and one more task
      reported as processed. */
  ghost predicate TakenBack(id: string, local: map<string, Worker>, redis: map<string, WorkerHash>,
                            local': map<string, Worker>, redis': map<string, WorkerHash>)
    requires local.Keys <= redis.Keys
  {
    if id !in local then local' == local && redis' == redis
    else
      && local' == local[id := local[id].(active := Max(0, local[id].active), processed := local[id].processed + 1)]
      && redis' == redis[id := redis[id].(processed := redis[id].processed + 1)]
  }

  lemma UpThenDown(id: string, local: map<string, Worker>, redis: map<string, WorkerHash>,
                   local1: map<string, Worker>, redis1: map<string, WorkerHash>,
                   local2: map<string, Worker>, redis2: map<string, WorkerHash>)
    requires local.Keys <= redis.Keys && local1.Keys <= redis1.Keys
    requires Moved(id, true, local, redis, local1, redis1) && Moved(id, false, local1, redis1, local2, redis2)
    ensures TakenBack(id, local, redis, local2, redis2)
  {
  }

  /** Where the worker for a priority stands among the available ones: for high priority the first with
      the fewest active tasks, for medium the first below seventy per cent of its capacity or else the
      first of all, for low the last. */
  lemma TargetOf(available: seq<Worker>, priority: TaskPriority) returns (k: nat)
    requires available != []
    ensures k < |available| && Choice(available, Name(priority)) == Some(available[k])
    ensures priority.High? ==>
      && (forall j :: 0 <= j < |available| ==> available[k].active <= available[j].active)
      && (forall j :: 0 <= j < k ==> available[k].active < available[j].active)
    ensures priority.Medium? ==>
      && (10 * available[k].active < 7 * available[k].capacity || k == 0)
      && (10 * available[k].active >= 7 * available[k].capacity ==>
            forall j :: 0 <= j < |available| ==> 10 * available[j].active >= 7 * available[j].capacity)
      && (forall j :: 0 <= j < k ==> 10 * available[j].active >= 7 * available[j].capacity)
    ensures priority.Low? ==> k == |available| - 1
  {
    match priority {
      case High => k := LeastIndex(available);
      case Medium => k := if FirstUnderutilized(available) < |available| then FirstUnderutilized(available) else 0;
      case Low => k := |available| - 1;
    }
  }

  /** One task more for worker `id`, if it is known, in both copies. */
  ghost predicate OneMore(id: string, local: map<string, Worker>, redis: map<string, WorkerHash>,
                          local': map<string, Worker>, redis': map<string, WorkerHash>)
    requires local.Keys <= redis.Keys
  {
    if id !in local then local' == local && redis' == redis
    else
      && local' == local[id := local[id].(active := local[id].active + 1)]
      && redis' == redis[id := redis[id].(active := redis[id].active + 1)]
  }

  /** The task has been counted on the worker that its priority asks for. */
  ghost predicate Placed(available: seq<Worker>, priority: TaskPriority,
                         local: map<string, Worker>, redis: map<string, WorkerHash>,
                         local': map<string, Worker>, redis': map<string, WorkerHash>)
    requires local.Keys <= redis.Keys
  {
    exists k ::
      && 0 <= k < |available|
      && (priority.High? ==>
            && (forall j :: 0 <= j < |available| ==> available[k].active <= available[j].active)
            && (forall j :: 0 <= j < k ==> available[k].active < available[j].active))
      && (priority.Medium? ==>
            && (10 * available[k].active < 7 * available[k].capacity || k == 0)
            && (10 * available[k].active >= 7 * available[k].capacity ==>
                  forall j :: 0 <= j < |available| ==> 10 * available[j].active >= 7 * available[j].capacity)
            && (forall j :: 0 <= j < k ==> 10 * available[j].active >= 7 * available[j].capacity))
      && (priority.Low? ==> k == |available| - 1)
      && OneMore(available[k].id, local, redis, local', redis')
  }

  lemma CountedIsPlaced(available: seq<Worker>, priority: TaskPriority,
                        local: map<string, Worker>, redis: map<string, WorkerHash>,
                        local': map<string, Worker>, redis': map<string, WorkerHash>)
    requires available != [] && local.Keys <= redis.Keys
    requires Counted(Choice(available, Name(priority)), true, local, redis, local', redis')
    ensures Placed(available, priority, local, redis, local', redis')
  {
    var k := TargetOf(available, priority);
    assert OneMore(available[k].id, local, redis, local', redis');
  }

  class Scheduler {
    const balancer: LoadBalancer
    const registry: WorkerRegistry

    constructor (balancer: LoadBalancer, registry: WorkerRegistry)
      ensures this.balancer == balancer && this.registry == registry
    {
      this.balancer, this.registry := balancer, registry;
    }

    /** The task is counted before it is sent; the count is taken back when the broker refuses it. */
    method CountAndSend(id: string, brokerAccepts: bool)
      requires registry.Valid()
      modifies registry
      ensures registry.Valid() && registry.order == old(registry.order)
      ensures brokerAccepts ==>
        Moved(id, true, old(registry.local), old(registry.redis), registry.local, registry.redis)
      ensures !brokerAccepts ==> TakenBack(id, old(registry.local), old(registry.redis), registry.local, registry.redis)
    {
      ghost var local, redis := registry.local, registry.redis;
      var counted := registry.IncrementActiveTasks(id);
      assert Moved(id, true, local, redis, registry.local, registry.redis);
      if !brokerAccepts {
        ghost var local1, redis1 := registry.local, registry.redis;
        counted := registry.DecrementActiveTasks(id);
        assert Moved(id, false, local1, redis1, registry.local, registry.redis);
        UpThenDown(id, local, redis, local1, redis1, registry.local, registry.redis);
      }
    }

    /** `schedule_task`.  Whether the session exists and whether the broker takes the task are
        given from outside.  The balancer may look at the scheduler's registry or at another one. */
    method ScheduleTask(sessionExists: bool, priority: TaskPriority, brokerAccepts: bool) returns (report: Report)
      requires registry.Valid()
      modifies registry
      ensures registry.Valid() && registry.order == old(registry.order)
      ensures !sessionExists ==>
        report == Report(false, false) && registry.local == old(registry.local) && registry.redis == old(registry.redis)
      ensures sessionExists ==>
        var choice := Choice(old(balancer.registry.AvailableNow()), Name(priority));
        && report == Report(brokerAccepts, !brokerAccepts && choice.Some?)
        && Counted(choice, brokerAccepts, old(registry.local), old(registry.redis), registry.local, registry.redis)
      ensures sessionExists && brokerAccepts && old(balancer.registry.AvailableNow()) != [] ==>
        Placed(old(balancer.registry.AvailableNow()), priority,
               old(registry.local), old(registry.redis), registry.local, registry.redis)
    {
      if !sessionExists {
        return Report(false, false);
      }
      var worker := balancer.GetBestWorkerForPriority(Name(priority));
      if worker.None? {
        return Report(brokerAccepts, false);
      }
      ghost var available, local, redis := balancer.registry.AvailableNow(), registry.local, registry.redis;
      CountAndSend(worker.value.id, brokerAccepts);
      if brokerAccepts {
        CountedIsPlaced(available, priority, local, redis, registry.local, registry.redis);
      }
      report := Report(brokerAccepts, !brokerAccepts);
    }
  }

  // ---------- Balancer and scheduler on one registry ----------

  /** A task the broker refuses leaves every count in Redis alone.  It leaves every local count
      alone exactly when the chosen worker's was not negative. */
  lemma RefusedLeavesCounts(order: seq<string>, local: map<string, Worker>, redis: map<string, WorkerHash>,
                            local': map<string, Worker>, redis': map<string, WorkerHash>, priority: string)
    requires IsFleet(order, local) && local.Keys <= redis.Keys
    requires Counted(Choice(Available(order, local), priority), false, local, redis, local', redis')
    ensures local'.Keys == local.Keys && redis'.Keys == redis.Keys
    ensures forall id :: id in redis ==> redis'[id].active == redis[id].active
    ensures (forall id :: id in local ==> local'[id].active == local[id].active) <==>
            var choice := Choice(Available(order, local), priority); choice.Some? ==> choice.value.active >= 0
  {
    ChosenIsEligible(Fleet(order, local), priority);
  }

  /** What can happen to a fleet: a task is scheduled (and taken or refused by the broker), a worker
      completes one, and whatever else the registry offers. */
  datatype Op =
    | Schedule(priority: TaskPriority, brokerAccepts: bool)
    | Complete(id: string)
    | Heartbeat(id: string, activeTasks: int, at: real, written: real)
    | Register(id: string, capacity: int, at: real)
    | SetStatus(id: string, status: string)
    | Deregister(id: string)
    | Detect(at: real)

  function Step(f: Fleet, op: Op): Fleet {
    match op
    case Schedule(p, true) => Place(f, Name(p))
    case Schedule(p, false) => Refuse(f, Choice(Available(f.order, f.local), Name(p)))
    case Complete(id) => if id in f.local then Entered(f, id, Decremented(f.local[id])) else f
    case Heartbeat(id, n, at, _) => if id in f.local then Entered(f, id, Heard(f.local[id], n, at)) else f
    case Register(id, capacity, at) => Entered(f, id, Registered(id, capacity, at))
    case SetStatus(id, status) => if id in f.local then Entered(f, id, f.local[id].(status := status)) else f
    case Deregister(id) => Fleet(Without(f.order, id), f.local - {id})
    case Detect(at) => Fleet(f.order, MarkAll(f.local, at))
  }

  /** A worker is entered under its id, which keeps its place or goes to the end. */
  function Entered(f: Fleet, id: string, w: Worker): Fleet {
    Fleet(if id in f.local then f.order else f.order + [id], f.local[id := w])
  }

  function Refuse(f: Fleet, choice: Option<Worker>): Fleet {
    match choice
    case None => f
    case Some(w) => f.(local := f.local[w.id := w.(active := Max(0, w.active), processed := w.processed + 1)])
  }

  /** What the scheduler and the registry do to a shared registry are these steps: a task the broker
      takes is one placement, and a completion one decrement. */
  lemma ScheduledIsStep(f: Fleet, redis: map<string, WorkerHash>,
                        local': map<string, Worker>, redis': map<string, WorkerHash>,
                        p: TaskPriority, brokerAccepts: bool)
    requires IsFleet(f.order, f.local) && f.local.Keys <= redis.Keys
    requires Counted(Choice(Available(f.order, f.local), Name(p)), brokerAccepts, f.local, redis, local', redis')
    ensures Fleet(f.order, local') == Step(f, Schedule(p, brokerAccepts))
  {
    ChosenIsEligible(f, Name(p));
    CountedChosen(f, redis, local', redis', Choice(Available(f.order, f.local), Name(p)), brokerAccepts);
  }

  lemma CountedChosen(f: Fleet, redis: map<string, WorkerHash>,
                      local': map<string, Worker>, redis': map<string, WorkerHash>,
                      choice: Option<Worker>, brokerAccepts: bool)
    requires f.local.Keys <= redis.Keys && Counted(choice, brokerAccepts, f.local, redis, local', redis')
    requires choice.Some? ==> choice.value.id in f.local && f.local[choice.value.id] == choice.value
    ensures Fleet(f.order, local') == if brokerAccepts then PlaceOn(f, choice) else Refuse(f, choice)
  {
  }

  lemma CompletedIsStep(f: Fleet, redis: map<string, WorkerHash>,
                        local': map<string, Worker>, redis': map<string, WorkerHash>, id: string)
    requires f.local.Keys <= redis.Keys && Moved(id, false, f.local, redis, local', redis')
    ensures Fleet(f.order, local') == Step(f, Complete(id))
  {
  }

  function Run(f: Fleet, ops: seq<Op>): Fleet {
    if ops == [] then f else Step(Run(f, ops[..|ops| - 1]), ops[|ops| - 1])
  }

  /** The count a worker was last set to, given what it was set to before: zero when it is
      registered, the reported number at a heartbeat. */
  function Reported(before: int, op: Op, id: string): int {
    match op
    case Heartbeat(i, n, _, _) => if i == id then n else before
    case Register(i, _, _) => if i == id then 0 else before
    case _ => before
  }

  function LastReported(f: Fleet, ops: seq<Op>, id: string): int {
    if ops == [] then if id in f.local then f.local[id].active else 0
    else Reported(LastReported(f, ops[..|ops| - 1], id), ops[|ops| - 1], id)
  }

  ghost predicate Within(f: Fleet, id: string, reported: int) {
    id in f.local ==> f.local[id].active <= Max(0, Max(reported, f.local[id].capacity))
  }

  lemma EnteredIsFleet(f: Fleet, id: string, w: Worker)
    requires IsFleet(f.order, f.local) && w.id == id
    ensures IsFleet(Entered(f, id, w).order, Entered(f, id, w).local)
  {
  }

  lemma StepIsFleet(f: Fleet, op: Op)
    requires IsFleet(f.order, f.local)
    ensures IsFleet(Step(f, op).order, Step(f, op).local)
  {
    match op {
      case Schedule(p, _) => ChosenIsEligible(f, Name(p));
      case Deregister(id) => FleetShrinks(f.order, f.local, id);
      case Register(id, capacity, at) => EnteredIsFleet(f, id, Registered(id, capacity, at));
      case Complete(id) =>
      case Heartbeat(id, _, _, _) =>
      case SetStatus(id, _) =>
      case Detect(_) =>
    }
  }

  lemma StepWithinCapacity(f: Fleet, op: Op, id: string, reported: int)
    requires IsFleet(f.order, f.local) && Within(f, id, reported)
    ensures Within(Step(f, op), id, Reported(reported, op, id))
  {
    if op.Schedule? {
      ChosenIsEligible(f, Name(op.priority));
    }
  }

  /** Over any run of schedulings of any priority, refusals, completions, heartbeats, registrations,
      deregistrations, status changes and markings, no worker is above its capacity, except by what
      it was last set to itself. */
  lemma {:induction false} RunWithinCapacity(f: Fleet, ops: seq<Op>, id: string)
    requires IsFleet(f.order, f.local)
    ensures IsFleet(Run(f, ops).order, Run(f, ops).local) && Within(Run(f, ops), id, LastReported(f, ops, id))
  {
    if ops == [] {
    } else {
      var before := Run(f, ops[..|ops| - 1]);
      RunWithinCapacity(f, ops[..|ops| - 1], id);
      StepIsFleet(before, ops[|ops| - 1]);
      StepWithinCapacity(before, ops[|ops| - 1], id, LastReported(f, ops[..|ops| - 1], id));
    }
  }

  /** Nothing in the step lets worker `id` become healthy again. */
  predicate NotHeard(op: Op, id: string) {
    !((op.Heartbeat? || op.Register? || op.SetStatus?) && op.id == id)
  }

  ghost predicate Resting(f: Fleet, id: string, active: int) {
    id in f.local ==> f.local[id].status != HEALTHY && f.local[id].active <= active
  }

  lemma StepKeepsResting(f: Fleet, op: Op, id: string, active: nat)
    requires IsFleet(f.order, f.local) && Resting(f, id, active) && NotHeard(op, id)
    ensures Resting(Step(f, op), id, active)
  {
    if op.Schedule? {
      ChosenIsEligible(f, Name(op.priority));
    }
  }

  /** A worker marked as silent is given no task, over any run, until it is heard of again. */
  lemma {:induction false} SilentGetsNoTask(f: Fleet, ops: seq<Op>, id: string, at: real)
    requires IsFleet(f.order, f.local) && id in f.local && Silent(f.local[id], at)
    requires forall i :: 0 <= i < |ops| ==> NotHeard(ops[i], id)
    ensures var g := Run(Step(f, Detect(at)), ops);
      IsFleet(g.order, g.local) && Resting(g, id, Max(0, f.local[id].active))
  {
    StepIsFleet(f, Detect(at));
    if ops == [] {
    } else {
      SilentGetsNoTask(f, ops[..|ops| - 1], id, at);
      var before := Run(Step(f, Detect(at)), ops[..|ops| - 1]);
      StepIsFleet(before, ops[|ops| - 1]);
      StepKeepsResting(before, ops[|ops| - 1], id, Max(0, f.local[id].active));
    }
  }

  /** Redis is told of a heartbeat after the local copy. */
  predicate InOrder(op: Op) {
    op.Heartbeat? ==> op.at <= op.written
  }

  /** Each operation of the scheduler and of its registry, shared with the balancer, is its step of the fleet. */
  method Perform(scheduler: Scheduler, op: Op)
    requires scheduler.registry.Valid() && scheduler.balancer.registry == scheduler.registry && InOrder(op)
    modifies scheduler.registry
    ensures scheduler.registry.Valid()
    ensures Fleet(scheduler.registry.order, scheduler.registry.local) ==
            Step(old(Fleet(scheduler.registry.order, scheduler.registry.local)), op)
  {
    var registry := scheduler.registry;
    ghost var f, redis := Fleet(registry.order, registry.local), registry.redis;
    match op {
      case Schedule(p, brokerAccepts) =>
        var report := scheduler.ScheduleTask(true, p, brokerAccepts);
        ScheduledIsStep(f, redis, registry.local, registry.redis, p, brokerAccepts);
      case Complete(id) => var ok := registry.DecrementActiveTasks(id);
      case Heartbeat(id, n, at, written) => var ok := registry.Heartbeat(id, n, at, written);
      case Register(id, capacity, at) => var ok := registry.RegisterWorker(id, capacity, at);
      case SetStatus(id, status) => var ok := registry.UpdateWorkerStatus(id, status);
      case Deregister(id) => var ok := registry.DeregisterWorker(id);
      case Detect(at) => var unhealthy := registry.DetectUnhealthyWorkers(at);
    }
  }

  /** So any sequence of operations is a run, and what is proved of runs holds of the registry. */
  method PerformAll(scheduler: Scheduler, ops: seq<Op>)
    requires scheduler.registry.Valid() && scheduler.balancer.registry == scheduler.registry
    requires forall i :: 0 <= i < |ops| ==> InOrder(ops[i])
    modifies scheduler.registry
    ensures scheduler.registry.Valid()
    ensures var f := old(Fleet(scheduler.registry.order, scheduler.registry.local));
            var g := Fleet(scheduler.registry.order, scheduler.registry.local);
      g == Run(f, ops) && forall id :: id in g.local ==> Within(g, id, LastReported(f, ops, id))
  {
    ghost var f := Fleet(scheduler.registry.order, scheduler.registry.local);
    for i := 0 to |ops|
      invariant scheduler.registry.Valid()
      invariant Fleet(scheduler.registry.order, scheduler.registry.local) == Run(f, ops[..i])
    {
      Perform(scheduler, ops[i]);
      assert ops[..i + 1][..i] == ops[..i];
    }
    assert ops[..|ops|] == ops;
    forall id | id in Run(f, ops).local
      ensures Within(Run(f, ops), id, LastReported(f, ops, id))
    {
      RunWithinCapacity(f, ops, id);
    }
  }

  /** `k` high-priority tasks in a row, taken by the broker, on an idle fleet that balancer and scheduler
      share: the loads end balanced, and no admissible spread of as many tasks has a smaller maximum. */
  method ScheduleHighInARow(scheduler: Scheduler, k: nat)
    requires scheduler.registry.Valid() && scheduler.balancer.registry == scheduler.registry
    requires Idle(Fleet(scheduler.registry.order, scheduler.registry.local))
    modifies scheduler.registry
    ensures scheduler.registry.Valid()
    ensures var f := old(Fleet(scheduler.registry.order, scheduler.registry.local));
            var g := Fleet(scheduler.registry.order, scheduler.registry.local);
      && g == PlaceHigh(f, k) && Balanced(g)
      && forall load, i :: Admissible(g, load) && i in g.local ==>
           exists j :: j in g.local && load[j] >= g.local[i].active
  {
    var registry := scheduler.registry;
    ghost var f := Fleet(registry.order, registry.local);
    for n := 0 to k
      invariant registry.Valid()
      invariant Fleet(registry.order, registry.local) == PlaceHigh(f, n)
    {
      ghost var before, redis := Fleet(registry.order, registry.local), registry.redis;
      var report := scheduler.ScheduleTask(true, High, true);
      ScheduledIsStep(before, redis, registry.local, registry.redis, High, true);
    }
    HighIsOptimal(f, k);
  }

  lemma {:induction false} HighIsOptimal(f: Fleet, k: nat)
    requires Idle(f)
    ensures Balanced(PlaceHigh(f, k))
    ensures forall load, i :: Admissible(PlaceHigh(f, k), load) && i in PlaceHigh(f, k).local ==>
      exists j :: j in PlaceHigh(f, k).local && load[j] >= PlaceHigh(f, k).local[i].active
  {
    GreedyIsBalanced(f, k);
    forall load, i | Admissible(PlaceHigh(f, k), load) && i in PlaceHigh(f, k).local
      ensures exists j :: j in PlaceHigh(f, k).local && load[j] >= PlaceHigh(f, k).local[i].active
    {
      var j := GreedyIsOptimal(f, k, load, i);
    }
  }

  // ---------- Silent workers are found ----------

  /** Nothing in the operation changes when worker `id` was last heard of. */
  predicate LeavesHeartbeat(op: Op, id: string) {
    !((op.Heartbeat? || op.Register? || op.Deregister?) && op.id == id)
  }

  lemma StepLeavesHeartbeat(f: Fleet, op: Op, id: string, at: real)
    requires IsFleet(f.order, f.local) && LeavesHeartbeat(op, id)
    requires id in f.local && f.local[id].lastHeartbeat == Some(at)
    ensures id in Step(f, op).local && Step(f, op).local[id].lastHeartbeat == Some(at)
  {
    if op.Schedule? {
      ChosenIsEligible(f, Name(op.priority));
    }
  }

  lemma {:induction false} RunLeavesHeartbeat(f: Fleet, ops: seq<Op>, id: string, at: real)
    requires IsFleet(f.order, f.local) && forall i :: 0 <= i < |ops| ==> LeavesHeartbeat(ops[i], id)
    requires id in f.local && f.local[id].lastHeartbeat == Some(at)
    ensures IsFleet(Run(f, ops).order, Run(f, ops).local)
    ensures id in Run(f, ops).local && Run(f, ops).local[id].lastHeartbeat == Some(at)
  {
    if ops == [] {
    } else {
      RunLeavesHeartbeat(f, ops[..|ops| - 1], id, at);
      StepIsFleet(Run(f, ops[..|ops| - 1]), ops[|ops| - 1]);
      StepLeavesHeartbeat(Run(f, ops[..|ops| - 1]), ops[|ops| - 1], id, at);
    }
  }

  /** The operation registers worker `id` or reports a heartbeat of it, at `at`. */
  predicate Hears(f: Fleet, op: Op, id: string, at: real) {
    (op.Register? && op.id == id && op.at == at) || (op.Heartbeat? && op.id == id && op.at == at && id in f.local)
  }

  lemma StepHears(f: Fleet, op: Op, id: string, at: real)
    requires Hears(f, op, id, at)
    ensures id in Step(f, op).local && Step(f, op).local[id].lastHeartbeat == Some(at)
  {
  }

  lemma {:induction false} HeardInRun(f: Fleet, first: Op, ops: seq<Op>, id: string, at: real)
    requires IsFleet(f.order, f.local) && Hears(f, first, id, at)
    requires forall i :: 0 <= i < |ops| ==> LeavesHeartbeat(ops[i], id)
    ensures var g := Run(Step(f, first), ops);
      IsFleet(g.order, g.local) && id in g.local && g.local[id].lastHeartbeat == Some(at)
  {
    StepIsFleet(f, first);
    StepHears(f, first, id, at);
    RunLeavesHeartbeat(Step(f, first), ops, id, at);
  }

  lemma MarkedIsGone(f: Fleet, id: string, at: real, now: real)
    requires IsFleet(f.order, f.local) && id in f.local && f.local[id].lastHeartbeat == Some(at) && now - at > 60.0
    ensures forall w :: w in Available(f.order, MarkAll(f.local, now)) ==> w.id != id
  {
    assert MarkAll(f.local, now)[id].status == UNHEALTHY;
    AvailableMembers(f.order, MarkAll(f.local, now));
  }

  lemma MarkedExactly(g: Fleet, id: string, at: real, now: real)
    requires IsFleet(g.order, g.local) && id in g.local && g.local[id].lastHeartbeat == Some(at)
    ensures var h := Step(g, Detect(now));
      && id in h.local
      && h.local[id] == (if now - at > 60.0 then g.local[id].(status := "unhealthy") else g.local[id])
      && (now - at > 60.0 ==> forall w :: w in Available(h.order, h.local) ==> w.id != id)
  {
    if now - at > 60.0 {
      MarkedIsGone(g, id, at, now);
    }
  }

  /** A worker registered or heard of at `at` is marked exactly when more than sixty seconds have passed
      at the time of the detection, whatever other operations there were in between; then it is not
      available, and otherwise it is as it was. */
  lemma {:induction false} MarkedAfterSixty(f: Fleet, first: Op, ops: seq<Op>, id: string, at: real, now: real)
    requires IsFleet(f.order, f.local)
    requires (first.Register? && first.id == id && first.at == at) ||
             (first.Heartbeat? && first.id == id && first.at == at && id in f.local)
    requires forall i :: 0 <= i < |ops| ==> LeavesHeartbeat(ops[i], id)
    ensures var g := Run(Step(f, first), ops);
            var h := Step(g, Detect(now));
      && id in g.local && id in h.local
      && h.local[id] == (if now - at > 60.0 then g.local[id].(status := "unhealthy") else g.local[id])
      && (now - at > 60.0 ==> forall w :: w in Available(h.order, h.local) ==> w.id != id)
  {
    HeardInRun(f, first, ops, id, at);
    MarkedExactly(Run(Step(f, first), ops), id, at, now);
  }

  /** The detection in a registry in which worker `id` was last heard of at `at`. */
  method DetectHeard(registry: WorkerRegistry, id: string, ghost at: real, now: real) returns (unhealthy: seq<string>)
    requires registry.Valid() && id in registry.local && registry.local[id].lastHeartbeat == Some(at)
    modifies registry
    ensures registry.Valid() && id in registry.local
    ensures id in unhealthy <==> now - at > 60.0
    ensures registry.local[id] ==
      if now - at > 60.0 then old(registry.local)[id].(status := "unhealthy") else old(registry.local)[id]
    ensures now - at > 60.0 ==> forall w :: w in registry.AvailableNow() ==> w.id != id
  {
    if now - at > 60.0 {
      MarkedIsGone(Fleet(registry.order, registry.local), id, at, now);
    }
    unhealthy := registry.DetectUnhealthyWorkers(now);
  }

  /** The same of the operations themselves, and of what the detection reports. */
  method DetectAfter(scheduler: Scheduler, first: Op, ops: seq<Op>, id: string, at: real, now: real)
      returns (unhealthy: seq<string>)
    requires scheduler.registry.Valid() && scheduler.balancer.registry == scheduler.registry
    requires (first.Register? && first.id == id && first.at == at) ||
             (first.Heartbeat? && first.id == id && first.at == at && id in scheduler.registry.local)
    requires InOrder(first) && forall i :: 0 <= i < |ops| ==> InOrder(ops[i]) && LeavesHeartbeat(ops[i], id)
    modifies scheduler.registry
    ensures id in unhealthy <==> now - at > 60.0
    ensures var g := Run(Step(old(Fleet(scheduler.registry.order, scheduler.registry.local)), first), ops);
      && id in g.local && id in scheduler.registry.local
      && scheduler.registry.local[id] ==
           (if now - at > 60.0 then g.local[id].(status := "unhealthy") else g.local[id])
    ensures now - at > 60.0 ==> forall w :: w in scheduler.registry.AvailableNow() ==> w.id != id
  {
    ghost var f := Fleet(scheduler.registry.order, scheduler.registry.local);
    HeardInRun(f, first, ops, id, at);
    Perform(scheduler, first);
    PerformAll(scheduler, ops);
    unhealthy := DetectHeard(scheduler.registry, id, at, now);
  }

  // ---------- Balancer and scheduler on two registries ----------

  /** `k` tasks scheduled in a row, each chosen from the balancer's fleet `seen` and counted in `counted`. */
  function ScheduleBlind(seen: Fleet, counted: map<string, Worker>, priority: string, k: nat): map<string, Worker> {
    if k == 0 then counted else
      var before := ScheduleBlind(seen, counted, priority, k - 1);
      match Choice(Available(seen.order, seen.local), priority)
      case Some(w) => if w.id in before then before[w.id := Incremented(before[w.id])] else before
      case None => before
  }

  lemma {:induction false} BlindCountsOne(seen: Fleet, counted: map<string, Worker>, priority: string, k: nat)
    requires var choice := Choice(Available(seen.order, seen.local), priority);
      choice.Some? && choice.value.id in counted
    ensures var id := Choice(Available(seen.order, seen.local), priority).value.id;
      ScheduleBlind(seen, counted, priority, k) == counted[id := counted[id].(active := counted[id].active + k)]
  {
    if k == 0 {
    } else {
      BlindCountsOne(seen, counted, priority, k - 1);
    }
  }

  /** The scheduler as it is built counts in a registry of its own, which its balancer does not see:
      task after task goes to the same worker, and it ends above its capacity exactly when there
      are more of them than it had room for. */
  lemma SeparateRegistriesOverfill(seen: Fleet, counted: map<string, Worker>, priority: string, k: nat)
    requires var choice := Choice(Available(seen.order, seen.local), priority);
      choice.Some? && choice.value.id in counted
    ensures var id := Choice(Available(seen.order, seen.local), priority).value.id;
      var after := ScheduleBlind(seen, counted, priority, k);
      && after == counted[id := counted[id].(active := counted[id].active + k)]
      && (after[id].active > after[id].capacity <==> counted[id].active + k > counted[id].capacity)
  {
    BlindCountsOne(seen, counted, priority, k);
  }

  lemma BlindStep(seen: Fleet, counted: map<string, Worker>, redis: map<string, WorkerHash>,
                  before: map<string, Worker>, after: map<string, Worker>, redis': map<string, WorkerHash>,
                  priority: string, k: nat)
    requires before == ScheduleBlind(seen, counted, priority, k) && before.Keys <= redis.Keys
    requires Counted(Choice(Available(seen.order, seen.local), priority), true, before, redis, after, redis')
    ensures after == ScheduleBlind(seen, counted, priority, k + 1)
  {
    match Choice(Available(seen.order, seen.local), priority) {
      case Some(w) => assert after == if w.id in before then before[w.id := Incremented(before[w.id])] else before;
      case None =>
    }
  }

  /** `k` tasks in a row through a scheduler whose registry is not its balancer's, each taken by the
      broker: the balancer's registry stays as it was, and the scheduler's counts them all blindly. */
  method ScheduleInARow(scheduler: Scheduler, priority: TaskPriority, k: nat)
    requires scheduler.registry.Valid() && scheduler.balancer.registry != scheduler.registry
    modifies scheduler.registry
    ensures scheduler.registry.Valid()
    ensures var seen := old(Fleet(scheduler.balancer.registry.order, scheduler.balancer.registry.local));
      && scheduler.registry.local == ScheduleBlind(seen, old(scheduler.registry.local), Name(priority), k)
      && var choice := Choice(Available(seen.order, seen.local), Name(priority));
         choice.Some? && choice.value.id in old(scheduler.registry.local) ==>
           var w := old(scheduler.registry.local)[choice.value.id];
           && choice.value.id in scheduler.registry.local
           && var v := scheduler.registry.local[choice.value.id];
              v == w.(active := w.active + k) && (v.active > v.capacity <==> w.active + k > w.capacity)
  {
    ghost var seen := Fleet(scheduler.balancer.registry.order, scheduler.balancer.registry.local);
    ghost var counted := scheduler.registry.local;
    for i := 0 to k
      invariant scheduler.registry.Valid()
      invariant seen == Fleet(scheduler.balancer.registry.order, scheduler.balancer.registry.local)
      invariant scheduler.registry.local == ScheduleBlind(seen, counted, Name(priority), i)
    {
      ghost var before, redis := scheduler.registry.local, scheduler.registry.redis;
      var report := scheduler.ScheduleTask(true, priority, true);
      BlindStep(seen, counted, redis, before, scheduler.registry.local, scheduler.registry.redis, Name(priority), i);
    }
    ghost var choice := Choice(Available(seen.order, seen.local), Name(priority));
    if choice.Some? && choice.value.id in counted {
      SeparateRegistriesOverfill(seen, counted, Name(priority), k);
    }
  }
}
