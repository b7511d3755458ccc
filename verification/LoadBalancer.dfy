/** The load balancer: which worker gets the next task. */
module LoadBalancing {
  import opened Options
  import opened WorkerRegistries

  datatype Strategy = RoundRobin | LeastLoadedFirst | QueueBased

  /** Below seventy per cent of capacity. */
  predicate Underutilized(w: Worker) {
    10 * w.active < 7 * w.capacity
  }

  /** Where the first underutilized worker stands; the length of the list if there is none. */
  function FirstUnderutilized(ws: seq<Worker>): (k: nat)
    ensures k <= |ws| && (k < |ws| ==> 10 * ws[k].active < 7 * ws[k].capacity)
    ensures forall j :: 0 <= j < k ==> 10 * ws[j].active >= 7 * ws[j].capacity
  {
    if ws == [] then 0
    else
      var k := FirstUnderutilized(ws[..|ws| - 1]);
      if k == |ws| - 1 && !Underutilized(ws[k]) then |ws| else k
  }

  /** The worker for a priority among those available: a least loaded one for high, the first
      underutilized one (or else the first) for medium, the last one for anything else. */
  function Choice(available: seq<Worker>, priority: string): (w: Option<Worker>)
    ensures w.None? <==> available == []
    ensures w.Some? ==> w.value in available
  {
    if available == [] then None
    else if priority == "high" then Some(LeastLoaded(available))
    else if priority == "medium" then
      var k := FirstUnderutilized(available);
      Some(if k < |available| then available[k] else available[0])
    else Some(available[|available| - 1])
  }

  /** High takes the first least loaded worker, medium the first underutilized one and without one
      the first of all, anything else the last. */
  lemma ChoiceMeaning(available: seq<Worker>, priority: string)
    requires available != []
    ensures var w := Choice(available, priority).value;
      && (priority == "high" ==>
            && w == available[LeastIndex(available)]
            && forall j :: 0 <= j < |available| ==> w.active <= available[j].active)
      && (priority == "medium" ==>
            if forall j :: 0 <= j < |available| ==> 10 * available[j].active >= 7 * available[j].capacity
            then w == available[0]
            else exists k :: 0 <= k < |available| && available[k] == w && 10 * w.active < 7 * w.capacity &&
                             forall j :: 0 <= j < k ==> 10 * available[j].active >= 7 * available[j].capacity)
      && (priority != "high" && priority != "medium" ==> w == available[|available| - 1])
  {
  }

  class LoadBalancer {
    const registry: WorkerRegistry
    var strategy: Strategy
    var roundRobinIndex: nat

    constructor (registry: WorkerRegistry, strategy: Strategy := LeastLoadedFirst)
      ensures this.registry == registry && this.strategy == strategy && roundRobinIndex == 0
    {
      this.registry, this.strategy, roundRobinIndex := registry, strategy, 0;
    }

    /** One selection: the worker at the index, counted around the available list; the index moves
        on only when there was one to select. */
    method SelectRoundRobin() returns (worker: Option<Worker>)
      modifies this`roundRobinIndex
      ensures registry.AvailableNow() == [] ==> worker == None && roundRobinIndex == old(roundRobinIndex)
      ensures var available := registry.AvailableNow();
        available != [] ==> worker == Some(available[old(roundRobinIndex) % |available|]) &&
                            roundRobinIndex == old(roundRobinIndex) + 1
    {
      var available := registry.GetAvailableWorkers();
      if available == [] {
        return None;
      }
      worker := Some(available[roundRobinIndex % |available|]);
      roundRobinIndex := roundRobinIndex + 1;
    }

    method SelectWorker() returns (worker: Option<Worker>)
      modifies this`roundRobinIndex
      ensures var available := registry.AvailableNow();
        && (worker.None? <==> available == [])
        && (worker.Some? && strategy == RoundRobin ==>
              worker.value == available[old(roundRobinIndex) % |available|])
        && (worker.Some? && strategy != RoundRobin ==> worker.value == LeastLoaded(available))
      ensures roundRobinIndex == old(roundRobinIndex) + if worker.Some? && strategy == RoundRobin then 1 else 0
    {
      match strategy {
        case RoundRobin => worker := SelectRoundRobin();
        case LeastLoadedFirst => worker := registry.GetLeastLoadedWorker();
        case QueueBased => worker := registry.GetLeastLoadedWorker();
      }
    }

    method SwitchStrategy(strategy: Strategy)
      modifies this`strategy
      ensures this.strategy == strategy
    {
      this.strategy := strategy;
    }

    method GetBestWorkerForPriority(priority: string) returns (worker: Option<Worker>)
      ensures worker == Choice(registry.AvailableNow(), priority)
    {
      var available := registry.GetAvailableWorkers();
      if available == [] {
        return None;
      }
      if priority == "high" {
        return Some(LeastLoaded(available));
      }
      if priority == "medium" {
        var k := FirstUnderutilized(available);
        if k < |available| {
          return Some(available[k]);
        }
        return Some(available[0]);
      }
      worker := Some(available[|available| - 1]);
    }
  }

  // ---------- Round robin is fair ----------

  function RoundRobinPick(available: seq<Worker>, index: nat): Worker
    requires available != []
  {
    available[index % |available|]
  }

  /** The workers chosen by `k` selections in a row from an index, the available list unchanged. */
  function RoundRobinPicks(available: seq<Worker>, index: nat, k: nat): seq<Worker>
    requires available != []
  {
    if k == 0 then [] else RoundRobinPicks(available, index, k - 1) + [RoundRobinPick(available, index + k - 1)]
  }

  /** How many numbers below `m` leave remainder `j`. */
  function Before(m: nat, j: nat, n: nat): nat
    requires j < n
  {
    if m == 0 then 0 else Before(m - 1, j, n) + if (m - 1) % n == j then 1 else 0
  }

  lemma AtLeastOnce(d: int, n: int)
    requires d >= 1 && n > 0
    ensures d * n >= n
  {
  }

  lemma QuotientIs(a: int, n: int, q: int, r: int)
    requires a == q * n + r && 0 <= r < n
    ensures a / n == q
  {
    assert a == (a / n) * n + a % n;
    assert (a / n - q) * n == r - a % n && (q - a / n) * n == a % n - r;
    if a / n > q {
      AtLeastOnce(a / n - q, n);
    } else if a / n < q {
      AtLeastOnce(q - a / n, n);
    }
  }

  /** Adding less than a whole `n` on top of a remainder raises the quotient by one or not at all. */
  lemma QuotientOfSum(m: nat, n: nat, extra: nat)
    requires extra <= n
    ensures n > 0 ==> (m + extra) / n == m / n + if m % n + extra >= n then 1 else 0
  {
    if n > 0 {
      var q, r := m / n, m % n;
      if r + extra >= n {
        assert (q + 1) * n == q * n + n;
        QuotientIs(m + extra, n, q + 1, r + extra - n);
      } else {
        QuotientIs(m + extra, n, q, r + extra);
      }
    }
  }

  lemma {:induction false} BeforeIsQuotient(m: nat, j: nat, n: nat)
    requires j < n
    ensures Before(m, j, n) == (m + (n - 1 - j)) / n
  {
    if m == 0 {
      QuotientIs(n - 1 - j, n, 0, n - 1 - j);
    } else {
      BeforeIsQuotient(m - 1, j, n);
      QuotientOfSum(m - 1, n, n - 1 - j);
      QuotientOfSum(m - 1, n, n - j);
    }
  }

  lemma CountStep(picks: seq<Worker>, pick: Worker, w: Worker)
    ensures multiset(picks + [pick])[w] == multiset(picks)[w] + if pick == w then 1 else 0
  {
  }

  lemma NextPick(available: seq<Worker>, index: nat, k: nat, j: nat)
    requires Distinct(available) && j < |available|
    ensures multiset(RoundRobinPicks(available, index, k + 1))[available[j]] ==
            multiset(RoundRobinPicks(available, index, k))[available[j]] +
            if (index + k) % |available| == j then 1 else 0
  {
    var picks, pick := RoundRobinPicks(available, index, k), RoundRobinPick(available, index + k);
    CountStep(picks, pick, available[j]);
    SamePick(available, (index + k) % |available|, j);
  }

  lemma SamePick(available: seq<Worker>, i: nat, j: nat)
    requires Distinct(available) && i < |available| && j < |available|
    ensures available[i] == available[j] <==> i == j
  {
  }

  lemma BeforeStep(m: nat, j: nat, n: nat)
    requires j < n
    ensures Before(m + 1, j, n) == Before(m, j, n) + if m % n == j then 1 else 0
  {
  }

  /** Two quantities that change alike at every step have changed alike after all of them. */
  lemma {:induction false} Telescopes(f: nat -> int, g: nat -> int, k: nat)
    requires forall i: nat :: i < k ==> f(i + 1) - f(i) == g(i + 1) - g(i)
    ensures f(k) - f(0) == g(k) - g(0)
  {
    if k == 0 {
    } else {
      Telescopes(f, g, k - 1);
      assert f(k - 1 + 1) - f(k - 1) == g(k - 1 + 1) - g(k - 1);
    }
  }

  /** How often worker `j` is among the first `k` picks. */
  ghost function TimesPicked(available: seq<Worker>, index: nat, k: nat, j: nat): nat
    requires j < |available|
  {
    multiset(RoundRobinPicks(available, index, k))[available[j]]
  }

  lemma TimesStep(available: seq<Worker>, index: nat, k: nat, m: nat, j: nat)
    requires Distinct(available) && j < |available| && m == index + k
    ensures TimesPicked(available, index, k + 1, j) - TimesPicked(available, index, k, j) ==
            Before(m + 1, j, |available|) - Before(m, j, |available|)
  {
    NextPick(available, index, k, j);
    BeforeStep(m, j, |available|);
  }

  lemma StepsAlike(available: seq<Worker>, index: nat, j: nat, f: nat -> int, g: nat -> int, i: nat)
    requires Distinct(available) && j < |available|
    requires f(i) == TimesPicked(available, index, i, j) && f(i + 1) == TimesPicked(available, index, i + 1, j)
    requires g(i) == Before(index + i, j, |available|) && g(i + 1) == Before(index + i + 1, j, |available|)
    ensures f(i + 1) - f(i) == g(i + 1) - g(i)
  {
    TimesStep(available, index, i, index + i, j);
  }

  lemma TimesCounted(available: seq<Worker>, index: nat, k: nat, j: nat, f: nat -> int, g: nat -> int)
    requires Distinct(available) && j < |available|
    requires forall i: nat :: f(i) == TimesPicked(available, index, i, j)
    requires forall i: nat :: g(i) == Before(index + i, j, |available|)
    ensures f(k) - f(0) == g(k) - g(0)
  {
    forall i: nat | i < k
      ensures f(i + 1) - f(i) == g(i + 1) - g(i)
    {
      StepsAlike(available, index, j, f, g, i);
    }
    Telescopes(f, g, k);
  }

  lemma PicksCounted(available: seq<Worker>, index: nat, k: nat, j: nat)
    requires Distinct(available) && j < |available|
    ensures multiset(RoundRobinPicks(available, index, k))[available[j]] ==
            Before(index + k, j, |available|) - Before(index, j, |available|)
  {
    var f: nat -> int := (i: nat) => TimesPicked(available, index, i, j);
    var g: nat -> int := (i: nat) => Before(index + i, j, |available|);
    TimesCounted(available, index, k, j, f, g);
    assert RoundRobinPicks(available, index, 0) == [];
  }

  /** Quotients of sums, where the parts are given by quotient and remainder. */
  lemma QuotientOfParts(q: nat, r: nat, x: nat, s: nat, n: nat)
    requires r < n && s < n
    ensures (q * n + r + (x * n + s)) / n == q + x + if r + s >= n then 1 else 0
  {
    SumOfMultiples(q, x, n);
    if r + s >= n {
      SumOfMultiples(q + x, 1, n);
      QuotientIs(q * n + r + (x * n + s), n, q + x + 1, r + s - n);
    } else {
      QuotientIs(q * n + r + (x * n + s), n, q + x, r + s);
    }
  }

  lemma SumOfMultiples(q: int, x: int, n: int)
    ensures (q + x) * n == q * n + x * n
  {
  }

  lemma Parts(a: nat, n: nat) returns (q: nat, r: nat)
    requires n > 0
    ensures a == q * n + r && r < n && q == a / n
  {
    q, r := a / n, a % n;
  }

  lemma QuotientRises(a: nat, k: nat, q: nat, r: nat, n: nat)
    requires r < n && k == q * n + r
    ensures (a + k) / n - a / n == q || (r > 0 && (a + k) / n - a / n == q + 1)
  {
    var p, s := Parts(a, n);
    QuotientOfParts(p, s, q, r, n);
  }

  /** Over any `k` selections in a row from any index, `q` rounds around the `n` available workers and
      `r` more, each worker is chosen once in every round, and at most once more if `r` is not zero. */
  lemma RoundRobinFair(available: seq<Worker>, index: nat, k: nat, q: nat, r: nat, j: nat)
    requires Distinct(available) && j < |available| && r < |available| && k == q * |available| + r
    ensures q <= multiset(RoundRobinPicks(available, index, k))[available[j]] <= q + if r == 0 then 0 else 1
  {
    PicksCounted(available, index, k, j);
    BeforeIsQuotient(index + k, j, |available|);
    BeforeIsQuotient(index, j, |available|);
    QuotientRises(index + (|available| - 1 - j), k, q, r, |available|);
  }

  /** So in a registry no available worker is ever two selections ahead of another. */
  lemma RoundRobinEven(order: seq<string>, local: map<string, Worker>, index: nat, k: nat, i: nat, j: nat)
    requires IsFleet(order, local) && i < |Available(order, local)| && j < |Available(order, local)|
    ensures var available := Available(order, local);
            var picks := multiset(RoundRobinPicks(available, index, k));
            picks[available[i]] <= picks[available[j]] + 1
  {
    var available := Available(order, local);
    AvailableDistinct(order, local);
    var q, r := Parts(k, |available|);
    RoundRobinFair(available, index, k, q, r, i);
    RoundRobinFair(available, index, k, q, r, j);
  }

  lemma PicksStep(available: seq<Worker>, index: nat, k: nat)
    requires available != []
    ensures RoundRobinPicks(available, index, k + 1) ==
            RoundRobinPicks(available, index, k) + [RoundRobinPick(available, index + k)]
  {
  }

  /** `k` calls of `select_round_robin` in a row, while nothing changes in the registry, make the
      selections above. */
  method SelectInARow(balancer: LoadBalancer, k: nat) returns (picks: seq<Worker>)
    requires balancer.registry.AvailableNow() != []
    modifies balancer`roundRobinIndex
    ensures balancer.roundRobinIndex == old(balancer.roundRobinIndex) + k
    ensures picks == RoundRobinPicks(balancer.registry.AvailableNow(), old(balancer.roundRobinIndex), k)
  {
    ghost var available, index := balancer.registry.AvailableNow(), balancer.roundRobinIndex;
    picks := [];
    for i := 0 to k
      invariant balancer.roundRobinIndex == index + i
      invariant balancer.registry.AvailableNow() == available
      invariant picks == RoundRobinPicks(available, index, i)
    {
      PicksStep(available, index, i);
      var worker := balancer.SelectRoundRobin();
      picks := picks + [worker.value];
    }
  }

  // ---------- Greedy placement is optimal ----------

  datatype Fleet = Fleet(order: seq<string>, local: map<string, Worker>)

  /** Placing one task on the chosen worker, if there is one. */
  function PlaceOn(f: Fleet, choice: Option<Worker>): Fleet {
    match choice
    case None => f
    case Some(w) => f.(local := f.local[w.id := w.(active := w.active + 1)])
  }

  function Place(f: Fleet, priority: string): Fleet {
    PlaceOn(f, Choice(Available(f.order, f.local), priority))
  }

  function PlaceHigh(f: Fleet, k: nat): Fleet {
    if k == 0 then f else Place(PlaceHigh(f, k - 1), "high")
  }

  ghost predicate Idle(f: Fleet) {
    IsFleet(f.order, f.local) && forall id :: id in f.local ==> f.local[id].active == 0
  }

  /** No load exceeds that of a worker that can still take a task by more than one; loads only
      arise on healthy workers and within their capacity. */
  ghost predicate Balanced(f: Fleet) {
    && IsFleet(f.order, f.local)
    && (forall id :: id in f.local ==> var w := f.local[id];
          w.active >= 0 && (w.status != HEALTHY ==> w.active == 0) && (w.active > 0 ==> w.active <= w.capacity))
    && forall i, j :: i in f.local && j in f.local && Eligible(f.local[j]) ==>
         f.local[i].active <= f.local[j].active + 1
  }

  lemma ChosenIsEligible(f: Fleet, priority: string)
    requires IsFleet(f.order, f.local)
    ensures var choice := Choice(Available(f.order, f.local), priority);
      && (choice.None? <==> forall id :: id in f.local ==> !Eligible(f.local[id]))
      && (choice.Some? ==>
           choice.value.id in f.local && f.local[choice.value.id] == choice.value && Eligible(choice.value))
      && (choice.Some? && priority == "high" ==>
            forall id :: id in f.local && Eligible(f.local[id]) ==> choice.value.active <= f.local[id].active)
  {
    var available := Available(f.order, f.local);
    AvailableMembers(f.order, f.local);
    forall id | id in f.local && Eligible(f.local[id])
      ensures f.local[id] in available
    {
    }
  }

  /** One task more on a least loaded available worker. */
  lemma AddKeepsBalance(f: Fleet, w: Worker)
    requires Balanced(f) && w.id in f.local && f.local[w.id] == w && Eligible(w)
    requires forall id :: id in f.local && Eligible(f.local[id]) ==> w.active <= f.local[id].active
    ensures Balanced(PlaceOn(f, Some(w)))
  {
  }

  lemma PlaceKeepsBalance(f: Fleet)
    requires Balanced(f)
    ensures Balanced(Place(f, "high"))
  {
    ChosenIsEligible(f, "high");
    var choice := Choice(Available(f.order, f.local), "high");
    if choice.Some? {
      AddKeepsBalance(f, choice.value);
    }
  }

  /** However many high-priority tasks are placed on an idle fleet, the loads stay within one of
      every worker that is still available. */
  lemma {:induction false} GreedyIsBalanced(f: Fleet, k: nat)
    requires Idle(f)
    ensures Balanced(PlaceHigh(f, k)) && PlaceHigh(f, k).order == f.order
  {
    if k == 0 {
    } else {
      GreedyIsBalanced(f, k - 1);
      PlaceKeepsBalance(PlaceHigh(f, k - 1));
    }
  }

  /** Another way to spread tasks: as many, none on an unhealthy worker, none above a capacity. */
  ghost predicate Admissible(f: Fleet, load: map<string, int>) {
    && f.local.Keys <= load.Keys
    && (forall id :: id in f.local ==>
          && 0 <= load[id] && (f.local[id].status != HEALTHY ==> load[id] == 0)
          && (load[id] > 0 ==> load[id] <= f.local[id].capacity))
    && Total(f.order, load) == Total(f.order, Loads(f))
  }

  function Loads(f: Fleet): map<string, int> {
    map id | id in f.local :: f.local[id].active
  }

  function Total(order: seq<string>, load: map<string, int>): int {
    if order == [] then 0 else
      var id := order[|order| - 1];
      Total(order[..|order| - 1], load) + if id in load then load[id] else 0
  }

  lemma {:induction false} TotalLess(order: seq<string>, a: map<string, int>, b: map<string, int>, less: string)
    requires forall i :: 0 <= i < |order| ==> order[i] in a && order[i] in b && a[order[i]] <= b[order[i]]
    ensures Total(order, a) <= Total(order, b)
    ensures less in order && a[less] < b[less] ==> Total(order, a) < Total(order, b)
  {
    if order == [] {
    } else {
      TotalLess(order[..|order| - 1], a, b, less);
    }
  }

  /** A balanced fleet has the smallest maximum load: every other admissible spread of the same
      number of tasks puts at least as much on some worker as any worker has. */
  lemma BalancedIsOptimal(f: Fleet, load: map<string, int>, i: string) returns (j: string)
    requires Balanced(f) && Admissible(f, load) && i in f.local
    ensures j in f.local && load[j] >= f.local[i].active
  {
    if exists id :: id in f.local && load[id] >= f.local[i].active {
      j :| j in f.local && load[j] >= f.local[i].active;
    } else {
      forall id | id in f.local
        ensures load[id] <= f.local[id].active
      {
      }
      TotalLess(f.order, load, Loads(f), i);
      assert false;
    }
  }

  /** The same for `k` high-priority placements on an idle fleet. */
  lemma GreedyIsOptimal(f: Fleet, k: nat, load: map<string, int>, i: string) returns (j: string)
    requires Idle(f) && i in PlaceHigh(f, k).local && Admissible(PlaceHigh(f, k), load)
    ensures j in PlaceHigh(f, k).local && load[j] >= PlaceHigh(f, k).local[i].active
  {
    GreedyIsBalanced(f, k);
    j := BalancedIsOptimal(PlaceHigh(f, k), load, i);
  }

  /** Placement touches nothing but the active count of one worker, which stays within its capacity. */
  lemma PlaceOnlyCounts(f: Fleet, priority: string)
    requires IsFleet(f.order, f.local)
    ensures var g := Place(f, priority);
      && IsFleet(g.order, g.local) && g.local.Keys == f.local.Keys
      && forall id :: id in f.local ==>
           && g.local[id] == f.local[id].(active := g.local[id].active)
           && f.local[id].active <= g.local[id].active <= Max(f.local[id].active, f.local[id].capacity)
  {
    ChosenIsEligible(f, priority);
  }

  /** The number of tasks in a fleet grows by one with every placement until nobody is available. */
  lemma PlaceCountsOnce(f: Fleet, priority: string)
    requires IsFleet(f.order, f.local)
    ensures Total(f.order, Loads(Place(f, priority))) ==
            Total(f.order, Loads(f)) + if exists id :: id in f.local && Eligible(f.local[id]) then 1 else 0
  {
    ChosenIsEligible(f, priority);
    match Choice(Available(f.order, f.local), priority) {
      case None =>
      case Some(w) =>
        assert Loads(Place(f, priority)) == Loads(f)[w.id := w.active + 1];
        TotalUpdated(f.order, Loads(f), w.id, w.active + 1);
    }
  }

  lemma {:induction false} TotalUpdated(order: seq<string>, load: map<string, int>, id: string, n: int)
    requires Distinct(order) && id in load
    ensures Total(order, load[id := n]) == Total(order, load) + if id in order then n - load[id] else 0
  {
    if order == [] {
    } else {
      TotalUpdated(order[..|order| - 1], load, id, n);
    }
  }
}
