/** Worker mode of the fiber scheduler (include/cyfiber.h): any number of pthread workers, fibers
    pinned to them, and a main thread that calls cy_sched_run and cy_sched_shutdown.  Each action is one
    mutex-protected section, one coroutine switch, or one unlocked load or store of a shared variable;
    every interleaving is a sequence of actions. */
module WorkerPool {
  import opened Prelude
  import opened FiberTable

  /** A worker between two of its steps.  Holding is the window after the lock is released and
      before mco_resume; Executing is inside mco_resume. */
  datatype Worker =
    | Looping(cursor: nat)
    | Holding(cursor: nat, f: FiberId)
    | Executing(cursor: nat, f: FiberId)
    | Exited

  /** The main thread.  SawZero is the window between the load of `outstanding` that read 0 and the store
      of the stop flag; Closing is inside cy_sched_shutdown, which joins the workers only if it was the
      one to set the flag; Closed is after it, when the pool is gone. */
  datatype Main = Idle | SawZero | Joining | Closing(join: bool) | Closed

  /** One resumption: by which worker, of which coroutine, and its state at that moment. */
  datatype Resumption = Resumption(w: nat, f: FiberId, was: Co)

  /** The shared state, with a history: the coroutines destroyed, by a sweep or by the shutdown, and the
      resumptions. */
  datatype Pool = Pool(
    table: seq<FiberId>, co: map<FiberId, Co>, pin: map<FiberId, nat>, outstanding: int,
    reaped: seq<FiberId>,
    workers: seq<Worker>, main: Main, stop: bool, nextWorker: nat, nextId: FiberId,
    resumptions: seq<Resumption>)

  datatype Action =
    | SweepBy(w: nat)        // the critical section of cy_worker_main
    | ResumeBy(w: nat)       // mco_resume of the fiber it holds
    | YieldOn(w: nat)        // the running fiber yields or parks
    | FinishOn(w: nat)       // the running fiber's entry function returns
    | SpawnOn(w: nat)        // the running fiber calls cy_spawn
    | SpawnOutside           // a thread that is not a fiber calls cy_spawn
    | ReadOutstanding        // cy_sched_run loads outstanding, which ends its loop when it is 0
    | SetStop                // cy_sched_run sets g_cy_stop
    | JoinAll                // cy_sched_run returns, every worker having left its loop
    | BeginShutdown          // cy_sched_shutdown sets g_cy_stop, unless it is set
    | FinishShutdown         // its locked section, after the joins

  /** A new suspended fiber at the end of the table, pinned to worker w. */
  function AddFiber(p: Pool, w: nat): Pool {
    p.(table := p.table + [p.nextId],
       co := p.co[p.nextId := Suspended],
       pin := p.pin[p.nextId := w],
       outstanding := p.outstanding + 1,
       nextId := p.nextId + 1)
  }

  /** cy_sched_init(n) with `pending` fibers already spawned: they are pinned round-robin. */
  function Init(n: nat, pending: nat): (p: Pool)
    requires n > 0
    ensures |p.workers| == n && !p.stop && p.main == Idle
    ensures forall w :: 0 <= w < n ==> p.workers[w] == Looping(0)
  {
    if pending == 0 then
      Pool([], map[], map[], 0, [], seq(n, _ => Looping(0)), Idle, false, 0, 0, [])
    else AddFiber(Init(n, pending - 1), (pending - 1) % n)
  }

  function Sweep(p: Pool, w: nat): Pool
    requires w < |p.workers| && p.workers[w].Looping?
  {
    var (i, next) := Pick(p.table, p.co, p.pin, w, p.workers[w].cursor);
    var (rest, gone) := Reap(p.table, p.co, p.pin, w, 0);
    var exit := p.stop && forall f | f in rest :: !Mine(p.pin, w, f);
    var worker := if exit then Exited
                  else if i.Some? then Holding(next, p.table[i.value])
                  else Looping(next);
    p.(table := rest, co := Destroy(p.co, gone), outstanding := p.outstanding - |gone|,
       reaped := p.reaped + gone, workers := p.workers[w := worker])
  }

  /** cy_spawn in worker mode: the next worker in turn. */
  function Spawn(p: Pool): Pool
    requires |p.workers| > 0
  {
    AddFiber(p, p.nextWorker % |p.workers|).(nextWorker := p.nextWorker + 1)
  }

  /** The successor; an action whose actor is elsewhere does nothing, nor does a spawn after the shutdown,
      which would start another pool. */
  function Step(p: Pool, a: Action): (q: Pool)
    requires |p.workers| > 0
    ensures |q.workers| == |p.workers|
  {
    match a
    case SweepBy(w) => if w < |p.workers| && p.workers[w].Looping? then Sweep(p, w) else p
    case ResumeBy(w) =>
      if w < |p.workers| && p.workers[w].Holding? then
        var f := p.workers[w].f;
        p.(resumptions := p.resumptions + [Resumption(w, f, if f in p.co then p.co[f] else Destroyed)],
           co := p.co[f := Running],
           workers := p.workers[w := Executing(p.workers[w].cursor, f)])
      else p
    case YieldOn(w) =>
      if w < |p.workers| && p.workers[w].Executing? then
        p.(co := p.co[p.workers[w].f := Suspended], workers := p.workers[w := Looping(p.workers[w].cursor)])
      else p
    case FinishOn(w) =>
      if w < |p.workers| && p.workers[w].Executing? then
        p.(co := p.co[p.workers[w].f := Dead], workers := p.workers[w := Looping(p.workers[w].cursor)])
      else p
    case SpawnOn(w) => if w < |p.workers| && p.workers[w].Executing? then Spawn(p) else p
    case SpawnOutside => if p.main.Closed? then p else Spawn(p)
    case ReadOutstanding => if p.main.Idle? && p.outstanding == 0 then p.(main := SawZero) else p
    case SetStop => if p.main.SawZero? then p.(main := Joining, stop := true) else p
    case JoinAll => if p.main.Joining? && AllExited(p) then p.(main := Idle) else p
    case BeginShutdown => if p.main.Idle? then p.(main := Closing(!p.stop), stop := true) else p
    case FinishShutdown => if p.main.Closing? && (p.main.join ==> AllExited(p)) then Close(p) else p
  }

  predicate AllExited(p: Pool) {
    forall w :: 0 <= w < |p.workers| ==> p.workers[w].Exited?
  }

  /** The end of cy_sched_shutdown: every coroutine still in the table is destroyed. */
  function Close(p: Pool): Pool {
    p.(table := [], co := Destroy(p.co, p.table), outstanding := 0, reaped := p.reaped + p.table, main := Closed)
  }

  function Run(n: nat, pending: nat, actions: seq<Action>): (p: Pool)
    requires n > 0
    ensures |p.workers| == n
  {
    if actions == [] then Init(n, pending)
    else Step(Run(n, pending, actions[..|actions| - 1]), actions[|actions| - 1])
  }

  /** The table lists exactly the fibers not yet destroyed; the reaped log exactly the others. */
  ghost predicate Accounted(p: Pool) {
    && p.outstanding == |p.table|
    && NoDuplicates(p.table) && NoDuplicates(p.reaped)
    && (forall f: FiberId :: f in p.co <==> f < p.nextId)
    && (forall f: FiberId :: f in p.pin <==> f < p.nextId)
    && (forall f: FiberId :: f in p.table <==> f in p.co && p.co[f] != Destroyed)
    && (forall f: FiberId :: f in p.reaped <==> f in p.co && p.co[f] == Destroyed)
  }

  /** A worker holds only its own suspended fiber, runs only its own running fiber, and every
      running coroutine is inside the resume of its own worker. */
  ghost predicate Attended(p: Pool, w: nat)
    requires w < |p.workers|
  {
    match p.workers[w]
    case Holding(_, f) => Ready(p.co, p.pin, w, f)
    case Executing(_, f) => Mine(p.pin, w, f) && f in p.co && p.co[f] == Running
    case Looping(_) => true
    case Exited => p.stop
  }

  ghost predicate RunsAtHome(p: Pool, f: FiberId) {
    f in p.co && p.co[f] == Running ==>
      f in p.pin && p.pin[f] < |p.workers| &&
      p.workers[p.pin[f]].Executing? && p.workers[p.pin[f]].f == f
  }

  ghost predicate GoodResumption(p: Pool, r: Resumption) {
    r.was == Suspended && Mine(p.pin, r.w, r.f)
  }

  /** The main thread is past a join that it skips: outside cy_sched_run with the flag set, or in a
      shutdown that found it set, every worker has left. */
  ghost predicate Joined(p: Pool) {
    && (p.main.Idle? && p.stop ==> AllExited(p))
    && (p.main.Closing? && !p.main.join ==> AllExited(p))
    && (p.main.Closed? ==> AllExited(p) && p.table == [])
    && (p.main.Joining? || p.main.Closing? ==> p.stop)
    && (p.main.SawZero? && p.stop ==> AllExited(p))
  }

  ghost predicate Inv(p: Pool) {
    && |p.workers| > 0
    && Accounted(p)
    && Joined(p)
    && (forall f :: f in p.pin ==> p.pin[f] < |p.workers|)
    && (forall w :: 0 <= w < |p.workers| ==> Attended(p, w))
    && (forall f :: RunsAtHome(p, f))
    && (forall i :: 0 <= i < |p.resumptions| ==> GoodResumption(p, p.resumptions[i]))
  }

  lemma AddFiberKeepsInv(p: Pool, w: nat)
    requires Inv(p) && w < |p.workers| && !p.main.Closed?
    ensures Inv(AddFiber(p, w))
  {
    var q := AddFiber(p, w);
    forall v | 0 <= v < |p.workers| ensures Attended(q, v) { assert Attended(p, v); }
    forall f ensures RunsAtHome(q, f) { assert RunsAtHome(p, f); }
    forall i | 0 <= i < |q.resumptions| ensures GoodResumption(q, q.resumptions[i]) {
      assert GoodResumption(p, p.resumptions[i]);
    }
    assert NoDuplicates(q.table) by { assert p.nextId !in p.table; }
  }

  lemma {:induction false} InitInv(n: nat, pending: nat)
    requires n > 0
    ensures Inv(Init(n, pending))
  {
    if pending > 0 {
      InitInv(n, pending - 1);
      AddFiberKeepsInv(Init(n, pending - 1), (pending - 1) % n);
    }
  }

  lemma TurnKeepsInv(p: Pool, k: nat)
    requires Inv(p)
    ensures Inv(p.(nextWorker := k))
  {
    var q := p.(nextWorker := k);
    forall v | 0 <= v < |p.workers| ensures Attended(q, v) { assert Attended(p, v); }
    forall f ensures RunsAtHome(q, f) { assert RunsAtHome(p, f); }
    forall i | 0 <= i < |q.resumptions| ensures GoodResumption(q, q.resumptions[i]) {
      assert GoodResumption(p, p.resumptions[i]);
    }
  }

  lemma SpawnKeepsInv(p: Pool)
    requires Inv(p) && !p.main.Closed?
    ensures Inv(Spawn(p))
  {
    var w := p.nextWorker % |p.workers|;
    AddFiberKeepsInv(p, w);
    TurnKeepsInv(AddFiber(p, w), p.nextWorker + 1);
  }

  lemma SweepAccounted(p: Pool, w: nat)
    requires Inv(p) && w < |p.workers| && p.workers[w].Looping?
    ensures Accounted(Sweep(p, w))
  {
    var (rest, gone) := Reap(p.table, p.co, p.pin, w, 0);
    ReapSplits(p.table, p.co, p.pin, w, 0);
    var q := Sweep(p, w);
    forall f: FiberId
      ensures (f in q.co <==> f in p.co) && (f in p.co ==> q.co[f] == if f in gone then Destroyed else p.co[f])
    {
      DestroyLookup(p.co, gone, f);
    }
    assert NoDuplicates(q.reaped) by {
      forall i, j | 0 <= i < j < |q.reaped| ensures q.reaped[i] != q.reaped[j] {
        if i < |p.reaped| <= j { assert q.reaped[i] in p.reaped && q.reaped[j] in gone; }
      }
    }
  }

  lemma SweepAttended(p: Pool, w: nat)
    requires Inv(p) && w < |p.workers| && p.workers[w].Looping?
    ensures forall v :: 0 <= v < |p.workers| ==> Attended(Sweep(p, w), v)
    ensures forall f :: RunsAtHome(Sweep(p, w), f)
  {
    var (rest, gone) := Reap(p.table, p.co, p.pin, w, 0);
    ReapSplits(p.table, p.co, p.pin, w, 0);
    PickMeans(p.table, p.co, p.pin, w, p.workers[w].cursor);
    var q := Sweep(p, w);
    forall v | 0 <= v < |p.workers| ensures Attended(q, v) {
      assert Attended(p, v);
      if p.workers[v].Holding? || p.workers[v].Executing? { DestroyLookup(p.co, gone, p.workers[v].f); }
      if q.workers[w].Holding? { DestroyLookup(p.co, gone, q.workers[w].f); }
    }
    forall f ensures RunsAtHome(q, f) {
      assert RunsAtHome(p, f);
      DestroyLookup(p.co, gone, f);
    }
  }

  lemma SwitchKeepsInv(p: Pool, a: Action)
    requires Inv(p) && (a.ResumeBy? || a.YieldOn? || a.FinishOn?)
    ensures Inv(Step(p, a))
  {
    var w := a.w;
    var q := Step(p, a);
    if q != p {
      assert Attended(p, w);
      forall v | 0 <= v < |p.workers| ensures Attended(q, v) { assert Attended(p, v); }
      forall f ensures RunsAtHome(q, f) { assert RunsAtHome(p, f); }
      forall i | 0 <= i < |q.resumptions| ensures GoodResumption(q, q.resumptions[i]) {
        if i < |p.resumptions| { assert GoodResumption(p, p.resumptions[i]); }
      }
    }
  }

  lemma MainKeepsInv(p: Pool, a: Action)
    requires Inv(p) && (a.ReadOutstanding? || a.SetStop? || a.JoinAll? || a.BeginShutdown?)
    ensures Inv(Step(p, a))
  {
    var q := Step(p, a);
    forall v | 0 <= v < |p.workers| ensures Attended(q, v) { assert Attended(p, v); }
    forall f ensures RunsAtHome(q, f) { assert RunsAtHome(p, f); }
    forall i | 0 <= i < |p.resumptions| ensures GoodResumption(q, p.resumptions[i]) {
      assert GoodResumption(p, p.resumptions[i]);
    }
  }

  lemma CloseAccounted(p: Pool)
    requires Inv(p)
    ensures Accounted(Close(p))
  {
    var q := Close(p);
    forall f: FiberId
      ensures (f in q.co <==> f in p.co) && (f in p.co ==> q.co[f] == if f in p.table then Destroyed else p.co[f])
    {
      DestroyLookup(p.co, p.table, f);
    }
    assert NoDuplicates(q.reaped) by {
      forall i, j | 0 <= i < j < |q.reaped| ensures q.reaped[i] != q.reaped[j] {
        if i < |p.reaped| <= j { assert q.reaped[i] in p.reaped && q.reaped[j] in p.table; }
      }
    }
  }

  lemma CloseKeepsInv(p: Pool)
    requires Inv(p) && AllExited(p) && p.main.Closing?
    ensures Inv(Close(p))
  {
    var q := Close(p);
    CloseAccounted(p);
    forall v | 0 <= v < |p.workers| ensures Attended(q, v) { assert Attended(p, v); }
    forall f ensures RunsAtHome(q, f) {
      assert RunsAtHome(p, f);
      DestroyLookup(p.co, p.table, f);
    }
    forall i | 0 <= i < |p.resumptions| ensures GoodResumption(q, p.resumptions[i]) {
      assert GoodResumption(p, p.resumptions[i]);
    }
  }

  lemma StepKeepsInv(p: Pool, a: Action)
    requires Inv(p)
    ensures Inv(Step(p, a))
  {
    match a {
      case SweepBy(w) =>
        if w < |p.workers| && p.workers[w].Looping? {
          SweepAccounted(p, w);
          SweepAttended(p, w);
          forall i | 0 <= i < |p.resumptions| ensures GoodResumption(Sweep(p, w), p.resumptions[i]) {
            assert GoodResumption(p, p.resumptions[i]);
          }
        }
      case ResumeBy(_) => SwitchKeepsInv(p, a);
      case YieldOn(_) => SwitchKeepsInv(p, a);
      case FinishOn(_) => SwitchKeepsInv(p, a);
      case SpawnOn(w) => if w < |p.workers| && p.workers[w].Executing? { SpawnKeepsInv(p); }
      case SpawnOutside => if !p.main.Closed? { SpawnKeepsInv(p); }
      case FinishShutdown =>
        if p.main.Closing? && (p.main.join ==> AllExited(p)) { CloseKeepsInv(p); }
      case _ => MainKeepsInv(p, a);
    }
  }

  lemma {:induction false} RunKeepsInv(n: nat, pending: nat, actions: seq<Action>)
    requires n > 0
    ensures Inv(Run(n, pending, actions))
  {
    if actions == [] {
      InitInv(n, pending);
    } else {
      RunKeepsInv(n, pending, actions[..|actions| - 1]);
      StepKeepsInv(Run(n, pending, actions[..|actions| - 1]), actions[|actions| - 1]);
    }
  }

  /** Over all interleavings, a coroutine is resumed only by the worker it is pinned to and only
      while suspended: it was not destroyed, or run elsewhere, since that worker picked it. */
  lemma ResumedAtHomeAndAlive(n: nat, pending: nat, actions: seq<Action>, i: nat)
    requires n > 0 && i < |Run(n, pending, actions).resumptions|
    ensures var p := Run(n, pending, actions); var r := p.resumptions[i];
            r.was == Suspended && r.f in p.pin && p.pin[r.f] == r.w
  {
    RunKeepsInv(n, pending, actions);
    var p := Run(n, pending, actions);
    assert GoodResumption(p, p.resumptions[i]);
  }

  /** `outstanding` is the table size at every unlock, and every fiber ever spawned is either in the
      table or was destroyed, by a sweep of its worker or by the shutdown, exactly once. */
  lemma ReapedExactlyOnce(n: nat, pending: nat, actions: seq<Action>, f: FiberId)
    requires n > 0
    ensures var p := Run(n, pending, actions);
            && p.outstanding == |p.table|
            && (f < p.nextId <==> f in p.table || f in p.reaped)
            && !(f in p.table && f in p.reaped)
            && multiset(p.reaped)[f] <= 1
  {
    RunKeepsInv(n, pending, actions);
    var p := Run(n, pending, actions);
    CountAtMostOnce(p.reaped, f);
  }

  lemma {:induction false} CountAtMostOnce(s: seq<FiberId>, f: FiberId)
    requires NoDuplicates(s)
    ensures multiset(s)[f] <= 1
  {
    if s != [] {
      var n := |s| - 1;
      assert s == s[..n] + [s[n]];
      CountAtMostOnce(s[..n], f);
      if f == s[n] { assert f !in s[..n]; }
    }
  }

  /** Once outstanding is 0, no fiber exists and none ever will, unless one is spawned from outside. */
  lemma {:induction false} DrainedForGood(p: Pool, later: seq<Action>)
    requires Inv(p) && p.outstanding == 0
    requires SpawnOutside !in later
    ensures var q := RunFrom(p, later); Inv(q) && q.outstanding == 0 && q.table == []
  {
    if later != [] {
      var n := |later| - 1;
      DrainedForGood(p, later[..n]);
      DrainedStep(RunFrom(p, later[..n]), later[n]);
    }
  }

  function RunFrom(p: Pool, actions: seq<Action>): (q: Pool)
    requires |p.workers| > 0
    ensures |q.workers| == |p.workers|
  {
    if actions == [] then p
    else Step(RunFrom(p, actions[..|actions| - 1]), actions[|actions| - 1])
  }

  lemma DrainedStep(p: Pool, a: Action)
    requires Inv(p) && p.table == [] && a != SpawnOutside
    ensures Inv(Step(p, a)) && Step(p, a).table == []
  {
    StepKeepsInv(p, a);
    if a.SpawnOn? && a.w < |p.workers| { assert Attended(p, a.w); }
  }

  // ---- Fibers that no worker will run ----

  /** The worker that fiber f is pinned to has left its loop. */
  ghost predicate Orphaned(p: Pool, f: FiberId) {
    f in p.pin && p.pin[f] < |p.workers| && p.workers[p.pin[f]].Exited?
  }

  ghost predicate SomeAbandoned(p: Pool) {
    exists f :: f in p.table && Orphaned(p, f)
  }

  /** A spawn whose turn it is to pin to a worker that has left. */
  predicate LateSpawn(p: Pool, a: Action)
    requires |p.workers| > 0
  {
    && (match a
        case SpawnOutside => !p.main.Closed?
        case SpawnOn(w) => w < |p.workers| && p.workers[w].Executing?
        case _ => false)
    && p.workers[p.nextWorker % |p.workers|].Exited?
  }

  lemma SweepAbandons(p: Pool, w: nat)
    requires Inv(p) && w < |p.workers| && p.workers[w].Looping?
    ensures SomeAbandoned(Sweep(p, w)) <==> SomeAbandoned(p)
  {
    ReapSplits(p.table, p.co, p.pin, w, 0);
    var q := Sweep(p, w);
    if SomeAbandoned(p) {
      var f :| f in p.table && Orphaned(p, f);
      assert f in q.table && Orphaned(q, f);
    }
    if SomeAbandoned(q) {
      var f :| f in q.table && Orphaned(q, f);
      assert f in p.table && Orphaned(p, f);
    }
  }

  lemma SpawnAbandons(p: Pool)
    requires Inv(p)
    ensures Orphaned(Spawn(p), p.nextId) <==> p.workers[p.nextWorker % |p.workers|].Exited?
    ensures SomeAbandoned(Spawn(p)) <==> SomeAbandoned(p) || p.workers[p.nextWorker % |p.workers|].Exited?
  {
    var q := Spawn(p);
    if SomeAbandoned(p) {
      var f :| f in p.table && Orphaned(p, f);
      assert f in q.table && Orphaned(q, f);
    }
    if p.workers[p.nextWorker % |p.workers|].Exited? { assert p.nextId in q.table && Orphaned(q, p.nextId); }
    if SomeAbandoned(q) {
      var f :| f in q.table && Orphaned(q, f);
      if f != p.nextId { assert f in p.table && Orphaned(p, f); }
    }
  }

  lemma StepAbandons(p: Pool, a: Action)
    requires Inv(p) && !Step(p, a).main.Closed?
    ensures SomeAbandoned(Step(p, a)) <==> SomeAbandoned(p) || LateSpawn(p, a)
  {
    match a
    case SweepBy(w) => if w < |p.workers| && p.workers[w].Looping? { SweepAbandons(p, w); }
    case SpawnOn(w) => if w < |p.workers| && p.workers[w].Executing? { SpawnAbandons(p); }
    case SpawnOutside => SpawnAbandons(p);
    case _ =>
      var q := Step(p, a);
      assert forall f :: Orphaned(q, f) <==> Orphaned(p, f);
  }

  ghost predicate LateAt(n: nat, pending: nat, actions: seq<Action>, i: nat)
    requires n > 0 && i < |actions|
  {
    LateSpawn(Run(n, pending, actions[..i]), actions[i])
  }

  ghost predicate SomeLateSpawn(n: nat, pending: nat, actions: seq<Action>)
    requires n > 0
  {
    exists i :: 0 <= i < |actions| && LateAt(n, pending, actions, i)
  }

  lemma LateInPart(n: nat, pending: nat, actions: seq<Action>, k: nat, i: nat)
    requires n > 0 && i < k <= |actions|
    ensures LateAt(n, pending, actions[..k], i) <==> LateAt(n, pending, actions, i)
  {
    assert actions[..k][..i] == actions[..i];
  }

  lemma LateSpawnSnoc(n: nat, pending: nat, actions: seq<Action>)
    requires n > 0 && actions != []
    ensures var k := |actions| - 1;
            SomeLateSpawn(n, pending, actions) <==>
            SomeLateSpawn(n, pending, actions[..k]) || LateAt(n, pending, actions, k)
  {
    var k := |actions| - 1;
    forall i | 0 <= i < k ensures LateAt(n, pending, actions[..k], i) <==> LateAt(n, pending, actions, i) {
      LateInPart(n, pending, actions, k, i);
    }
  }

  /** Until the pool is shut down, a fiber belongs to a worker that has left if and only if some spawn
      came when its turn was that of a worker that had left. */
  lemma {:induction false} AbandonedExactly(n: nat, pending: nat, actions: seq<Action>)
    requires n > 0 && !Run(n, pending, actions).main.Closed?
    ensures SomeAbandoned(Run(n, pending, actions)) <==> SomeLateSpawn(n, pending, actions)
  {
    if actions == [] {
      assert forall f :: !Orphaned(Init(n, pending), f);
    } else {
      var k := |actions| - 1;
      RunKeepsInv(n, pending, actions[..k]);
      StepAbandons(Run(n, pending, actions[..k]), actions[k]);
      AbandonedExactly(n, pending, actions[..k]);
      LateSpawnSnoc(n, pending, actions);
    }
  }

  lemma StaysOrphaned(p: Pool, a: Action, f: FiberId)
    requires Inv(p) && Orphaned(p, f)
    ensures Orphaned(Step(p, a), f)
    ensures var q := Step(p, a);
            q.resumptions == p.resumptions ||
            (|q.resumptions| == |p.resumptions| + 1 && q.resumptions[..|p.resumptions|] == p.resumptions &&
             q.resumptions[|p.resumptions|].f != f)
  {
    if a.ResumeBy? && a.w < |p.workers| { assert Attended(p, a.w); }
  }

  /** Such a fiber is never resumed again. */
  lemma {:induction false} AbandonedNeverRuns(p: Pool, later: seq<Action>, f: FiberId)
    requires Inv(p) && Orphaned(p, f)
    ensures var q := RunFrom(p, later);
            && Inv(q) && Orphaned(q, f) && |p.resumptions| <= |q.resumptions|
            && forall i :: |p.resumptions| <= i < |q.resumptions| ==> q.resumptions[i].f != f
  {
    if later != [] {
      var k := |later| - 1;
      AbandonedNeverRuns(p, later[..k], f);
      StepKeepsInv(RunFrom(p, later[..k]), later[k]);
      StaysOrphaned(RunFrom(p, later[..k]), later[k], f);
    }
  }

  /** The locked section of cy_sched_shutdown runs only when every worker has left, also when it found
      the flag set and joined none; what it destroys is not running, and belongs to workers that left. */
  lemma ShutdownDestroysOnlyAbandoned(n: nat, pending: nat, actions: seq<Action>)
    requires n > 0
    ensures var p := Run(n, pending, actions);
            p.main.Closing? && Step(p, FinishShutdown).main.Closed? ==>
              AllExited(p) && forall f :: f in p.table ==> Orphaned(p, f) && f in p.co && p.co[f] in {Suspended, Dead}
  {
    RunKeepsInv(n, pending, actions);
    var p := Run(n, pending, actions);
    if p.main.Closing? && Step(p, FinishShutdown).main.Closed? {
      forall f | f in p.table ensures Orphaned(p, f) && f in p.co && p.co[f] in {Suspended, Dead} {
        assert RunsAtHome(p, f);
      }
    }
  }

  // ---- A use that abandons nothing ----

  /** From the load of `outstanding` that reads 0 on, every fiber is finished and reaped. */
  ghost predicate Quiet(p: Pool) {
    p.stop || p.main.SawZero? ==> p.table == []
  }

  /** One action of a client that spawns from outside only before the load that reads 0, and shuts down
      only after cy_sched_run or with no fiber left. */
  predicate Considerate(p: Pool, a: Action) {
    match a
    case SpawnOutside => !p.stop && !p.main.SawZero?
    case BeginShutdown => p.stop || p.outstanding == 0
    case _ => true
  }

  ghost predicate AllConsiderate(n: nat, pending: nat, actions: seq<Action>)
    requires n > 0
  {
    forall i :: 0 <= i < |actions| ==> Considerate(Run(n, pending, actions[..i]), actions[i])
  }

  lemma StaysQuiet(p: Pool, a: Action)
    requires Inv(p) && Quiet(p) && Considerate(p, a)
    ensures Quiet(Step(p, a))
  {
    if p.stop || p.main.SawZero? { DrainedStep(p, a); }
  }

  /** Such a client sees no fiber left when the flag is set, so no worker that leaves its loop ever owns a
      fiber, and the shutdown destroys nothing. */
  lemma {:induction false} NothingAbandoned(n: nat, pending: nat, actions: seq<Action>)
    requires n > 0 && AllConsiderate(n, pending, actions)
    ensures Quiet(Run(n, pending, actions)) && !SomeAbandoned(Run(n, pending, actions))
  {
    RunKeepsInv(n, pending, actions);
    if actions == [] {
    } else {
      var k := |actions| - 1;
      assert AllConsiderate(n, pending, actions[..k]) by {
        assert forall i :: 0 <= i < k ==> actions[..k][..i] == actions[..i];
      }
      NothingAbandoned(n, pending, actions[..k]);
      RunKeepsInv(n, pending, actions[..k]);
      StaysQuiet(Run(n, pending, actions[..k]), actions[k]);
    }
    OrphansNeedStop(Run(n, pending, actions));
  }

  lemma OrphansNeedStop(p: Pool)
    requires Inv(p) && Quiet(p)
    ensures !SomeAbandoned(p)
  {
    forall w | 0 <= w < |p.workers| ensures p.workers[w].Exited? ==> p.table == [] { assert Attended(p, w); }
  }

  /** Without the first proviso it is false, also when nothing is spawned from outside after the flag is
      set: a fiber spawned between the load of 0 and the store of the flag spawns one whose turn is that
      of a worker that has left. */
  lemma SpawnBetweenLoadAndStore()
    ensures var before := [ReadOutstanding] + [SpawnOutside];
            var after := [SetStop] + [SweepBy(1)] + [SweepBy(0)] + [ResumeBy(0)] + [SpawnOn(0)];
            var p := Run(2, 0, before + after);
            !Run(2, 0, before).stop && SpawnOutside !in after && p.stop && p.table == [0, 1] && Orphaned(p, 1)
  {
    var before := [ReadOutstanding] + [SpawnOutside];
    SpawnedBeforeStore();
    var s3, s4 := before + [SetStop], before + [SetStop] + [SweepBy(1)];
    StoreStop(before);
    SweepLone(s3, 1, [Looping(0), Looping(0)]);
    SweepLone(s4, 0, [Looping(0), Exited]);
    LateChild(s4 + [SweepBy(0)]);
    var after := [SetStop] + [SweepBy(1)] + [SweepBy(0)] + [ResumeBy(0)] + [SpawnOn(0)];
    assert before + after == s4 + [SweepBy(0)] + [ResumeBy(0)] + [SpawnOn(0)];
  }

  /** A pool of two workers with one suspended fiber, pinned to worker 0. */
  ghost predicate Lone(p: Pool, workers: seq<Worker>) {
    && p.table == [0] && p.workers == workers && p.co == map[0 := Suspended] && p.pin == map[0 := 0]
    && p.nextWorker == 1 && p.nextId == 1
  }

  lemma SpawnedBeforeStore()
    ensures var p := Run(2, 0, [ReadOutstanding] + [SpawnOutside]);
            !p.stop && p.main == SawZero && Lone(p, [Looping(0), Looping(0)])
  {
    RunSnoc(2, 0, [ReadOutstanding], SpawnOutside);
    RunSnoc(2, 0, [], ReadOutstanding);
    assert [] + [ReadOutstanding] == [ReadOutstanding];
  }

  lemma StoreStop(s: seq<Action>)
    requires var p := Run(2, 0, s); p.main == SawZero && Lone(p, [Looping(0), Looping(0)])
    ensures var p := Run(2, 0, s + [SetStop]); p.stop && Lone(p, [Looping(0), Looping(0)])
  {
    RunSnoc(2, 0, s, SetStop);
  }

  lemma SweepLone(s: seq<Action>, w: nat, workers: seq<Worker>)
    requires Run(2, 0, s).stop && Lone(Run(2, 0, s), workers) && w < |workers| && workers[w] == Looping(0)
    ensures var p := Run(2, 0, s + [SweepBy(w)]);
            p.stop && Lone(p, workers[w := if w == 0 then Holding(1, 0) else Exited])
  {
    RunSnoc(2, 0, s, SweepBy(w));
    SweepOne(Run(2, 0, s), w, 0);
  }

  lemma LateChild(s: seq<Action>)
    requires Run(2, 0, s).stop && Lone(Run(2, 0, s), [Holding(1, 0), Exited])
    ensures var p := Run(2, 0, s + [ResumeBy(0)] + [SpawnOn(0)]); p.stop && p.table == [0, 1] && Orphaned(p, 1)
  {
    RunSnoc(2, 0, s, ResumeBy(0));
    RunSnoc(2, 0, s + [ResumeBy(0)], SpawnOn(0));
  }

  /** The sweep of a worker while the table holds a single suspended fiber. */
  lemma SweepOne(p: Pool, w: nat, f: FiberId)
    requires w < |p.workers| && p.workers[w] == Looping(0) && p.stop
    requires p.table == [f] && f in p.pin && f in p.co && p.co[f] == Suspended
    ensures Step(p, SweepBy(w)) == p.(workers := p.workers[w := if Mine(p.pin, w, f) then Holding(1, f) else Exited])
  {
    assert Reap(p.table, p.co, p.pin, w, 0) == Reap(p.table, p.co, p.pin, w, 1) == ([f], []);
    assert (0 + 0) % 1 == 0;
    assert PickFrom(p.table, p.co, p.pin, w, 0, 1) == None;
    assert p.reaped + [] == p.reaped && Destroy(p.co, []) == p.co;
  }

  /** A fiber spawned from outside after the flag was set can be pinned to a worker that has left. */
  lemma LateOutsideSpawnIsAbandoned()
    ensures var p := Run(1, 0, [ReadOutstanding] + [SetStop] + [SweepBy(0)] + [SpawnOutside]);
            p.table == [0] && Orphaned(p, 0)
  {
    RunSnoc(1, 0, [], ReadOutstanding);
    assert [] + [ReadOutstanding] == [ReadOutstanding];
    RunSnoc(1, 0, [ReadOutstanding], SetStop);
    RunSnoc(1, 0, [ReadOutstanding] + [SetStop], SweepBy(0));
    RunSnoc(1, 0, [ReadOutstanding] + [SetStop] + [SweepBy(0)], SpawnOutside);
    var p2 := Run(1, 0, [ReadOutstanding] + [SetStop]);
    assert p2.stop && p2.workers == [Looping(0)] && p2.table == [] && p2.main == Joining;
    ExitWhenStopped(p2);
  }

  lemma ExitWhenStopped(p: Pool)
    requires p.stop && p.workers == [Looping(0)] && p.table == []
    ensures Step(p, SweepBy(0)) == p.(workers := [Exited])
  {
    assert p.reaped + [] == p.reaped;
  }

  lemma RunSnoc(n: nat, pending: nat, actions: seq<Action>, a: Action)
    requires n > 0
    ensures Run(n, pending, actions + [a]) == Step(Run(n, pending, actions), a)
  {
    assert (actions + [a])[..|actions|] == actions;
  }
}
