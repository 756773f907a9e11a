/** The life of each fiber over the runs of the worker pool: the worker it belongs to, whether it has returned,
    and when its worker leaves. */
module FiberLives {
  import opened Prelude
  import opened FiberTable
  import opened WorkerPool

  /** Fibers spawned before the workers were started are dealt out in turn, and so are those spawned after,
      from worker 0 again. */
  ghost predicate DealtOut(p: Pool, n: nat, pending: nat, f: FiberId)
    requires n > 0
  {
    f < p.nextId ==> f in p.pin && p.pin[f] == if f < pending then f % n else (f - pending) % n
  }

  lemma {:induction false} StartDealtOut(n: nat, pending: nat)
    requires n > 0
    ensures var p := Init(n, pending);
            && p.nextId == pending && p.nextWorker == 0
            && (forall f :: DealtOut(p, n, pending, f))
            && |p.table| == pending && (forall i :: 0 <= i < pending ==> p.table[i] == i)
            && (forall f: FiberId :: f < pending ==> f in p.co && p.co[f] == Suspended)
  {
    if pending > 0 {
      StartDealtOut(n, pending - 1);
      var before, p := Init(n, pending - 1), Init(n, pending);
      forall f ensures DealtOut(p, n, pending, f) { assert DealtOut(before, n, pending - 1, f); }
    }
  }

  lemma StepDealsOut(p: Pool, n: nat, pending: nat, a: Action)
    requires Inv(p) && n == |p.workers| && p.nextId == pending + p.nextWorker
    requires forall f :: DealtOut(p, n, pending, f)
    ensures var q := Step(p, a); q.nextId == pending + q.nextWorker && forall f :: DealtOut(q, n, pending, f)
  {
    var q := Step(p, a);
    forall f ensures DealtOut(q, n, pending, f) { assert DealtOut(p, n, pending, f); }
  }

  /** Over all interleavings, the worker of a fiber is given by the number of fibers spawned before it. */
  lemma {:induction false} PinsAreRoundRobin(n: nat, pending: nat, actions: seq<Action>, f: FiberId)
    requires n > 0
    ensures var p := Run(n, pending, actions);
            && p.nextId == pending + p.nextWorker
            && (f in p.pin <==> f < p.nextId)
            && (f < p.nextId ==> p.pin[f] == if f < pending then f % n else (f - pending) % n)
  {
    AllDealtOut(n, pending, actions);
    RunKeepsInv(n, pending, actions);
    assert DealtOut(Run(n, pending, actions), n, pending, f);
  }

  lemma {:induction false} AllDealtOut(n: nat, pending: nat, actions: seq<Action>)
    requires n > 0
    ensures var p := Run(n, pending, actions);
            p.nextId == pending + p.nextWorker && forall f :: DealtOut(p, n, pending, f)
  {
    if actions == [] {
      StartDealtOut(n, pending);
    } else {
      var k := |actions| - 1;
      AllDealtOut(n, pending, actions[..k]);
      RunKeepsInv(n, pending, actions[..k]);
      StepDealsOut(Run(n, pending, actions[..k]), n, pending, actions[k]);
    }
  }

  // ---- The end of a fiber ----

  /** The action is the return of the entry function of fiber f. */
  predicate Returns(p: Pool, a: Action, f: FiberId) {
    a.FinishOn? && a.w < |p.workers| && p.workers[a.w].Executing? && p.workers[a.w].f == f
  }

  ghost predicate Ended(p: Pool, f: FiberId) {
    f in p.co && p.co[f] in {Dead, Destroyed}
  }

  lemma SweepEnds(p: Pool, w: nat, f: FiberId)
    requires Inv(p) && w < |p.workers| && p.workers[w].Looping?
    ensures Ended(Sweep(p, w), f) <==> Ended(p, f)
  {
    var (rest, gone) := Reap(p.table, p.co, p.pin, w, 0);
    ReapSplits(p.table, p.co, p.pin, w, 0);
    DestroyLookup(p.co, gone, f);
  }

  lemma StepEnds(p: Pool, a: Action, f: FiberId)
    requires Inv(p) && !Step(p, a).main.Closed?
    ensures Ended(Step(p, a), f) <==> Ended(p, f) || Returns(p, a, f)
  {
    match a
    case SweepBy(w) => if w < |p.workers| && p.workers[w].Looping? { SweepEnds(p, w, f); }
    case ResumeBy(w) => if w < |p.workers| { assert Attended(p, w); }
    case YieldOn(w) => if w < |p.workers| { assert Attended(p, w); }
    case FinishOn(w) => if w < |p.workers| { assert Attended(p, w); }
    case _ =>
  }

  ghost predicate ReturnsAt(n: nat, pending: nat, actions: seq<Action>, i: nat, f: FiberId)
    requires n > 0 && i < |actions|
  {
    Returns(Run(n, pending, actions[..i]), actions[i], f)
  }

  ghost predicate SomeReturn(n: nat, pending: nat, actions: seq<Action>, f: FiberId)
    requires n > 0
  {
    exists i :: 0 <= i < |actions| && ReturnsAt(n, pending, actions, i, f)
  }

  lemma SomeReturnSnoc(n: nat, pending: nat, actions: seq<Action>, f: FiberId)
    requires n > 0 && actions != []
    ensures var k := |actions| - 1;
            SomeReturn(n, pending, actions, f) <==>
            SomeReturn(n, pending, actions[..k], f) || ReturnsAt(n, pending, actions, k, f)
  {
    var k := |actions| - 1;
    forall i | 0 <= i < k
      ensures ReturnsAt(n, pending, actions[..k], i, f) <==> ReturnsAt(n, pending, actions, i, f)
    {
      assert actions[..k][..i] == actions[..i];
    }
  }

  /** Until the pool is shut down, a coroutine is dead or destroyed exactly when its entry function returned:
      no sweep takes out a fiber that has work left. */
  lemma {:induction false} EndedMeansReturned(n: nat, pending: nat, actions: seq<Action>, f: FiberId)
    requires n > 0 && !Run(n, pending, actions).main.Closed?
    ensures Ended(Run(n, pending, actions), f) <==> SomeReturn(n, pending, actions, f)
  {
    if actions == [] {
      StartDealtOut(n, pending);
      RunKeepsInv(n, pending, actions);
    } else {
      var k := |actions| - 1;
      RunKeepsInv(n, pending, actions[..k]);
      StepEnds(Run(n, pending, actions[..k]), actions[k], f);
      EndedMeansReturned(n, pending, actions[..k], f);
      SomeReturnSnoc(n, pending, actions, f);
    }
  }

  /** What a sweep of worker w does: a dead fiber of its own is destroyed and leaves the table, every other fiber
      stays; it goes on to resume a suspended fiber of its own if it has one, and leaves exactly when the flag is
      set and all its fibers were dead. */
  lemma SweepDecides(p: Pool, w: nat)
    requires Inv(p) && w < |p.workers| && p.workers[w].Looping?
    ensures var q := Step(p, SweepBy(w));
            && (forall f :: f in q.table <==> f in p.table && !(p.pin[f] == w && p.co[f] == Dead))
            && (q.workers[w].Exited? <==>
                p.stop && forall f :: f in p.table && p.pin[f] == w ==> p.co[f] == Dead)
            && (q.workers[w].Holding? <==>
                exists f :: f in p.table && p.pin[f] == w && p.co[f] == Suspended)
  {
    ReapSplits(p.table, p.co, p.pin, w, 0);
    PickMeans(p.table, p.co, p.pin, w, p.workers[w].cursor);
    var q := Step(p, SweepBy(w));
    var (i, next) := Pick(p.table, p.co, p.pin, w, p.workers[w].cursor);
    if i.Some? {
      var f := p.table[i.value];
      assert f in p.table && Ready(p.co, p.pin, w, f) && f in q.table && Mine(p.pin, w, f);
    }
  }

  // ---- What the other steps bring about ----

  /** Only worker w, its fiber and the log of resumptions may differ, and the fiber is in the given state. */
  ghost predicate OnlySwitched(p: Pool, q: Pool, w: nat, worker: Worker, f: FiberId, state: Co)
    requires |p.workers| == |q.workers| && w < |p.workers|
  {
    && q == p.(co := q.co, workers := p.workers[w := worker], resumptions := q.resumptions)
    && f in q.co && q.co[f] == state && (forall g :: g != f ==> (g in q.co <==> g in p.co))
    && (forall g :: g != f && g in p.co ==> q.co[g] == p.co[g])
  }

  /** The fiber that a worker picked runs until it yields, and is then suspended again, or returns, and is dead; the
      worker then goes back to its loop, its cursor as it was. */
  lemma SwitchOutcome(n: nat, pending: nat, actions: seq<Action>, w: nat)
    requires w < n && (Run(n, pending, actions).workers[w].Holding? || Run(n, pending, actions).workers[w].Executing?)
    ensures var p := Run(n, pending, actions); var worker := p.workers[w]; var f := worker.f;
            if worker.Holding? then
              var q := Run(n, pending, actions + [ResumeBy(w)]);
              OnlySwitched(p, q, w, Executing(worker.cursor, f), f, Running)
              && q.resumptions == p.resumptions + [Resumption(w, f, Suspended)]
            else
              var y, d := Run(n, pending, actions + [YieldOn(w)]), Run(n, pending, actions + [FinishOn(w)]);
              OnlySwitched(p, y, w, Looping(worker.cursor), f, Suspended) && y.resumptions == p.resumptions
              && OnlySwitched(p, d, w, Looping(worker.cursor), f, Dead) && d.resumptions == p.resumptions
  {
    RunKeepsInv(n, pending, actions);
    assert Attended(Run(n, pending, actions), w);
    RunSnoc(n, pending, actions, ResumeBy(w));
    RunSnoc(n, pending, actions, YieldOn(w));
    RunSnoc(n, pending, actions, FinishOn(w));
  }

  /** What the main thread comes to: cy_sched_run waits until no fiber is outstanding, sets the flag, and returns when
      every worker has left; cy_sched_shutdown sets the flag, waits for the workers only if it was not set, and
      destroys what is left in the table. */
  lemma MainOutcome(n: nat, pending: nat, actions: seq<Action>, a: Action)
    requires n > 0
    ensures var p, q := Run(n, pending, actions), Run(n, pending, actions + [a]);
            match a
            case ReadOutstanding => q == if p.main.Idle? && p.table == [] then p.(main := SawZero) else p
            case SetStop => q == if p.main.SawZero? then p.(main := Joining, stop := true) else p
            case JoinAll =>
              q == if p.main.Joining? && (forall w :: 0 <= w < n ==> p.workers[w].Exited?) then p.(main := Idle) else p
            case BeginShutdown => q == if p.main.Idle? then p.(main := Closing(!p.stop), stop := true) else p
            case FinishShutdown =>
              if p.main.Closing? && (forall w :: 0 <= w < n ==> p.workers[w].Exited?) then
                q == p.(main := Closed, table := [], outstanding := 0, co := q.co, reaped := p.reaped + p.table)
                && forall f :: f in p.table ==> f in q.co && q.co[f] == Destroyed
              else q == p
            case _ => true
  {
    RunKeepsInv(n, pending, actions);
    RunSnoc(n, pending, actions, a);
    var p, q := Run(n, pending, actions), Run(n, pending, actions + [a]);
    if a.FinishShutdown? && p.main.Closing? && AllExited(p) {
      forall f | f in p.table ensures f in q.co && q.co[f] == Destroyed { DestroyLookup(p.co, p.table, f); }
    }
  }

  /** A spawn adds a suspended fiber at the end of the table, unless the pool is gone or the fiber that spawns is not
      running. */
  lemma SpawnOutcome(n: nat, pending: nat, actions: seq<Action>, a: Action)
    requires n > 0 && (a.SpawnOutside? || (a.SpawnOn? && a.w < n))
    ensures var p, q := Run(n, pending, actions), Run(n, pending, actions + [a]);
            if (if a.SpawnOutside? then p.main.Closed? else !p.workers[a.w].Executing?) then q == p
            else
              q.table == p.table + [p.nextId] && p.nextId !in p.table && q.nextId == p.nextId + 1
              && q == p.(table := q.table, co := q.co, pin := q.pin, outstanding := |q.table|, nextId := q.nextId,
                         nextWorker := q.nextWorker)
              && p.nextId in q.co && q.co[p.nextId] == Suspended
              && forall f :: f in p.co ==> f in q.co && q.co[f] == p.co[f]
  {
    RunKeepsInv(n, pending, actions);
    RunSnoc(n, pending, actions, a);
  }
}
