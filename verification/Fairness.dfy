/** Round robin is fair: once no fiber is spawned any more, a suspended fiber is picked within a bounded
    number of its worker's sweeps, although reaping moves the last table entry below the cursor.  Such a
    move costs the fiber at most another round of a table that has become smaller. */
module Fairness {
  import opened Prelude
  import opened FiberTable
  import opened WorkerPool

  /** Where f is in the table. */
  ghost function Place(t: seq<FiberId>, f: FiberId): (i: nat)
    requires f in t
    ensures i < |t| && t[i] == f
  {
    var i :| 0 <= i < |t| && t[i] == f;
    i
  }

  /** 1 + 2 + ... + n. */
  function Turns(n: nat): nat {
    if n == 0 then 0 else Turns(n - 1) + n
  }

  lemma {:induction false} TurnsClosedForm(n: nat)
    ensures 2 * Turns(n) == n * (n + 1)
  {
    if n > 0 { TurnsClosedForm(n - 1); }
  }

  lemma {:induction false} TurnsMonotone(a: nat, b: nat)
    requires a <= b
    ensures Turns(a) <= Turns(b)
  {
    if a < b { TurnsMonotone(a, b - 1); }
  }

  function Start(cursor: nat, n: nat): nat {
    if cursor >= n then 0 else cursor
  }

  /** A bound for the sweeps that can pass over f: one for each entry between the cursor and f, and a round
      for each smaller size that the table can still shrink to. */
  ghost function Rank(t: seq<FiberId>, cursor: nat, f: FiberId): (r: nat)
    requires f in t
  {
    Turns(|t| - 1) + Distance(Start(cursor, |t|), Place(t, f), |t|)
  }

  lemma RankBound(t: seq<FiberId>, cursor: nat, f: FiberId)
    requires f in t
    ensures Rank(t, cursor, f) < Turns(|t|)
  {
  }

  /** Every rank in a smaller table is lower. */
  lemma SmallerTable(t: seq<FiberId>, cursor: nat, t': seq<FiberId>, cursor': nat, f: FiberId)
    requires f in t && f in t' && |t'| < |t|
    ensures Rank(t', cursor', f) < Rank(t, cursor, f)
  {
    RankBound(t', cursor', f);
    TurnsMonotone(|t'|, |t| - 1);
  }

  lemma {:induction false} ReapNothing(t: seq<FiberId>, co: CoMap, pin: PinMap, w: nat, i: nat)
    requires i <= |t|
    ensures |Reap(t, co, pin, w, i).0| <= |t|
    ensures |Reap(t, co, pin, w, i).0| == |t| ==> Reap(t, co, pin, w, i).0 == t
    decreases |t| - i
  {
    if i < |t| {
      if Reapable(co, pin, w, t[i]) { ReapNothing(t[i := t[|t| - 1]][..|t| - 1], co, pin, w, i); }
      else { ReapNothing(t, co, pin, w, i + 1); }
    }
  }

  /** The sweep's choice, when it is not f, lies before f on the round, and the cursor moves past it. */
  lemma PassedOver(t: seq<FiberId>, co: CoMap, pin: PinMap, w: nat, cursor: nat, f: FiberId)
    requires NoDuplicates(t) && f in t && Ready(co, pin, w, f)
    requires var (i, _) := Pick(t, co, pin, w, cursor); i.None? || t[i.value] != f
    ensures Rank(t, Pick(t, co, pin, w, cursor).1, f) < Rank(t, cursor, f)
  {
    PickMeans(t, co, pin, w, cursor);
    var (i, next) := Pick(t, co, pin, w, cursor);
    var p := Place(t, f);
    assert Distance(Start(cursor, |t|), i.value, |t|) < Distance(Start(cursor, |t|), p, |t|);
  }

  /** f is suspended, its worker has not left, and holds another fiber or none. */
  ghost predicate Waits(p: Pool, w: nat, f: FiberId) {
    && w < |p.workers| && !p.workers[w].Exited? && f in p.table && Ready(p.co, p.pin, w, f)
    && !Picked(p, w, f)
  }

  predicate Picked(p: Pool, w: nat, f: FiberId)
    requires w < |p.workers|
  {
    p.workers[w].Holding? && p.workers[w].f == f
  }

  ghost function RankOf(p: Pool, w: nat, f: FiberId): nat
    requires w < |p.workers| && !p.workers[w].Exited? && f in p.table
  {
    Rank(p.table, p.workers[w].cursor, f)
  }

  /** A sweep of worker w. */
  predicate Sweeps(p: Pool, w: nat, a: Action) {
    a == SweepBy(w) && w < |p.workers| && p.workers[w].Looping?
  }

  predicate Spawns(a: Action) {
    a.SpawnOn? || a.SpawnOutside?
  }

  lemma SweepKeepsWaiting(p: Pool, w: nat, f: FiberId, v: nat)
    requires Inv(p) && Waits(p, w, f) && v < |p.workers| && p.workers[v].Looping?
    ensures var q := Sweep(p, v);
            !Picked(q, w, f) ==>
              Waits(q, w, f) && |q.table| <= |p.table| && (|q.table| == |p.table| ==> q.table == p.table)
  {
    var (rest, gone) := Reap(p.table, p.co, p.pin, v, 0);
    ReapSplits(p.table, p.co, p.pin, v, 0);
    ReapNothing(p.table, p.co, p.pin, v, 0);
    DestroyLookup(p.co, gone, f);
  }

  lemma SweepRank(p: Pool, w: nat, f: FiberId, v: nat)
    requires Inv(p) && Waits(p, w, f) && v < |p.workers| && p.workers[v].Looping? && !Picked(Sweep(p, v), w, f)
    ensures Waits(Sweep(p, v), w, f)
    ensures RankOf(Sweep(p, v), w, f) + (if v == w then 1 else 0) <= RankOf(p, w, f)
  {
    var q := Sweep(p, v);
    SweepKeepsWaiting(p, w, f, v);
    if |q.table| < |p.table| {
      SmallerTable(p.table, p.workers[w].cursor, q.table, q.workers[w].cursor, f);
    } else if v == w {
      PassedOver(p.table, p.co, p.pin, w, p.workers[w].cursor, f);
    }
  }

  lemma OtherStepKeepsRank(p: Pool, w: nat, f: FiberId, a: Action)
    requires Inv(p) && Waits(p, w, f) && !Spawns(a) && !a.SweepBy?
    ensures Waits(Step(p, a), w, f) && RankOf(Step(p, a), w, f) == RankOf(p, w, f)
  {
    if (a.ResumeBy? || a.YieldOn? || a.FinishOn?) && a.w < |p.workers| {
      assert Attended(p, a.w) && Attended(p, w);
    }
    assert !AllExited(p);
  }

  lemma StepRank(p: Pool, w: nat, f: FiberId, a: Action)
    requires Inv(p) && Waits(p, w, f) && !Spawns(a) && !Picked(Step(p, a), w, f)
    ensures Waits(Step(p, a), w, f)
    ensures RankOf(Step(p, a), w, f) + (if Sweeps(p, w, a) then 1 else 0) <= RankOf(p, w, f)
  {
    if a.SweepBy? {
      if a.w < |p.workers| && p.workers[a.w].Looping? { SweepRank(p, w, f, a.w); }
    } else {
      OtherStepKeepsRank(p, w, f, a);
    }
  }

  /** The number of sweeps of worker w in a run from p. */
  function SweepCount(p: Pool, w: nat, later: seq<Action>): nat
    requires |p.workers| > 0
  {
    if later == [] then 0
    else
      var k := |later| - 1;
      SweepCount(p, w, later[..k]) + if Sweeps(RunFrom(p, later[..k]), w, later[k]) then 1 else 0
  }

  ghost predicate NeverPicked(p: Pool, w: nat, f: FiberId, later: seq<Action>)
    requires w < |p.workers|
  {
    forall k :: 0 <= k <= |later| ==> !Picked(RunFrom(p, later[..k]), w, f)
  }

  lemma {:induction false} WaitingRank(p: Pool, w: nat, f: FiberId, later: seq<Action>)
    requires Inv(p) && Waits(p, w, f) && NeverPicked(p, w, f, later)
    requires forall a :: a in later ==> !Spawns(a)
    ensures var q := RunFrom(p, later);
            Inv(q) && Waits(q, w, f) && RankOf(q, w, f) + SweepCount(p, w, later) <= RankOf(p, w, f)
  {
    if later != [] {
      var k := |later| - 1;
      assert NeverPicked(p, w, f, later[..k]) by {
        assert forall j :: 0 <= j <= k ==> later[..k][..j] == later[..j];
      }
      WaitingRank(p, w, f, later[..k]);
      assert later[..|later|] == later;
      StepKeepsInv(RunFrom(p, later[..k]), later[k]);
      StepRank(RunFrom(p, later[..k]), w, f, later[k]);
    }
  }

  /** Whatever the other workers do: a suspended fiber in a table of n is picked before its worker has swept
      n (n + 1) / 2 times, if no fiber is spawned meanwhile. */
  lemma PickedInTime(p: Pool, w: nat, f: FiberId, later: seq<Action>)
    requires Inv(p) && Waits(p, w, f) && (forall a :: a in later ==> !Spawns(a))
    requires 2 * SweepCount(p, w, later) >= |p.table| * (|p.table| + 1)
    ensures exists k :: 0 <= k <= |later| && Picked(RunFrom(p, later[..k]), w, f)
  {
    if NeverPicked(p, w, f, later) {
      WaitingRank(p, w, f, later);
      RankBound(p.table, p.workers[w].cursor, f);
      TurnsClosedForm(|p.table|);
    }
  }
}
