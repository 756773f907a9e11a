/** The critical section of cy_worker_main (include/cyfiber.h): under the lock a worker picks its
    next suspended fiber round-robin, reaps its dead fibers by swap-with-last, and asks whether it
    still owns any.  The functions say what each loop computes; the class runs the loops. */
module FiberTable {
  import opened Modular
  import opened Prelude

  /** Life of a coroutine. */
  datatype Co = Suspended | Running | Dead | Destroyed

  type FiberId = nat
  type CoMap = map<FiberId, Co>
  type PinMap = map<FiberId, nat>

  ghost predicate NoDuplicates<T>(s: seq<T>) {
    forall i, j :: 0 <= i < j < |s| ==> s[i] != s[j]
  }

  predicate Mine(pin: PinMap, w: nat, f: FiberId) {
    f in pin && pin[f] == w
  }

  predicate Ready(co: CoMap, pin: PinMap, w: nat, f: FiberId) {
    Mine(pin, w, f) && f in co && co[f] == Suspended
  }

  predicate Reapable(co: CoMap, pin: PinMap, w: nat, f: FiberId) {
    Mine(pin, w, f) && f in co && co[f] == Dead
  }

  /** The pick loop from its k-th candidate on, starting at table position `start`. */
  function PickFrom(t: seq<FiberId>, co: CoMap, pin: PinMap, w: nat, start: nat, k: nat): (r: Option<nat>)
    requires start < |t| && k <= |t|
    ensures r.Some? ==> r.value < |t|
    decreases |t| - k
  {
    if k == |t| then None
    else
      var i := (start + k) % |t|;
      if Ready(co, pin, w, t[i]) then Some(i) else PickFrom(t, co, pin, w, start, k + 1)
  }

  /** What a worker with the given cursor picks: a table position and the new cursor. */
  function Pick(t: seq<FiberId>, co: CoMap, pin: PinMap, w: nat, cursor: nat): (r: (Option<nat>, nat))
    ensures r.0.Some? ==> r.0.value < |t|
  {
    if |t| == 0 then (None, cursor)
    else
      var start := if cursor >= |t| then 0 else cursor;
      var r := PickFrom(t, co, pin, w, start, 0);
      (r, if r.Some? then r.value + 1 else start)
  }

  lemma WrapOnce(start: nat, k: nat, n: nat)
    requires start < n && k < n
    ensures (start + k) % n == Wrap(start + k, n)
  {
    WrapIsMod(start + k, n);
  }

  /** The distance of table position i from `start`, going round. */
  function Distance(start: nat, i: nat, n: nat): nat
    requires start < n && i < n
  {
    if start <= i then i - start else i + n - start
  }

  lemma {:induction false} PickFromMeans(t: seq<FiberId>, co: CoMap, pin: PinMap, w: nat, start: nat, k: nat)
    requires start < |t| && k <= |t|
    ensures match PickFrom(t, co, pin, w, start, k)
            case None => forall j :: 0 <= j < |t| && Distance(start, j, |t|) >= k ==> !Ready(co, pin, w, t[j])
            case Some(i) =>
              && i < |t| && Ready(co, pin, w, t[i]) && Distance(start, i, |t|) >= k
              && forall j :: 0 <= j < |t| && k <= Distance(start, j, |t|) < Distance(start, i, |t|) ==>
                   !Ready(co, pin, w, t[j])
    decreases |t| - k
  {
    if k < |t| {
      WrapOnce(start, k, |t|);
      PickFromMeans(t, co, pin, w, start, k + 1);
    }
  }

  /** Round robin: the picked fiber is ready and none nearer to the cursor is; nothing is picked only
      when no fiber of this worker is ready. */
  lemma PickMeans(t: seq<FiberId>, co: CoMap, pin: PinMap, w: nat, cursor: nat)
    ensures match Pick(t, co, pin, w, cursor).0
            case None => forall f :: f in t ==> !Ready(co, pin, w, f)
            case Some(i) =>
              var start := if cursor >= |t| then 0 else cursor;
              && i < |t| && Ready(co, pin, w, t[i])
              && forall j :: 0 <= j < |t| && Distance(start, j, |t|) < Distance(start, i, |t|) ==>
                   !Ready(co, pin, w, t[j])
  {
    if |t| > 0 { PickFromMeans(t, co, pin, w, if cursor >= |t| then 0 else cursor, 0); }
  }

  /** The reap loop from position i: a reapable fiber is replaced by the last one and looked at again. */
  function Reap(t: seq<FiberId>, co: CoMap, pin: PinMap, w: nat, i: nat): (r: (seq<FiberId>, seq<FiberId>))
    requires i <= |t|
    decreases |t| - i
  {
    if i == |t| then (t, [])
    else if Reapable(co, pin, w, t[i]) then
      var (rest, reaped) := Reap(t[i := t[|t| - 1]][..|t| - 1], co, pin, w, i);
      (rest, [t[i]] + reaped)
    else Reap(t, co, pin, w, i + 1)
  }

  /** Reaping splits the table: the reapable fibers leave it, each once, and all others stay. */
  lemma {:induction false} ReapSplits(t: seq<FiberId>, co: CoMap, pin: PinMap, w: nat, i: nat)
    requires i <= |t| && NoDuplicates(t)
    requires forall j :: 0 <= j < i ==> !Reapable(co, pin, w, t[j])
    ensures var (rest, reaped) := Reap(t, co, pin, w, i);
            && NoDuplicates(rest) && NoDuplicates(reaped)
            && |rest| + |reaped| == |t|
            && (forall f :: f in rest <==> f in t && !Reapable(co, pin, w, f))
            && (forall f :: f in reaped <==> f in t && Reapable(co, pin, w, f))
    decreases |t| - i
  {
    if i == |t| {
    } else if Reapable(co, pin, w, t[i]) {
      var n := |t| - 1;
      var t' := t[i := t[n]][..n];
      forall f ensures f in t' <==> f in t && f != t[i] {
        if f in t && f != t[i] {
          var j :| 0 <= j < |t| && t[j] == f;
          assert t'[if j == n then i else j] == f;
        }
      }
      ReapSplits(t', co, pin, w, i);
    } else {
      ReapSplits(t, co, pin, w, i + 1);
    }
  }

  class Scheduler {
    var table: seq<FiberId>
    var co: CoMap
    var pin: PinMap
    var outstanding: int
    var reaped: seq<FiberId>

    /** cy_fiber_reap_locked: destroy the coroutine, move the last table entry into its place. */
    method ReapAt(i: nat)
      requires i < |table|
      modifies `table, `co, `outstanding, `reaped
      ensures table == old(table)[i := old(table)[|old(table)| - 1]][..|old(table)| - 1]
      ensures co == old(co)[old(table)[i] := Destroyed]
      ensures outstanding == old(outstanding) - 1
      ensures reaped == old(reaped) + [old(table)[i]]
    {
      co := co[table[i] := Destroyed];
      reaped := reaped + [table[i]];
      var n := |table| - 1;
      table := table[i := table[n]][..n];
      outstanding := outstanding - 1;
    }

    /** cy_worker_has_fibers_locked. */
    method HasFibers(w: nat) returns (b: bool)
      ensures b <==> exists i :: 0 <= i < |table| && Mine(pin, w, table[i])
    {
      var i := 0;
      while i < |table|
        invariant i <= |table|
        invariant forall j :: 0 <= j < i ==> !Mine(pin, w, table[j])
      {
        if Mine(pin, w, table[i]) { return true; }
        i := i + 1;
      }
      return false;
    }

    /** The pick loop, with the cursor reset before it and advanced past the picked entry. */
    method PickNext(w: nat, cursor: nat) returns (picked: Option<FiberId>, next: nat)
      ensures var (i, c) := Pick(table, co, pin, w, cursor);
              next == c && picked == if i.Some? then Some(table[i.value]) else None
    {
      var n := |table|;
      picked, next := None, cursor;
      if n > 0 {
        if next >= n { next := 0; }
        var start := next;
        var k := 0;
        while k < n
          invariant k <= n && next == start
          invariant PickFrom(table, co, pin, w, start, 0) == PickFrom(table, co, pin, w, start, k)
        {
          var i := (start + k) % n;
          if Mine(pin, w, table[i]) && table[i] in co && co[table[i]] == Suspended {
            return Some(table[i]), i + 1;
          }
          k := k + 1;
        }
      }
    }

    /** The reap loop. */
    method ReapMine(w: nat)
      requires NoDuplicates(table)
      modifies `table, `co, `outstanding, `reaped
      ensures (table, reaped) ==
              (Reap(old(table), old(co), pin, w, 0).0, old(reaped) + Reap(old(table), old(co), pin, w, 0).1)
      ensures co == Destroy(old(co), Reap(old(table), old(co), pin, w, 0).1)
      ensures outstanding - |table| == old(outstanding) - |old(table)|
    {
      ghost var co0, reaped0, all := co, reaped, Reap(table, co, pin, w, 0);
      ghost var done: seq<FiberId> := [];
      var i := 0;
      assert done + all.1 == all.1;
      while i < |table|
        invariant i <= |table| && NoDuplicates(table)
        invariant all == (Reap(table, co0, pin, w, i).0, done + Reap(table, co0, pin, w, i).1)
        invariant reaped == reaped0 + done && co == Destroy(co0, done)
        invariant forall f :: f in table ==> f !in done
        invariant outstanding - |table| == old(outstanding) - |old(table)|
        decreases |table| - i
      {
        var f := table[i];
        DestroyLookup(co0, done, f);
        if Mine(pin, w, f) && f in co && co[f] == Dead {
          ghost var t := table;
          ReapAt(i);
          DestroyAppend(co0, done, f);
          assert done + ([f] + Reap(table, co0, pin, w, i).1) == (done + [f]) + Reap(table, co0, pin, w, i).1;
          done := done + [f];
          assert reaped == reaped0 + done;
          assert forall g :: g in table ==> g in t && g != f;
        } else {
          i := i + 1;
        }
      }
      assert done + [] == done;
    }

    /** The whole critical section: pick, reap, then decide whether the worker may exit. */
    method Sweep(w: nat, cursor: nat, stop: bool) returns (picked: Option<FiberId>, next: nat, exit: bool)
      requires NoDuplicates(table)
      modifies `table, `co, `outstanding, `reaped
      ensures var (i, c) := Pick(old(table), old(co), pin, w, cursor);
              next == c && picked == if i.Some? then Some(old(table)[i.value]) else None
      ensures var (rest, gone) := Reap(old(table), old(co), pin, w, 0);
              table == rest && reaped == old(reaped) + gone && co == Destroy(old(co), gone)
      ensures outstanding - |table| == old(outstanding) - |old(table)|
      ensures exit <==> stop && forall f :: f in table ==> !Mine(pin, w, f)
    {
      picked, next := PickNext(w, cursor);
      ReapMine(w);
      var has := HasFibers(w);
      exit := stop && !has;
    }
  }

  /** The coroutine states after destroying the given fibers. */
  function Destroy(co: CoMap, fs: seq<FiberId>): CoMap {
    if fs == [] then co
    else Destroy(co, fs[..|fs| - 1])[fs[|fs| - 1] := Destroyed]
  }

  lemma {:induction false} DestroyLookup(co: CoMap, fs: seq<FiberId>, f: FiberId)
    ensures f !in fs ==> (f in Destroy(co, fs) <==> f in co) && (f in co ==> Destroy(co, fs)[f] == co[f])
    ensures f in fs ==> f in Destroy(co, fs) && Destroy(co, fs)[f] == Destroyed
  {
    if fs != [] {
      var n := |fs| - 1;
      assert f in fs <==> f in fs[..n] || f == fs[n];
      DestroyLookup(co, fs[..n], f);
    }
  }

  lemma DestroyAppend(co: CoMap, fs: seq<FiberId>, f: FiberId)
    ensures Destroy(co, fs + [f]) == Destroy(co, fs)[f := Destroyed]
  {
    assert (fs + [f])[..|fs|] == fs;
  }
}
