/** The object guards of include/cyexc.h: a fixed side table from addresses to LIVE or DEAD, with
    linear probing, and a FIFO quarantine of deleted blocks.  When the quarantine is full the oldest
    block is given back and its table entry cleared in mid-chain, which leaves holes and stale
    duplicate entries behind.

    `hash` is any function of the address; table and quarantine sizes are arbitrary. */
module ObjectGuard {
  import opened Modular

  datatype State = EMPTY | LIVE | DEAD
  datatype Slot = Slot(addr: nat, state: State)

  /** The slot table and the quarantine, oldest block first. */
  datatype Guard = Guard(tab: seq<Slot>, queue: seq<nat>)

  function At(tab: seq<Slot>, h: nat, n: nat): (i: nat)
    requires tab != []
    ensures i < |tab|
  {
    (h + n) % |tab|
  }

  predicate Stops(s: Slot, a: nat) {
    s.state == EMPTY || s.addr == a
  }

  /** cy__obj_find from its n-th probe on; a full table falls back to the home slot. */
  function FindFrom(tab: seq<Slot>, h: nat, a: nat, n: nat): (i: nat)
    requires tab != [] && n <= |tab|
    ensures i < |tab|
    decreases |tab| - n
  {
    if n == |tab| then At(tab, h, 0)
    else if Stops(tab[At(tab, h, n)], a) then At(tab, h, n)
    else FindFrom(tab, h, a, n + 1)
  }

  function Find(tab: seq<Slot>, hash: nat -> nat, a: nat): (i: nat)
    requires tab != []
    ensures i < |tab|
  {
    FindFrom(tab, hash(a), a, 0)
  }

  predicate IsDead(tab: seq<Slot>, hash: nat -> nat, a: nat)
    requires tab != []
  {
    var s := tab[Find(tab, hash, a)];
    s.state == DEAD && s.addr == a
  }

  /** cy_obj_track. */
  function AfterTrack(g: Guard, hash: nat -> nat, a: nat): Guard
    requires g.tab != []
  {
    if a == 0 then g else g.(tab := g.tab[Find(g.tab, hash, a) := Slot(a, LIVE)])
  }

  /** The eviction of the oldest quarantined block. */
  function Untrack(tab: seq<Slot>, hash: nat -> nat, a: nat): (r: seq<Slot>)
    requires tab != []
    ensures |r| == |tab|
  {
    var j := Find(tab, hash, a);
    if tab[j].addr == a then tab[j := tab[j].(state := EMPTY)] else tab
  }

  /** cy_obj_note_free, when it does not report. */
  function AfterFree(g: Guard, hash: nat -> nat, q: nat, a: nat): Guard
    requires g.tab != [] && q > 0
  {
    var tab := g.tab[Find(g.tab, hash, a) := Slot(a, DEAD)];
    if |g.queue| >= q then Guard(Untrack(tab, hash, g.queue[0]), g.queue[1..] + [a])
    else Guard(tab, g.queue + [a])
  }

  /** The blocks in a ring, oldest first. */
  function RingQueue(ring: seq<nat>, head: nat, count: nat): (r: seq<nat>)
    requires head < |ring| && count <= |ring|
    ensures |r| == count && forall k :: 0 <= k < count ==> r[k] == ring[Wrap(head + k, |ring|)]
  {
    seq(count, k requires 0 <= k < count => ring[Wrap(head + k, |ring|)])
  }

  lemma RingAppend(ring: seq<nat>, head: nat, count: nat, a: nat)
    requires head < |ring| && count < |ring|
    ensures RingQueue(ring[Wrap(head + count, |ring|) := a], head, count + 1) == RingQueue(ring, head, count) + [a]
  {
  }

  lemma RingReplace(ring: seq<nat>, head: nat, a: nat)
    requires head < |ring|
    ensures RingQueue(ring[head := a], Wrap(head + 1, |ring|), |ring|) == RingQueue(ring, head, |ring|)[1..] + [a]
  {
  }

  /** The guard as the static arrays of the source hold it: the quarantine is a ring. */
  class GuardTable {
    const hash: nat -> nat
    const tab: array<Slot>
    const quar: array<nat>
    var head: nat
    var count: nat

    ghost predicate Valid()
      reads this
    {
      tab.Length > 0 && quar.Length > 0 && head < quar.Length && count <= quar.Length
    }

    ghost function Queue(): seq<nat>
      requires Valid()
      reads this, quar
    {
      RingQueue(quar[..], head, count)
    }

    ghost function Value(): Guard
      requires Valid()
      reads this, tab, quar
    {
      Guard(tab[..], Queue())
    }

    constructor (tableSize: nat, quarantine: nat, hash: nat -> nat)
      requires tableSize > 0 && quarantine > 0
      ensures Valid() && fresh(tab) && fresh(quar) && this.hash == hash
      ensures tab.Length == tableSize && quar.Length == quarantine
      ensures Queue() == [] && forall i :: 0 <= i < tableSize ==> tab[i] == Slot(0, EMPTY)
    {
      this.hash := hash;
      tab := new Slot[tableSize](_ => Slot(0, EMPTY));
      quar := new nat[quarantine](_ => 0);
      head, count := 0, 0;
    }

    /** cy__obj_find. */
    method FindSlot(a: nat) returns (i: nat)
      requires Valid()
      ensures i == Find(tab[..], hash, a)
    {
      var h := hash(a);
      i := h % tab.Length;
      var n := 0;
      while n < tab.Length
        invariant n <= tab.Length && i == At(tab[..], h, n)
        invariant FindFrom(tab[..], h, a, 0) == FindFrom(tab[..], h, a, n)
      {
        if tab[i].state == EMPTY || tab[i].addr == a { return; }
        ModShift(h + n, 1, tab.Length);
        i := (i + 1) % tab.Length;
        n := n + 1;
      }
      i := h % tab.Length;
    }

    method Track(a: nat)
      requires Valid()
      modifies tab
      ensures Value() == AfterTrack(old(Value()), hash, a)
      ensures a == 0 ==> Value() == old(Value())
    {
      if a == 0 { return; }
      var i := FindSlot(a);
      tab[i] := Slot(a, LIVE);
    }

    /** cy_obj_check; true stands for the use-after-free it throws. */
    method Check(a: nat) returns (reported: bool)
      requires Valid()
      ensures reported <==> a != 0 && IsDead(tab[..], hash, a)
    {
      if a == 0 { return false; }
      var i := FindSlot(a);
      reported := tab[i].state == DEAD && tab[i].addr == a;
    }

    /** cy_obj_note_free; true stands for the double free it throws. */
    method NoteFree(a: nat) returns (reported: bool)
      requires Valid()
      modifies tab, quar, `head, `count
      ensures Valid()
      ensures reported <==> a != 0 && IsDead(old(tab[..]), hash, a)
      ensures Value() == if a == 0 || reported then old(Value())
                         else AfterFree(old(Value()), hash, quar.Length, a)
    {
      if a == 0 { return false; }
      ghost var queue := Queue();
      var i := FindSlot(a);
      if tab[i].state == DEAD && tab[i].addr == a { return true; }
      tab[i] := Slot(a, DEAD);
      if count == quar.Length {
        var old_ := quar[head];
        assert old_ == queue[0];
        var j := FindSlot(old_);
        if tab[j].addr == old_ { tab[j] := tab[j].(state := EMPTY); }
      }
      Enqueue(a);
      return false;
    }

    /** The quarantine ring: the oldest block makes room when it is full. */
    method Enqueue(a: nat)
      requires Valid()
      modifies quar, `head, `count
      ensures Valid()
      ensures Queue() == if old(count) == quar.Length then old(Queue())[1..] + [a] else old(Queue()) + [a]
    {
      var q := quar.Length;
      ghost var ring := quar[..];
      if count == q {
        RingReplace(ring, head, a);
        WrapIsMod(head + 1, q);
        quar[head] := a;
        assert quar[..] == ring[head := a];
        head := (head + 1) % q;
      } else {
        RingAppend(ring, head, count, a);
        WrapIsMod(head + count, q);
        quar[(head + count) % q] := a;
        assert quar[..] == ring[Wrap(head + count, q) := a];
        count := count + 1;
      }
    }
  }
}
