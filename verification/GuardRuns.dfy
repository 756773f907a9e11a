/** What the object guards promise over whole runs of a program.

    A program allocates (New), deletes (Delete) and dereferences (Deref) addresses in any order,
    including wrong ones.  The allocator never hands out a block that it has not got back, and it gets
    back only the blocks that the quarantine evicts.  The table has an EMPTY slot whenever it is
    written. */
module GuardRuns {
  import opened Modular
  import opened ObjectGuard

  datatype Event = New(a: nat) | Delete(a: nat) | Deref(a: nat)

  /** The guard, the addresses that own a live object, those deleted and not handed out since, the blocks
      that the allocator has handed out and not got back, and how many the quarantine has given back. */
  datatype World = World(g: Guard, live: set<nat>, deleted: set<nat>, heap: set<nat>, evictions: nat)

  /** Does the guard throw? */
  predicate Reported(w: World, hash: nat -> nat, e: Event)
    requires w.g.tab != []
  {
    !e.New? && e.a != 0 && IsDead(w.g.tab, hash, e.a)
  }

  function Next(w: World, hash: nat -> nat, q: nat, e: Event): (w': World)
    requires w.g.tab != [] && q > 0
    ensures |w'.g.tab| == |w.g.tab|
  {
    if e.a == 0 || e.Deref? || Reported(w, hash, e) then w
    else if e.New? then
      World(AfterTrack(w.g, hash, e.a), w.live + {e.a}, w.deleted - {e.a}, w.heap + {e.a}, w.evictions)
    else
      var evicts := |w.g.queue| >= q;
      World(AfterFree(w.g, hash, q, e.a), w.live - {e.a}, w.deleted + {e.a},
            if evicts then w.heap - {w.g.queue[0]} else w.heap, w.evictions + if evicts then 1 else 0)
  }

  ghost predicate HasEmpty(tab: seq<Slot>) {
    exists i :: 0 <= i < |tab| && tab[i].state == EMPTY
  }

  ghost predicate Permitted(w: World, e: Event) {
    && (e.New? ==> e.a !in w.heap)
    && (e.Deref? || HasEmpty(w.g.tab))
  }

  function Start(size: nat): World {
    World(Guard(seq(size, _ => Slot(0, EMPTY)), []), {}, {}, {}, 0)
  }

  function Run(size: nat, hash: nat -> nat, q: nat, events: seq<Event>): (w: World)
    requires size > 0 && q > 0
    ensures |w.g.tab| == size
  {
    if events == [] then Start(size)
    else Next(Run(size, hash, q, events[..|events| - 1]), hash, q, events[|events| - 1])
  }

  ghost predicate PermittedRun(size: nat, hash: nat -> nat, q: nat, events: seq<Event>)
    requires size > 0 && q > 0
  {
    forall i :: 0 <= i < |events| ==> Permitted(Run(size, hash, q, events[..i]), events[i])
  }

  // ---- What cy__obj_find returns ----

  /** The probe at which the search for `a` stops. */
  ghost predicate StopsAt(tab: seq<Slot>, h: nat, a: nat, n: nat)
    requires tab != []
  {
    && n < |tab| && Stops(tab[At(tab, h, n)], a)
    && forall m: nat :: m < n ==> !Stops(tab[At(tab, h, m)], a)
  }

  lemma {:induction false} FindFromStops(tab: seq<Slot>, h: nat, a: nat, k: nat, n: nat)
    requires tab != [] && StopsAt(tab, h, a, n) && k <= n
    ensures FindFrom(tab, h, a, k) == At(tab, h, n)
    decreases n - k
  {
    if k < n { FindFromStops(tab, h, a, k + 1, n); }
  }

  lemma {:induction false} FirstStop(tab: seq<Slot>, h: nat, a: nat, n: nat) returns (k: nat)
    requires tab != [] && n < |tab| && Stops(tab[At(tab, h, n)], a)
    ensures k <= n && StopsAt(tab, h, a, k)
  {
    if forall m: nat :: m < n ==> !Stops(tab[At(tab, h, m)], a) {
      k := n;
    } else {
      var m: nat :| m < n && Stops(tab[At(tab, h, m)], a);
      k := FirstStop(tab, h, a, m);
    }
  }

  /** Linear probing reaches every slot. */
  lemma ReachSlot(tab: seq<Slot>, h: nat, i: nat) returns (n: nat)
    requires i < |tab|
    ensures n < |tab| && At(tab, h, n) == i
  {
    var size := |tab|;
    var r := h % size;
    n := if r <= i then i - r else i + size - r;
    ModShift(h, n, size);
    WrapIsMod(r + n, size);
  }

  lemma FindStops(tab: seq<Slot>, hash: nat -> nat, a: nat) returns (n: nat)
    requires HasEmpty(tab)
    ensures StopsAt(tab, hash(a), a, n) && Find(tab, hash, a) == At(tab, hash(a), n)
  {
    var i :| 0 <= i < |tab| && tab[i].state == EMPTY;
    var k := ReachSlot(tab, hash(a), i);
    n := FirstStop(tab, hash(a), a, k);
    FindFromStops(tab, hash(a), a, 0, n);
  }

  // ---- The entries of live objects ----

  /** Every DEAD entry for `a` on its probe path has a LIVE one before it: the first entry that
      holds `a` is LIVE, whatever holes and stale duplicates there are. */
  ghost predicate Shielded(tab: seq<Slot>, h: nat, a: nat)
    requires tab != []
  {
    forall n: nat :: n < |tab| && tab[At(tab, h, n)] == Slot(a, DEAD) ==> ShieldedAt(tab, h, a, n)
  }

  ghost predicate ShieldedAt(tab: seq<Slot>, h: nat, a: nat, n: nat)
    requires tab != []
  {
    exists m: nat :: m < n && tab[At(tab, h, m)] == Slot(a, LIVE)
  }

  ghost predicate Safe(w: World, hash: nat -> nat) {
    && w.g.tab != [] && 0 !in w.live
    && (forall a :: a in w.live ==> Shielded(w.g.tab, hash(a), a))
  }

  lemma ShieldedNotDead(tab: seq<Slot>, hash: nat -> nat, a: nat)
    requires tab != [] && Shielded(tab, hash(a), a)
    ensures !IsDead(tab, hash, a)
  {
    if IsDead(tab, hash, a) {
      var n := ReachSlot(tab, hash(a), Find(tab, hash, a));
      var k := FirstStop(tab, hash(a), a, n);
      FindFromStops(tab, hash(a), a, 0, k);
    }
  }

  /** Overwriting a slot that is EMPTY or holds another address changes nothing for `a`. */
  lemma OthersStayShielded(tab: seq<Slot>, i: nat, s: Slot, h: nat, a: nat)
    requires i < |tab| && Shielded(tab, h, a)
    requires tab[i].state == EMPTY || tab[i].addr != a
    requires s.state == EMPTY || s.addr != a
    ensures Shielded(tab[i := s], h, a)
  {
    var tab' := tab[i := s];
    forall n: nat | n < |tab'| && tab'[At(tab', h, n)] == Slot(a, DEAD) ensures ShieldedAt(tab', h, a, n) {
      assert tab[At(tab, h, n)] == Slot(a, DEAD);
      assert ShieldedAt(tab, h, a, n);
      var m: nat :| m < n && tab[At(tab, h, m)] == Slot(a, LIVE);
      assert tab'[At(tab', h, m)] == Slot(a, LIVE);
    }
  }

  lemma TrackShields(tab: seq<Slot>, hash: nat -> nat, a: nat)
    requires HasEmpty(tab)
    ensures Shielded(tab[Find(tab, hash, a) := Slot(a, LIVE)], hash(a), a)
  {
    var h := hash(a);
    var k := FindStops(tab, hash, a);
    var tab' := tab[Find(tab, hash, a) := Slot(a, LIVE)];
    forall n: nat | n < |tab'| && tab'[At(tab', h, n)] == Slot(a, DEAD) ensures ShieldedAt(tab', h, a, n) {
      assert Stops(tab[At(tab, h, n)], a);
      assert tab'[At(tab', h, k)] == Slot(a, LIVE);
    }
  }

  lemma WriteShields(tab: seq<Slot>, hash: nat -> nat, a: nat, st: State, b: nat)
    requires HasEmpty(tab) && a != b && Shielded(tab, hash(b), b)
    ensures Shielded(tab[Find(tab, hash, a) := Slot(a, st)], hash(b), b)
  {
    var n := FindStops(tab, hash, a);
    OthersStayShielded(tab, Find(tab, hash, a), Slot(a, st), hash(b), b);
  }

  lemma NewKeepsSafe(w: World, hash: nat -> nat, q: nat, a: nat)
    requires q > 0 && Safe(w, hash) && HasEmpty(w.g.tab) && a != 0
    ensures Safe(Next(w, hash, q, New(a)), hash)
  {
    var w' := Next(w, hash, q, New(a));
    forall b | b in w'.live ensures Shielded(w'.g.tab, hash(b), b) {
      if b == a { TrackShields(w.g.tab, hash, a); } else { WriteShields(w.g.tab, hash, a, LIVE, b); }
    }
  }

  /** The delete fills the ring up and the block that it gives back in turn is that of a live object. */
  predicate GivesBackLive(w: World, hash: nat -> nat, q: nat, e: Event)
    requires w.g.tab != [] && q > 0
  {
    e.Delete? && e.a != 0 && !Reported(w, hash, e) && |w.g.queue| >= q &&
    w.g.queue[0] in w.live && w.g.queue[0] != e.a
  }

  /** ... and a stale DEAD entry of it is left without a LIVE one before it. */
  ghost predicate Backfires(w: World, hash: nat -> nat, q: nat, e: Event)
    requires w.g.tab != [] && q > 0
  {
    GivesBackLive(w, hash, q, e) && !Shielded(Next(w, hash, q, e).g.tab, hash(w.g.queue[0]), w.g.queue[0])
  }

  lemma EvictionShields(w: World, hash: nat -> nat, q: nat, a: nat, b: nat)
    requires q > 0 && HasEmpty(w.g.tab) && a != 0 && !Reported(w, hash, Delete(a))
    requires b != a && Shielded(w.g.tab, hash(b), b) && (|w.g.queue| >= q ==> b != w.g.queue[0])
    ensures Shielded(Next(w, hash, q, Delete(a)).g.tab, hash(b), b)
  {
    var tab := w.g.tab[Find(w.g.tab, hash, a) := Slot(a, DEAD)];
    WriteShields(w.g.tab, hash, a, DEAD, b);
    if |w.g.queue| >= q {
      var j := Find(tab, hash, w.g.queue[0]);
      if tab[j].addr == w.g.queue[0] { OthersStayShielded(tab, j, tab[j].(state := EMPTY), hash(b), b); }
    }
  }

  lemma DeleteSafeExactly(w: World, hash: nat -> nat, q: nat, a: nat)
    requires q > 0 && Safe(w, hash) && HasEmpty(w.g.tab) && a != 0 && !Reported(w, hash, Delete(a))
    ensures Safe(Next(w, hash, q, Delete(a)), hash) <==> !Backfires(w, hash, q, Delete(a))
  {
    var w' := Next(w, hash, q, Delete(a));
    if !Backfires(w, hash, q, Delete(a)) {
      forall b | b in w'.live ensures Shielded(w'.g.tab, hash(b), b) {
        if |w.g.queue| < q || b != w.g.queue[0] { EvictionShields(w, hash, q, a, b); }
      }
    }
  }

  lemma StepSafeExactly(w: World, hash: nat -> nat, q: nat, e: Event)
    requires q > 0 && Safe(w, hash) && Permitted(w, e)
    ensures Safe(Next(w, hash, q, e), hash) <==> !Backfires(w, hash, q, e)
  {
    if e.a != 0 && e.New? { NewKeepsSafe(w, hash, q, e.a); }
    if e.a != 0 && e.Delete? && !Reported(w, hash, e) { DeleteSafeExactly(w, hash, q, e.a); }
  }

  /** The run without its last event, which is permitted as well. */
  ghost function Shorter(size: nat, hash: nat -> nat, q: nat, events: seq<Event>): (r: seq<Event>)
    requires size > 0 && q > 0 && PermittedRun(size, hash, q, events) && events != []
    ensures r == events[..|events| - 1] && PermittedRun(size, hash, q, r)
  {
    var r := events[..|events| - 1];
    assert PermittedRun(size, hash, q, r) by {
      forall i | 0 <= i < |r| ensures Permitted(Run(size, hash, q, r[..i]), r[i]) {
        assert r[..i] == events[..i] && r[i] == events[i];
      }
    }
    r
  }

  ghost predicate BackfiresAt(size: nat, hash: nat -> nat, q: nat, events: seq<Event>, i: nat)
    requires size > 0 && q > 0 && i < |events|
  {
    Backfires(Run(size, hash, q, events[..i]), hash, q, events[i])
  }

  ghost predicate SafeAt(size: nat, hash: nat -> nat, q: nat, events: seq<Event>, i: nat)
    requires size > 0 && q > 0 && i <= |events|
  {
    Safe(Run(size, hash, q, events[..i]), hash)
  }

  lemma NextAt(size: nat, hash: nat -> nat, q: nat, events: seq<Event>, i: nat)
    requires size > 0 && q > 0 && i < |events|
    ensures Run(size, hash, q, events[..i + 1]) == Next(Run(size, hash, q, events[..i]), hash, q, events[i])
  {
    assert events[..i + 1][..i] == events[..i];
  }

  lemma SafeAtNext(size: nat, hash: nat -> nat, q: nat, events: seq<Event>, i: nat)
    requires size > 0 && q > 0 && PermittedRun(size, hash, q, events) && i < |events|
    requires SafeAt(size, hash, q, events, i)
    ensures SafeAt(size, hash, q, events, i + 1) <==> !BackfiresAt(size, hash, q, events, i)
  {
    NextAt(size, hash, q, events, i);
    StepSafeExactly(Run(size, hash, q, events[..i]), hash, q, events[i]);
  }

  lemma {:induction false} SafeWhileNoneBackfires(size: nat, hash: nat -> nat, q: nat, events: seq<Event>, i: nat)
    requires size > 0 && q > 0 && PermittedRun(size, hash, q, events) && i <= |events|
    requires forall k :: 0 <= k < i ==> !BackfiresAt(size, hash, q, events, k)
    ensures SafeAt(size, hash, q, events, i)
  {
    if i > 0 {
      SafeWhileNoneBackfires(size, hash, q, events, i - 1);
      SafeAtNext(size, hash, q, events, i - 1);
    }
  }

  /** Throughout a run every live object is shielded if and only if no delete backfires. */
  lemma RunIsSafeExactly(size: nat, hash: nat -> nat, q: nat, events: seq<Event>)
    requires size > 0 && q > 0 && PermittedRun(size, hash, q, events)
    ensures (forall i :: 0 <= i <= |events| ==> SafeAt(size, hash, q, events, i)) <==>
            (forall i :: 0 <= i < |events| ==> !BackfiresAt(size, hash, q, events, i))
  {
    if forall i :: 0 <= i < |events| ==> !BackfiresAt(size, hash, q, events, i) {
      forall i | 0 <= i <= |events| ensures SafeAt(size, hash, q, events, i) {
        SafeWhileNoneBackfires(size, hash, q, events, i);
      }
    }
    if forall i :: 0 <= i <= |events| ==> SafeAt(size, hash, q, events, i) {
      forall i | 0 <= i < |events| ensures !BackfiresAt(size, hash, q, events, i) {
        assert SafeAt(size, hash, q, events, i) && SafeAt(size, hash, q, events, i + 1);
        SafeAtNext(size, hash, q, events, i);
      }
    }
  }

  // ---- No false reports ----

  /** The guard never gives the block of a live object back to the allocator. */
  ghost predicate KeepsLive(size: nat, hash: nat -> nat, q: nat, events: seq<Event>)
    requires size > 0 && q > 0
  {
    forall i :: 0 <= i < |events| ==> !GivesBackLive(Run(size, hash, q, events[..i]), hash, q, events[i])
  }

  lemma RunIsSafe(size: nat, hash: nat -> nat, q: nat, events: seq<Event>)
    requires size > 0 && q > 0 && PermittedRun(size, hash, q, events) && KeepsLive(size, hash, q, events)
    ensures Safe(Run(size, hash, q, events), hash)
  {
    SafeWhileNoneBackfires(size, hash, q, events, |events|);
    assert events[..|events|] == events;
  }

  /** While the guard gives no live block back, no dereference and no delete of a live tracked object is
      reported. */
  lemma NoFalseReport(size: nat, hash: nat -> nat, q: nat, events: seq<Event>, e: Event)
    requires size > 0 && q > 0 && PermittedRun(size, hash, q, events) && KeepsLive(size, hash, q, events)
    requires e.a in Run(size, hash, q, events).live
    ensures !Reported(Run(size, hash, q, events), hash, e)
  {
    RunIsSafe(size, hash, q, events);
    ShieldedNotDead(Run(size, hash, q, events).g.tab, hash, e.a);
  }

  /** A delete that the guard reports, or of a block that was handed out and is not in the ring. */
  predicate Proper(w: World, hash: nat -> nat, e: Event)
    requires w.g.tab != []
  {
    e.Delete? && e.a != 0 && !Reported(w, hash, e) ==> e.a in w.heap && e.a !in w.g.queue
  }

  ghost predicate ProperRun(size: nat, hash: nat -> nat, q: nat, events: seq<Event>)
    requires size > 0 && q > 0
  {
    forall i :: 0 <= i < |events| ==> Proper(Run(size, hash, q, events[..i]), hash, events[i])
  }

  /** Live objects lie in the heap, and so do the blocks in the ring, each once and none of them live. */
  ghost predicate Apart(w: World) {
    && w.live <= w.heap
    && (forall i, j :: 0 <= i < j < |w.g.queue| ==> w.g.queue[i] != w.g.queue[j])
    && (forall i :: 0 <= i < |w.g.queue| ==> w.g.queue[i] in w.heap && w.g.queue[i] !in w.live)
  }

  lemma StaysApart(w: World, hash: nat -> nat, q: nat, e: Event)
    requires q > 0 && w.g.tab != [] && Apart(w) && Permitted(w, e) && Proper(w, hash, e)
    ensures Apart(Next(w, hash, q, e)) && !GivesBackLive(w, hash, q, e)
  {
  }

  lemma {:induction false} RunApart(size: nat, hash: nat -> nat, q: nat, events: seq<Event>, i: nat)
    requires size > 0 && q > 0 && PermittedRun(size, hash, q, events) && ProperRun(size, hash, q, events)
    requires i <= |events|
    ensures Apart(Run(size, hash, q, events[..i]))
  {
    if i > 0 {
      RunApart(size, hash, q, events, i - 1);
      NextAt(size, hash, q, events, i - 1);
      StaysApart(Run(size, hash, q, events[..i - 1]), hash, q, events[i - 1]);
    }
  }

  /** A program whose deletes are proper never makes the guard give a live block back: so nothing about a
      live object is ever reported. */
  lemma ProperKeepsLive(size: nat, hash: nat -> nat, q: nat, events: seq<Event>)
    requires size > 0 && q > 0 && PermittedRun(size, hash, q, events) && ProperRun(size, hash, q, events)
    ensures KeepsLive(size, hash, q, events)
  {
    forall i | 0 <= i < |events| ensures !GivesBackLive(Run(size, hash, q, events[..i]), hash, q, events[i]) {
      RunApart(size, hash, q, events, i);
      StaysApart(Run(size, hash, q, events[..i]), hash, q, events[i]);
    }
  }

  lemma {:induction false} LiveDeletesApart(size: nat, hash: nat -> nat, q: nat, events: seq<Event>, i: nat)
    requires size > 0 && q > 0 && PermittedRun(size, hash, q, events) && DeletesLive(size, hash, q, events)
    requires i <= |events|
    ensures Apart(Run(size, hash, q, events[..i]))
  {
    if i > 0 {
      LiveDeletesApart(size, hash, q, events, i - 1);
      NextAt(size, hash, q, events, i - 1);
      StaysApart(Run(size, hash, q, events[..i - 1]), hash, q, events[i - 1]);
    }
  }

  ghost predicate DeletesLive(size: nat, hash: nat -> nat, q: nat, events: seq<Event>)
    requires size > 0 && q > 0
  {
    forall i :: 0 <= i < |events| && events[i].Delete? && events[i].a != 0 ==>
      events[i].a in Run(size, hash, q, events[..i]).live
  }

  /** In particular a program that deletes only live objects. */
  lemma LiveDeletesAreProper(size: nat, hash: nat -> nat, q: nat, events: seq<Event>)
    requires size > 0 && q > 0 && PermittedRun(size, hash, q, events) && DeletesLive(size, hash, q, events)
    ensures ProperRun(size, hash, q, events)
  {
    forall i | 0 <= i < |events| ensures Proper(Run(size, hash, q, events[..i]), hash, events[i]) {
      LiveDeletesApart(size, hash, q, events, i);
    }
  }

  // ---- What an unshielded entry leads to ----

  ghost predicate AllNew(events: seq<Event>) {
    forall i :: 0 <= i < |events| ==> events[i].New?
  }

  /** After some further allocations a dereference of `a` is reported. */
  ghost predicate Exposed(size: nat, hash: nat -> nat, q: nat, events: seq<Event>, a: nat, news: seq<Event>)
    requires size > 0 && q > 0
  {
    && AllNew(news) && PermittedRun(size, hash, q, events + news)
    && Reported(Run(size, hash, q, events + news), hash, Deref(a))
  }

  ghost predicate CanExpose(size: nat, hash: nat -> nat, q: nat, events: seq<Event>, a: nat)
    requires size > 0 && q > 0
  {
    exists news :: Exposed(size, hash, q, events, a, news)
  }

  /** Addresses with the hash of `a` never run out. */
  ghost predicate Plenty(hash: nat -> nat, a: nat) {
    forall s: set<nat> :: HasOther(hash, a, s)
  }

  ghost predicate HasOther(hash: nat -> nat, a: nat, s: set<nat>) {
    exists b :: b !in s && hash(b) == hash(a)
  }

  /** The EMPTY slots among the first n probes. */
  function Holes(tab: seq<Slot>, h: nat, n: nat): nat
    requires tab != []
  {
    if n == 0 then 0 else Holes(tab, h, n - 1) + if tab[At(tab, h, n - 1)].state == EMPTY then 1 else 0
  }

  lemma {:induction false} FillingHole(tab: seq<Slot>, h: nat, n: nat, i: nat, s: Slot)
    requires i < |tab| && tab[i].state == EMPTY && s.state != EMPTY
    ensures Holes(tab[i := s], h, n) <= Holes(tab, h, n)
    ensures (exists m: nat :: m < n && At(tab, h, m) == i) ==> Holes(tab[i := s], h, n) < Holes(tab, h, n)
  {
    if n > 0 { FillingHole(tab, h, n - 1, i, s); }
  }

  lemma {:induction false} NoHoles(tab: seq<Slot>, h: nat, n: nat, m: nat)
    requires tab != [] && Holes(tab, h, n) == 0 && m < n
    ensures tab[At(tab, h, m)].state != EMPTY
  {
    if m < n - 1 { NoHoles(tab, h, n - 1, m); }
  }

  lemma {:induction false} SomeHole(tab: seq<Slot>, h: nat, n: nat) returns (m: nat)
    requires tab != [] && Holes(tab, h, n) > 0
    ensures m < n && tab[At(tab, h, m)].state == EMPTY
    ensures forall k: nat :: k < m ==> tab[At(tab, h, k)].state != EMPTY
  {
    if Holes(tab, h, n - 1) > 0 {
      m := SomeHole(tab, h, n - 1);
    } else {
      m := n - 1;
      forall k: nat | k < m ensures tab[At(tab, h, k)].state != EMPTY { NoHoles(tab, h, m, k); }
    }
  }

  /** Probe n shows a DEAD entry of `a` and no probe before it a LIVE one. */
  ghost predicate Bare(tab: seq<Slot>, h: nat, a: nat, n: nat)
    requires tab != []
  {
    n < |tab| && tab[At(tab, h, n)] == Slot(a, DEAD) && !ShieldedAt(tab, h, a, n)
  }

  lemma SomeBare(tab: seq<Slot>, h: nat, a: nat) returns (n: nat)
    requires tab != [] && !Shielded(tab, h, a)
    ensures Bare(tab, h, a, n)
  {
    n :| n < |tab| && tab[At(tab, h, n)] == Slot(a, DEAD) && !ShieldedAt(tab, h, a, n);
  }

  lemma BareWithoutHoles(tab: seq<Slot>, hash: nat -> nat, a: nat, n: nat)
    requires tab != [] && Bare(tab, hash(a), a, n) && Holes(tab, hash(a), n) == 0
    ensures IsDead(tab, hash, a)
  {
    var k := FirstStop(tab, hash(a), a, n);
    FindFromStops(tab, hash(a), a, 0, k);
    assert k < n ==> tab[At(tab, hash(a), k)] != Slot(a, LIVE);
    if k < n { NoHoles(tab, hash(a), n, k); }
  }

  /** A fresh address with the hash of `a` takes the first hole on the path of `a`. */
  lemma FreshFillsHole(tab: seq<Slot>, hash: nat -> nat, a: nat, n: nat, b: nat)
    requires tab != [] && Bare(tab, hash(a), a, n) && Holes(tab, hash(a), n) > 0
    requires hash(b) == hash(a) && b != a && forall i :: 0 <= i < |tab| ==> tab[i].addr != b
    ensures var tab' := tab[Find(tab, hash, b) := Slot(b, LIVE)];
            HasEmpty(tab) && Bare(tab', hash(a), a, n) && Holes(tab', hash(a), n) < Holes(tab, hash(a), n)
  {
    var h := hash(a);
    var m := SomeHole(tab, h, n);
    assert StopsAt(tab, h, b, m);
    FindFromStops(tab, hash(b), b, 0, m);
    FillingHole(tab, h, n, At(tab, h, m), Slot(b, LIVE));
    var tab' := tab[At(tab, h, m) := Slot(b, LIVE)];
    forall k: nat | k < n ensures tab'[At(tab', h, k)] != Slot(a, LIVE) {
      assert tab[At(tab, h, k)] != Slot(a, LIVE);
    }
  }

  lemma Fresh(w: World, hash: nat -> nat, a: nat) returns (b: nat)
    requires Plenty(hash, a)
    ensures b != 0 && b != a && b !in w.heap && hash(b) == hash(a)
    ensures forall i :: 0 <= i < |w.g.tab| ==> w.g.tab[i].addr != b
  {
    var used := set i | 0 <= i < |w.g.tab| :: w.g.tab[i].addr;
    var taken := w.heap + used + {0, a};
    assert HasOther(hash, a, taken);
    b :| b !in taken && hash(b) == hash(a);
    forall i | 0 <= i < |w.g.tab| ensures w.g.tab[i].addr != b { assert w.g.tab[i].addr in used; }
  }

  lemma NewPermitted(size: nat, hash: nat -> nat, q: nat, events: seq<Event>, e: Event)
    requires size > 0 && q > 0 && PermittedRun(size, hash, q, events) && Permitted(Run(size, hash, q, events), e)
    ensures PermittedRun(size, hash, q, events + [e])
    ensures Run(size, hash, q, events + [e]) == Next(Run(size, hash, q, events), hash, q, e)
  {
    var all := events + [e];
    assert all[..|events|] == events;
    forall i | 0 <= i < |all| ensures Permitted(Run(size, hash, q, all[..i]), all[i]) {
      if i < |events| { assert all[..i] == events[..i] && all[i] == events[i]; }
    }
  }

  lemma ExposedEarlier(size: nat, hash: nat -> nat, q: nat, events: seq<Event>, a: nat, b: nat, rest: seq<Event>)
    requires size > 0 && q > 0 && Exposed(size, hash, q, events + [New(b)], a, rest)
    ensures Exposed(size, hash, q, events, a, [New(b)] + rest)
  {
    assert events + ([New(b)] + rest) == events + [New(b)] + rest;
  }

  /** Allocations fill the holes in front of it until the search runs into it. */
  lemma {:induction false} Expose(size: nat, hash: nat -> nat, q: nat, events: seq<Event>, a: nat, n: nat)
    returns (news: seq<Event>)
    requires size > 0 && q > 0 && PermittedRun(size, hash, q, events) && a != 0 && Plenty(hash, a)
    requires Bare(Run(size, hash, q, events).g.tab, hash(a), a, n)
    ensures Exposed(size, hash, q, events, a, news)
    decreases Holes(Run(size, hash, q, events).g.tab, hash(a), n)
  {
    var w := Run(size, hash, q, events);
    if Holes(w.g.tab, hash(a), n) == 0 {
      news := [];
      BareWithoutHoles(w.g.tab, hash, a, n);
      assert events + news == events;
    } else {
      var b := Fresh(w, hash, a);
      FreshFillsHole(w.g.tab, hash, a, n, b);
      NewPermitted(size, hash, q, events, New(b));
      var rest := Expose(size, hash, q, events + [New(b)], a, n);
      news := [New(b)] + rest;
      ExposedEarlier(size, hash, q, events, a, b, rest);
    }
  }

  lemma {:induction false} NewsKeepShielded(size: nat, hash: nat -> nat, q: nat, events: seq<Event>, a: nat,
                                            news: seq<Event>)
    requires size > 0 && q > 0 && AllNew(news) && PermittedRun(size, hash, q, events + news)
    requires Shielded(Run(size, hash, q, events).g.tab, hash(a), a)
    ensures Shielded(Run(size, hash, q, events + news).g.tab, hash(a), a)
  {
    if news == [] {
      assert events + news == events;
    } else {
      var k := |news| - 1;
      var all := events + news;
      assert all[..|all| - 1] == events + news[..k] && all[|all| - 1] == news[k];
      assert Shorter(size, hash, q, all) == events + news[..k];
      NewsKeepShielded(size, hash, q, events, a, news[..k]);
      var w := Run(size, hash, q, events + news[..k]);
      assert Permitted(Run(size, hash, q, all[..|all| - 1]), all[|all| - 1]);
      var b := news[k].a;
      if b == a { TrackShields(w.g.tab, hash, a); } else if b != 0 { WriteShields(w.g.tab, hash, b, LIVE, a); }
    }
  }

  lemma ShieldedNotExposed(size: nat, hash: nat -> nat, q: nat, events: seq<Event>, a: nat, news: seq<Event>)
    requires size > 0 && q > 0 && Shielded(Run(size, hash, q, events).g.tab, hash(a), a)
    ensures !Exposed(size, hash, q, events, a, news)
  {
    if AllNew(news) && PermittedRun(size, hash, q, events + news) {
      NewsKeepShielded(size, hash, q, events, a, news);
      ShieldedNotDead(Run(size, hash, q, events + news).g.tab, hash, a);
    }
  }

  lemma UnshieldedExposed(size: nat, hash: nat -> nat, q: nat, events: seq<Event>, a: nat)
    requires size > 0 && q > 0 && PermittedRun(size, hash, q, events) && a != 0 && Plenty(hash, a)
    requires !Shielded(Run(size, hash, q, events).g.tab, hash(a), a)
    ensures CanExpose(size, hash, q, events, a)
  {
    var n := SomeBare(Run(size, hash, q, events).g.tab, hash(a), a);
    var news := Expose(size, hash, q, events, a, n);
  }

  /** An object is shielded if and only if no further allocations, whatever holes they fill, make the guard
      report it. */
  lemma ShieldedExactly(size: nat, hash: nat -> nat, q: nat, events: seq<Event>, a: nat)
    requires size > 0 && q > 0 && PermittedRun(size, hash, q, events) && a != 0 && Plenty(hash, a)
    ensures Shielded(Run(size, hash, q, events).g.tab, hash(a), a) <==> !CanExpose(size, hash, q, events, a)
  {
    if Shielded(Run(size, hash, q, events).g.tab, hash(a), a) {
      forall news ensures !Exposed(size, hash, q, events, a, news) {
        ShieldedNotExposed(size, hash, q, events, a, news);
      }
    } else {
      UnshieldedExposed(size, hash, q, events, a);
    }
  }

  /** After the first i events some live object can come to be reported by allocations alone. */
  ghost predicate FalseReportNear(size: nat, hash: nat -> nat, q: nat, events: seq<Event>, i: nat)
    requires size > 0 && q > 0 && i <= |events|
  {
    exists a :: a in Run(size, hash, q, events[..i]).live && CanExpose(size, hash, q, events[..i], a)
  }

  lemma NearExactly(size: nat, hash: nat -> nat, q: nat, events: seq<Event>, i: nat)
    requires size > 0 && q > 0 && PermittedRun(size, hash, q, events) && i <= |events|
    requires forall a :: Plenty(hash, a)
    ensures FalseReportNear(size, hash, q, events, i) <==> !SafeAt(size, hash, q, events, i)
  {
    assert PermittedRun(size, hash, q, events[..i]) by {
      assert forall k :: 0 <= k < i ==> events[..i][..k] == events[..k];
    }
    LiveIsNotNull(size, hash, q, events[..i]);
    forall a | a in Run(size, hash, q, events[..i]).live
      ensures Shielded(Run(size, hash, q, events[..i]).g.tab, hash(a), a) <==> !CanExpose(size, hash, q, events[..i], a)
    {
      ShieldedExactly(size, hash, q, events[..i], a);
    }
  }

  lemma {:induction false} LiveIsNotNull(size: nat, hash: nat -> nat, q: nat, events: seq<Event>)
    requires size > 0 && q > 0
    ensures 0 !in Run(size, hash, q, events).live
  {
    if events != [] { LiveIsNotNull(size, hash, q, events[..|events| - 1]); }
  }

  /** Some point of a run is followed by a false report, after allocations alone, if and only if some delete
      of the run backfires. */
  lemma FalseReportsExactly(size: nat, hash: nat -> nat, q: nat, events: seq<Event>)
    requires size > 0 && q > 0 && PermittedRun(size, hash, q, events)
    requires forall a :: Plenty(hash, a)
    ensures (exists i :: 0 <= i <= |events| && FalseReportNear(size, hash, q, events, i)) <==>
            (exists i :: 0 <= i < |events| && BackfiresAt(size, hash, q, events, i))
  {
    RunIsSafeExactly(size, hash, q, events);
    forall i | 0 <= i <= |events|
      ensures FalseReportNear(size, hash, q, events, i) <==> !SafeAt(size, hash, q, events, i)
    {
      NearExactly(size, hash, q, events, i);
    }
  }

  // ---- A false report ----

  function Zero(a: nat): nat {
    0
  }

  const NONE := Slot(0, EMPTY)

  /** In a table of four slots with a quarantine of one block: a second delete of 2, which the hole left by 1
      hides, gives the block back while the ring holds it again; 2 is allocated again; and its LIVE entry is
      cleared when its second place in the ring comes up. */
  function DoubleDelete(): seq<Event> {
    [New(1), Delete(1), New(2), Delete(2), Delete(2), New(2), New(1), Delete(1), New(3)]
  }

  /** The world without its history. */
  datatype View = View(g: Guard, live: set<nat>, heap: set<nat>)

  /** The view after an event that finds its address in slot n, and the block that it gives back in slot j. */
  function After(v: View, e: Event, n: nat, j: nat): View
    requires n < |v.g.tab| && j < |v.g.tab|
  {
    var (tab, queue) := (v.g.tab, v.g.queue);
    if e.New? then View(Guard(tab[n := Slot(e.a, LIVE)], queue), v.live + {e.a}, v.heap + {e.a})
    else if queue == [] then View(Guard(tab[n := Slot(e.a, DEAD)], [e.a]), v.live - {e.a}, v.heap)
    else
      View(Guard(tab[n := Slot(e.a, DEAD)][j := Slot(queue[0], EMPTY)], [e.a]), v.live - {e.a}, v.heap - {queue[0]})
  }

  ghost predicate FirstAt(tab: seq<Slot>, a: nat, n: nat) {
    n < |tab| && Stops(tab[n], a) && forall m: nat :: m < n ==> !Stops(tab[m], a)
  }

  lemma FoundAt(tab: seq<Slot>, a: nat, n: nat)
    requires FirstAt(tab, a, n)
    ensures Find(tab, Zero, a) == n
  {
    assert forall m: nat :: m < |tab| ==> At(tab, 0, m) == m;
    assert StopsAt(tab, 0, a, n);
    FindFromStops(tab, 0, a, 0, n);
  }

  ghost predicate Fits(v: View, e: Event, n: nat, j: nat) {
    && !e.Deref? && e.a != 0 && FirstAt(v.g.tab, e.a, n) && |v.g.queue| <= 1 && j < |v.g.tab|
    && (exists i :: 0 <= i < |v.g.tab| && v.g.tab[i].state == EMPTY)
    && (e.New? ==> e.a !in v.heap)
    && (e.Delete? ==> v.g.tab[n] != Slot(e.a, DEAD))
    && (e.Delete? && v.g.queue != [] ==>
          var tab := v.g.tab[n := Slot(e.a, DEAD)]; FirstAt(tab, v.g.queue[0], j) && tab[j].addr == v.g.queue[0])
  }

  lemma AfterIsNext(w: World, v: View, e: Event, n: nat, j: nat)
    requires v == View(w.g, w.live, w.heap) && Fits(v, e, n, j)
    ensures var w' := Next(w, Zero, 1, e); Permitted(w, e) && After(v, e, n, j) == View(w'.g, w'.live, w'.heap)
  {
    FoundAt(v.g.tab, e.a, n);
    if e.Delete? && v.g.queue != [] {
      FoundAt(v.g.tab[n := Slot(e.a, DEAD)], v.g.queue[0], j);
      assert v.g.queue[1..] + [e.a] == [e.a];
    }
  }

  ghost predicate Reaches(n: nat, v: View)
    requires n <= 9
  {
    var w := Run(4, Zero, 1, DoubleDelete()[..n]);
    PermittedRun(4, Zero, 1, DoubleDelete()[..n]) && v == View(w.g, w.live, w.heap)
  }

  lemma Then(k: nat, v: View, n: nat, j: nat)
    requires k < 9 && Reaches(k, v) && Fits(v, DoubleDelete()[k], n, j)
    ensures Reaches(k + 1, After(v, DoubleDelete()[k], n, j))
  {
    var all := DoubleDelete();
    var w := Run(4, Zero, 1, all[..k]);
    AfterIsNext(w, v, all[k], n, j);
    NewPermitted(4, Zero, 1, all[..k], all[k]);
    assert all[..k + 1] == all[..k] + [all[k]];
  }

  /** The view before the k-th event. */
  function Seen(k: nat): View {
    if k == 0 then View(Guard([NONE, NONE, NONE, NONE], []), {}, {})
    else if k == 1 then View(Guard([Slot(1, LIVE), NONE, NONE, NONE], []), {1}, {1})
    else if k == 2 then View(Guard([Slot(1, DEAD), NONE, NONE, NONE], [1]), {}, {1})
    else if k == 3 then View(Guard([Slot(1, DEAD), Slot(2, LIVE), NONE, NONE], [1]), {2}, {1, 2})
    else if k == 4 then View(Guard([Slot(1, EMPTY), Slot(2, DEAD), NONE, NONE], [2]), {}, {2})
    else if k == 5 then View(Guard([Slot(2, EMPTY), Slot(2, DEAD), NONE, NONE], [2]), {}, {})
    else if k == 6 then View(Guard([Slot(2, LIVE), Slot(2, DEAD), NONE, NONE], [2]), {2}, {2})
    else if k == 7 then View(Guard([Slot(2, LIVE), Slot(2, DEAD), Slot(1, LIVE), NONE], [2]), {1, 2}, {1, 2})
    else if k == 8 then View(Guard([Slot(2, EMPTY), Slot(2, DEAD), Slot(1, DEAD), NONE], [1]), {2}, {1})
    else View(Guard([Slot(3, LIVE), Slot(2, DEAD), Slot(1, DEAD), NONE], [1]), {2, 3}, {1, 3})
  }

  function SlotOf(k: nat): nat {
    if k == 2 || k == 3 then 1 else if k == 6 || k == 7 then 2 else 0
  }

  lemma SeenStep(k: nat)
    requires k < 9
    ensures Fits(Seen(k), DoubleDelete()[k], SlotOf(k), 0)
    ensures After(Seen(k), DoubleDelete()[k], SlotOf(k), 0) == Seen(k + 1)
  {
    assert Seen(k).g.tab[3].state == EMPTY;
  }

  lemma {:induction false} SeenIsReached(k: nat)
    requires k <= 9
    ensures Reaches(k, Seen(k))
  {
    if k == 0 {
      assert Start(4).g.tab == Seen(0).g.tab;
    } else {
      SeenIsReached(k - 1);
      SeenStep(k - 1);
      Then(k - 1, Seen(k - 1), SlotOf(k - 1), 0);
    }
  }

  /** After that run the guard reports the live object 2: the search passes the slot that held its LIVE entry
      and finds a stale DEAD one. */
  lemma DoubleDeleteIsMisreported()
    ensures var w := Run(4, Zero, 1, DoubleDelete());
            PermittedRun(4, Zero, 1, DoubleDelete()) && 2 in w.live && Reported(w, Zero, Deref(2))
  {
    SeenIsReached(9);
    assert DoubleDelete()[..9] == DoubleDelete();
    FoundAt(Seen(9).g.tab, 2, 1);
  }

  // ---- Exact detection until the first eviction ----

  /** Every entry is the one found for its address. */
  ghost predicate Chained(tab: seq<Slot>, hash: nat -> nat) {
    forall s :: 0 <= s < |tab| && tab[s].state != EMPTY ==> Find(tab, hash, tab[s].addr) == s
  }

  ghost predicate Holds(tab: seq<Slot>, a: nat, st: State) {
    Slot(a, st) in tab
  }

  ghost predicate Exact(w: World, hash: nat -> nat) {
    && w.g.tab != [] && Chained(w.g.tab, hash)
    && (forall a :: a != 0 ==> (a in w.live <==> Holds(w.g.tab, a, LIVE)))
    && (forall a :: a != 0 ==> (a in w.deleted <==> Holds(w.g.tab, a, DEAD)))
    && (forall a :: a in w.deleted ==> a in w.g.queue)
    && (forall s :: 0 <= s < |w.g.tab| && w.g.tab[s].state == EMPTY ==> w.g.tab[s].addr == 0)
    && 0 !in w.deleted
  }

  lemma ExactReports(w: World, hash: nat -> nat, a: nat)
    requires Exact(w, hash)
    ensures a != 0 && IsDead(w.g.tab, hash, a) <==> a in w.deleted
  {
    var tab := w.g.tab;
    if a in w.deleted {
      var s :| 0 <= s < |tab| && tab[s] == Slot(a, DEAD);
      assert Find(tab, hash, tab[s].addr) == s;
    }
    if a != 0 && IsDead(tab, hash, a) { assert Holds(tab, a, DEAD); }
  }

  /** Writing an entry at the slot found for its address keeps the chains. */
  lemma WriteKeepsChained(tab: seq<Slot>, hash: nat -> nat, a: nat, st: State)
    requires HasEmpty(tab) && Chained(tab, hash) && st != EMPTY
    ensures Chained(tab[Find(tab, hash, a) := Slot(a, st)], hash)
  {
    var i := Find(tab, hash, a);
    var tab' := tab[i := Slot(a, st)];
    forall s | 0 <= s < |tab'| && tab'[s].state != EMPTY ensures Find(tab', hash, tab'[s].addr) == s {
      var b := tab'[s].addr;
      var n := FindStops(tab, hash, b);
      if s != i { assert Find(tab, hash, tab[s].addr) == s; }
      assert At(tab, hash(b), n) == s;
      if b != a {
        var k := FindStops(tab, hash, a);
      }
      assert StopsAt(tab', hash(b), b, n) by {
        forall m: nat | m < n ensures !Stops(tab'[At(tab', hash(b), m)], b) {
          assert !Stops(tab[At(tab, hash(b), m)], b);
        }
      }
      FindFromStops(tab', hash(b), b, 0, n);
    }
  }

  /** ... and changes the entry of that address only. */
  lemma WriteHolds(tab: seq<Slot>, hash: nat -> nat, a: nat, st: State, b: nat, st': State)
    requires HasEmpty(tab) && Chained(tab, hash) && st != EMPTY && st' != EMPTY
    ensures Holds(tab[Find(tab, hash, a) := Slot(a, st)], b, st') <==>
            if b == a then st' == st else Holds(tab, b, st')
  {
    var i := Find(tab, hash, a);
    var n := FindStops(tab, hash, a);
    var tab' := tab[i := Slot(a, st)];
    if Holds(tab, b, st') && b != a {
      var s :| 0 <= s < |tab| && tab[s] == Slot(b, st');
      assert tab'[s] == Slot(b, st');
    }
    if Holds(tab', b, st') {
      var s :| 0 <= s < |tab'| && tab'[s] == Slot(b, st');
      if s != i { assert Find(tab, hash, tab[s].addr) == s; }
    }
    assert tab'[i] == Slot(a, st);
  }

  lemma WriteKeepsExact(w: World, hash: nat -> nat, q: nat, e: Event)
    requires q > 0 && Exact(w, hash) && Permitted(w, e) && !e.Deref? && e.a != 0 && !Reported(w, hash, e)
    requires e.Delete? ==> |w.g.queue| < q
    ensures Exact(Next(w, hash, q, e), hash)
  {
    var w' := Next(w, hash, q, e);
    var st := if e.New? then LIVE else DEAD;
    WriteKeepsChained(w.g.tab, hash, e.a, st);
    forall b | b != 0
      ensures (b in w'.live <==> Holds(w'.g.tab, b, LIVE)) && (b in w'.deleted <==> Holds(w'.g.tab, b, DEAD))
    {
      WriteHolds(w.g.tab, hash, e.a, st, b, LIVE);
      WriteHolds(w.g.tab, hash, e.a, st, b, DEAD);
    }
  }

  lemma {:induction false} RunIsExact(size: nat, hash: nat -> nat, q: nat, events: seq<Event>)
    requires size > 0 && q > 0 && PermittedRun(size, hash, q, events)
    requires Run(size, hash, q, events).evictions == 0
    ensures Exact(Run(size, hash, q, events), hash)
  {
    if events != [] {
      var n := |events| - 1;
      RunIsExact(size, hash, q, Shorter(size, hash, q, events));
      var w, e := Run(size, hash, q, events[..n]), events[n];
      assert Permitted(w, e);
      if !e.Deref? && e.a != 0 && !Reported(w, hash, e) { WriteKeepsExact(w, hash, q, e); }
    }
  }

  /** Until the quarantine first gives a block back, a dereference or delete is reported exactly
      when the address was deleted before. */
  lemma ExactBeforeEviction(size: nat, hash: nat -> nat, q: nat, events: seq<Event>, e: Event)
    requires size > 0 && q > 0 && PermittedRun(size, hash, q, events) && !e.New?
    requires Run(size, hash, q, events).evictions == 0
    ensures Reported(Run(size, hash, q, events), hash, e) <==> e.a in Run(size, hash, q, events).deleted
  {
    RunIsExact(size, hash, q, events);
    ExactReports(Run(size, hash, q, events), hash, e.a);
  }
}
