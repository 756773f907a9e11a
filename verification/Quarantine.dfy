/** Which blocks the quarantine of include/cyexc.h holds after a run, and where a search of the side table ends. */
module Quarantine {
  import opened ObjectGuard
  import opened GuardRuns

  /** The block that the event deletes without a report. */
  function DeletedBy(w: World, hash: nat -> nat, e: Event): seq<nat>
    requires w.g.tab != []
  {
    if e.Delete? && e.a != 0 && !Reported(w, hash, e) then [e.a] else []
  }

  /** The blocks deleted without a report, in order. */
  function Deletes(size: nat, hash: nat -> nat, q: nat, events: seq<Event>): seq<nat>
    requires size > 0 && q > 0
  {
    if events == [] then []
    else
      var before, e := events[..|events| - 1], events[|events| - 1];
      Deletes(size, hash, q, before) + DeletedBy(Run(size, hash, q, before), hash, e)
  }

  /** The ring holds the last q of the blocks d, and every older one was given back. */
  ghost predicate HoldsLast(w: World, d: seq<nat>, q: nat) {
    && |w.g.queue| == (if |d| < q then |d| else q)
    && w.g.queue == d[|d| - |w.g.queue|..]
    && w.evictions == |d| - |w.g.queue|
  }

  lemma DeleteNext(w: World, hash: nat -> nat, q: nat, e: Event)
    requires w.g.tab != [] && q > 0 && DeletedBy(w, hash, e) != []
    ensures DeletedBy(w, hash, e) == [e.a]
    ensures var evicts := |w.g.queue| >= q; var w' := Next(w, hash, q, e);
            w'.g.queue == (if evicts then w.g.queue[1..] else w.g.queue) + [e.a]
            && w'.evictions == w.evictions + if evicts then 1 else 0
  {
  }

  lemma QuietNext(w: World, hash: nat -> nat, q: nat, e: Event)
    requires w.g.tab != [] && q > 0 && DeletedBy(w, hash, e) == []
    ensures Next(w, hash, q, e).g.queue == w.g.queue && Next(w, hash, q, e).evictions == w.evictions
  {
  }

  lemma PushHolds(w: World, w': World, a: nat, d: seq<nat>, q: nat)
    requires q > 0 && HoldsLast(w, d, q)
    requires w'.g.queue == (if |w.g.queue| >= q then w.g.queue[1..] else w.g.queue) + [a]
    requires w'.evictions == w.evictions + if |w.g.queue| >= q then 1 else 0
    ensures HoldsLast(w', d + [a], q)
  {
    Pushed(d, |w.g.queue|, a);
  }

  lemma SameHolds(w: World, w': World, d: seq<nat>, q: nat)
    requires HoldsLast(w, d, q) && w'.g.queue == w.g.queue && w'.evictions == w.evictions
    ensures HoldsLast(w', d + [], q)
  {
    assert d + [] == d;
  }

  lemma NextHolds(w: World, hash: nat -> nat, q: nat, e: Event, d: seq<nat>)
    requires w.g.tab != [] && q > 0 && HoldsLast(w, d, q)
    ensures HoldsLast(Next(w, hash, q, e), d + DeletedBy(w, hash, e), q)
  {
    if DeletedBy(w, hash, e) == [] {
      QuietNext(w, hash, q, e);
      SameHolds(w, Next(w, hash, q, e), d, q);
    } else {
      DeleteNext(w, hash, q, e);
      PushHolds(w, Next(w, hash, q, e), e.a, d, q);
    }
  }

  /** First in, first out: throughout a run the quarantine holds the last q deleted blocks, oldest first, and every
      older one was given back. */
  lemma {:induction false} HoldsTheLatest(size: nat, hash: nat -> nat, q: nat, events: seq<Event>)
    requires size > 0 && q > 0
    ensures HoldsLast(Run(size, hash, q, events), Deletes(size, hash, q, events), q)
  {
    if events != [] {
      var before, e := events[..|events| - 1], events[|events| - 1];
      HoldsTheLatest(size, hash, q, before);
      NextHolds(Run(size, hash, q, before), hash, q, e, Deletes(size, hash, q, before));
    }
  }

  lemma Pushed(d: seq<nat>, n: nat, a: nat)
    requires n <= |d|
    ensures (d + [a])[|d| - n..] == d[|d| - n..] + [a]
    ensures n > 0 ==> (d + [a])[|d| - n + 1..] == d[|d| - n..][1..] + [a]
  {
  }

  /** A search ends at the first slot, from the home slot of the address on and going round, that is empty or
      holds the address; in a table without one, at the home slot. */
  lemma FindMeans(tab: seq<Slot>, hash: nat -> nat, a: nat)
    requires tab != []
    ensures (exists n :: StopsAt(tab, hash(a), a, n) && Find(tab, hash, a) == (hash(a) + n) % |tab|) ||
            (Find(tab, hash, a) == hash(a) % |tab| &&
             forall i :: 0 <= i < |tab| ==> tab[i].state != EMPTY && tab[i].addr != a)
  {
    var h := hash(a);
    if i :| 0 <= i < |tab| && Stops(tab[i], a) {
      var k := ReachSlot(tab, h, i);
      var n := FirstStop(tab, h, a, k);
      FindFromStops(tab, h, a, 0, n);
    } else {
      NoneStops(tab, h, a, 0);
    }
  }

  lemma {:induction false} NoneStops(tab: seq<Slot>, h: nat, a: nat, n: nat)
    requires tab != [] && n <= |tab| && forall i :: 0 <= i < |tab| ==> !Stops(tab[i], a)
    ensures FindFrom(tab, h, a, n) == h % |tab|
    decreases |tab| - n
  {
    if n < |tab| { NoneStops(tab, h, a, n + 1); }
  }
}
