/** The symbol map of src/b2obj.c: a growing list of (name, symbol index) pairs, in which a name may
    occur more than once, and an open-addressed index over it that must answer every lookup like the
    linear first-match scan it replaced. */
module SymbolIndex {
  import opened Prelude
  import opened Modular
  import opened Occupancy

  /** The linear scan. */
  function FirstIndex<N(==)>(names: seq<N>, nm: N): (r: Option<nat>)
    ensures r.Some? ==> r.value < |names| && names[r.value] == nm
    ensures r.Some? ==> forall j :: 0 <= j < r.value ==> names[j] != nm
    ensures r.None? ==> nm !in names
  {
    if names == [] then None
    else
      var n := |names| - 1;
      var r := FirstIndex(names[..n], nm);
      if r.Some? then r else if names[n] == nm then Some(n) else None
  }

  /** Slots hold a list position plus 1; 0 is empty. */
  ghost predicate InRange<N>(tab: seq<nat>, names: seq<N>) {
    tab != [] && forall s :: 0 <= s < |tab| ==> tab[s] <= |names|
  }

  function Taken(tab: seq<nat>): nat {
    Occupied<nat>(tab, 0)
  }

  function At(h: nat, k: nat, cap: nat): (s: nat)
    requires cap > 0
    ensures s < cap
  {
    (h + k) % cap
  }

  /** The slots a probe loop looks at. */
  type Probe = nat -> nat

  ghost predicate Visited(p: Probe, cap: nat, s: nat) {
    exists k: nat :: k < cap && p(k) == s
  }

  /** It stays in the table and comes to every slot. */
  ghost predicate Visits(p: Probe, cap: nat) {
    (forall k: nat :: p(k) < cap) && forall s: nat :: s < cap ==> Visited(p, cap, s)
  }

  predicate Stops<N(==)>(e: nat, names: seq<N>, nm: N)
    requires e <= |names|
  {
    e == 0 || names[e - 1] == nm
  }

  /** The probe loop for `nm` ends at probe k. */
  ghost predicate StopsAt<N>(tab: seq<nat>, names: seq<N>, p: Probe, nm: N, k: nat)
    requires InRange(tab, names) && Visits(p, |tab|)
  {
    && k < |tab| && Stops(tab[p(k)], names, nm)
    && forall j: nat :: j < k ==> !Stops(tab[p(j)], names, nm)
  }

  /** ... and what it finds there is what the linear scan finds. */
  ghost predicate Answers<N>(tab: seq<nat>, names: seq<N>, p: Probe, nm: N, k: nat)
    requires InRange(tab, names) && Visits(p, |tab|)
  {
    && StopsAt(tab, names, p, nm, k)
    && tab[p(k)] == match FirstIndex(names, nm) case None => 0 case Some(i) => i + 1
  }

  ghost predicate Correct<N>(tab: seq<nat>, names: seq<N>, p: Probe, nm: N)
    requires InRange(tab, names) && Visits(p, |tab|)
  {
    exists k: nat :: Answers(tab, names, p, nm, k)
  }

  function ProbeOf(h: nat, cap: nat): Probe
    requires cap > 0
  {
    (k: nat) => At(h, k, cap)
  }

  ghost predicate CorrectAt<N>(tab: seq<nat>, names: seq<N>, hash: N -> nat, nm: N)
    requires InRange(tab, names)
  {
    var p := ProbeOf(hash(nm), |tab|);
    Visits(p, |tab|) && Correct(tab, names, p, nm)
  }

  /** The index agrees with the linear scan on every name, present or not. */
  ghost predicate Indexed<N(!new)>(tab: seq<nat>, names: seq<N>, hash: N -> nat) {
    && InRange(tab, names)
    && Taken(tab) <= |names|
    && forall nm :: CorrectAt(tab, names, hash, nm)
  }

  lemma {:induction false} FirstStop<N>(tab: seq<nat>, names: seq<N>, p: Probe, nm: N, n: nat) returns (k: nat)
    requires InRange(tab, names) && Visits(p, |tab|) && n < |tab| && Stops(tab[p(n)], names, nm)
    ensures k <= n && StopsAt(tab, names, p, nm, k)
  {
    if forall j: nat :: j < n ==> !Stops(tab[p(j)], names, nm) {
      k := n;
    } else {
      var j: nat :| j < n && Stops(tab[p(j)], names, nm);
      k := FirstStop(tab, names, p, nm, j);
    }
  }

  /** With a free slot every probe loop stops. */
  lemma ProbeStops<N>(tab: seq<nat>, names: seq<N>, p: Probe, nm: N) returns (k: nat)
    requires InRange(tab, names) && Visits(p, |tab|) && Taken(tab) < |tab|
    ensures StopsAt(tab, names, p, nm, k)
  {
    HasFree<nat>(tab, 0);
    var s: nat :| s < |tab| && tab[s] == 0;
    assert Visited(p, |tab|, s);
    var n: nat :| n < |tab| && p(n) == s;
    k := FirstStop(tab, names, p, nm, n);
  }

  lemma ReachSlot(h: nat, s: nat, cap: nat) returns (k: nat)
    requires s < cap
    ensures k < cap && At(h, k, cap) == s
  {
    var r := h % cap;
    k := if r <= s then s - r else s + cap - r;
    ModShift(h, k, cap);
    WrapIsMod(r + k, cap);
  }

  /** Linear probing visits every slot. */
  lemma NextSlot(h: nat, k: nat, cap: nat)
    requires cap > 0
    ensures (At(h, k, cap) + 1) % cap == At(h, k + 1, cap)
  {
    ModShift(h + k, 1, cap);
  }

  lemma ProbeVisits(h: nat, cap: nat)
    requires cap > 0
    ensures Visits(ProbeOf(h, cap), cap)
  {
    forall s: nat | s < cap ensures Visited(ProbeOf(h, cap), cap, s) {
      var k := ReachSlot(h, s, cap);
      assert ProbeOf(h, cap)(k) == s;
    }
  }

  lemma EmptyIsIndexed<N(!new)>(tab: seq<nat>, hash: N -> nat)
    requires tab != [] && forall s :: 0 <= s < |tab| ==> tab[s] == 0
    ensures Indexed(tab, [], hash)
  {
    AllFree<nat>(tab, 0);
    forall nm: N ensures CorrectAt(tab, [], hash, nm) {
      ProbeVisits(hash(nm), |tab|);
      assert Answers(tab, [], ProbeOf(hash(nm), |tab|), nm, 0);
    }
  }

  lemma StopIsUnique<N>(tab: seq<nat>, names: seq<N>, p: Probe, nm: N, a: nat, b: nat)
    requires InRange(tab, names) && Visits(p, |tab|) && StopsAt(tab, names, p, nm, a) && StopsAt(tab, names, p, nm, b)
    ensures a == b
  {
  }

  /** The table after SYM_IDX_INSERT of the last name, whose probe loop stops at probe k. */
  function Inserted(tab: seq<nat>, n: nat, slot: nat): seq<nat>
    requires slot < |tab|
  {
    if tab[slot] == 0 then tab[slot := n + 1] else tab
  }

  lemma FirstIndexSnoc<N>(names: seq<N>, x: N, nm: N)
    ensures FirstIndex(names + [x], nm) ==
            if FirstIndex(names, nm).Some? then FirstIndex(names, nm)
            else if x == nm then Some(|names|) else None
  {
    assert (names + [x])[..|names|] == names;
  }

  /** Appending a name changes where no older entry stops. */
  lemma StopsSnoc<N>(e: nat, names: seq<N>, x: N, nm: N)
    requires e <= |names|
    ensures Stops(e, names + [x], nm) == Stops(e, names, nm)
  {
  }

  lemma InsertKeepsIndexed<N(!new)>(tab: seq<nat>, names: seq<N>, x: N, hash: N -> nat, p: Probe, k: nat)
    requires Indexed(tab, names, hash) && Taken(tab) + 1 < |tab| && p == ProbeOf(hash(x), |tab|) && Visits(p, |tab|)
    requires StopsAt(tab, names, p, x, k)
    ensures Indexed(Inserted(tab, |names|, p(k)), names + [x], hash)
  {
    var slot := p(k);
    OccupiedUpdate<nat>(tab, 0, slot, |names| + 1);
    assert CorrectAt(tab, names, hash, x);
    var kx: nat :| Answers(tab, names, p, x, kx);
    StopIsUnique(tab, names, p, x, k, kx);
    forall nm ensures CorrectAt(Inserted(tab, |names|, slot), names + [x], hash, nm) {
      assert CorrectAt(tab, names, hash, nm);
      InsertIsCorrect(tab, names, x, p, k, ProbeOf(hash(nm), |tab|), nm);
    }
  }

  lemma InsertIsCorrect<N>(tab: seq<nat>, names: seq<N>, x: N, px: Probe, k: nat, p: Probe, nm: N)
    requires InRange(tab, names) && Visits(px, |tab|) && Visits(p, |tab|)
    requires Taken(tab) + 1 < |tab| && Answers(tab, names, px, x, k)
    requires Correct(tab, names, p, nm) && (nm == x ==> p == px)
    ensures InRange(Inserted(tab, |names|, px(k)), names + [x])
    ensures Correct(Inserted(tab, |names|, px(k)), names + [x], p, nm)
  {
    var slot := px(k);
    if tab[slot] != 0 {
      DuplicateIsCorrect(tab, names, x, p, nm);
    } else if nm == x {
      NewIsCorrect(tab, names, x, p, k);
    } else {
      OtherIsCorrect(tab, names, x, slot, p, nm);
    }
  }

  /** A name already listed changes no answer. */
  lemma DuplicateIsCorrect<N>(tab: seq<nat>, names: seq<N>, x: N, p: Probe, nm: N)
    requires InRange(tab, names) && Visits(p, |tab|) && Correct(tab, names, p, nm)
    requires nm == x ==> FirstIndex(names, x).Some?
    ensures Correct(tab, names + [x], p, nm)
  {
    var k: nat :| Answers(tab, names, p, nm, k);
    FirstIndexSnoc(names, x, nm);
    forall j: nat | j <= k ensures Stops(tab[p(j)], names + [x], nm) == Stops(tab[p(j)], names, nm) {
      StopsSnoc(tab[p(j)], names, x, nm);
    }
    assert Answers(tab, names + [x], p, nm, k);
  }

  lemma NewIsCorrect<N>(tab: seq<nat>, names: seq<N>, x: N, p: Probe, k: nat)
    requires InRange(tab, names) && Visits(p, |tab|) && Answers(tab, names, p, x, k) && tab[p(k)] == 0
    ensures InRange(tab[p(k) := |names| + 1], names + [x])
    ensures Correct(tab[p(k) := |names| + 1], names + [x], p, x)
  {
    var slot := p(k);
    var tab': seq<nat> := tab[slot := |names| + 1];
    FirstIndexSnoc(names, x, x);
    forall j: nat | j < k ensures !Stops(tab'[p(j)], names + [x], x) {
      assert !Stops(tab[p(j)], names, x);
    }
    assert Answers(tab', names + [x], p, x, k);
  }

  /** The slot just taken may lie on another name's path: that path goes on to the next stop. */
  lemma OtherIsCorrect<N>(tab: seq<nat>, names: seq<N>, x: N, slot: nat, p: Probe, nm: N)
    requires InRange(tab, names) && Visits(p, |tab|) && slot < |tab| && tab[slot] == 0 && nm != x
    requires Taken(tab) + 1 < |tab| && Correct(tab, names, p, nm)
    ensures InRange(tab[slot := |names| + 1], names + [x])
    ensures Correct(tab[slot := |names| + 1], names + [x], p, nm)
  {
    var k: nat :| Answers(tab, names, p, nm, k);
    if p(k) == slot {
      PathGoesOn(tab, names, x, slot, p, nm);
    } else {
      PathUnchanged(tab, names, x, slot, p, nm, k);
    }
  }

  lemma AbsentStops<N>(e: nat, names: seq<N>, nm: N)
    requires e <= |names| && Stops(e, names, nm) && FirstIndex(names, nm).None?
    ensures e == 0
  {
    assert forall i :: 0 <= i < |names| ==> names[i] != nm;
  }

  /** A name that is not listed is answered by the first empty slot. */
  lemma AbsentIsCorrect<N>(tab: seq<nat>, names: seq<N>, p: Probe, nm: N)
    requires InRange(tab, names) && Visits(p, |tab|) && Taken(tab) < |tab| && FirstIndex(names, nm).None?
    ensures Correct(tab, names, p, nm)
  {
    var k := ProbeStops(tab, names, p, nm);
    AbsentStops(tab[p(k)], names, nm);
    assert Answers(tab, names, p, nm, k);
  }

  lemma InRangeSet<N>(tab: seq<nat>, names: seq<N>, x: N, slot: nat)
    requires InRange(tab, names) && slot < |tab| && tab[slot] == 0
    ensures InRange(tab[slot := |names| + 1], names + [x])
    ensures Taken(tab[slot := |names| + 1]) == Taken(tab) + 1
  {
    OccupiedUpdate<nat>(tab, 0, slot, |names| + 1);
  }

  lemma PathGoesOn<N>(tab: seq<nat>, names: seq<N>, x: N, slot: nat, p: Probe, nm: N)
    requires InRange(tab, names) && Visits(p, |tab|) && slot < |tab| && tab[slot] == 0 && nm != x
    requires Taken(tab) + 1 < |tab| && FirstIndex(names, nm).None?
    ensures InRange(tab[slot := |names| + 1], names + [x])
    ensures Correct(tab[slot := |names| + 1], names + [x], p, nm)
  {
    InRangeSet(tab, names, x, slot);
    FirstIndexSnoc(names, x, nm);
    AbsentIsCorrect(tab[slot := |names| + 1], names + [x], p, nm);
  }

  lemma PathUnchanged<N>(tab: seq<nat>, names: seq<N>, x: N, slot: nat, p: Probe, nm: N, k: nat)
    requires InRange(tab, names) && Visits(p, |tab|) && slot < |tab| && tab[slot] == 0 && nm != x
    requires Answers(tab, names, p, nm, k) && p(k) != slot
    ensures InRange(tab[slot := |names| + 1], names + [x])
    ensures Correct(tab[slot := |names| + 1], names + [x], p, nm)
  {
    var tab': seq<nat> := tab[slot := |names| + 1];
    FirstIndexSnoc(names, x, nm);
    forall j: nat | j < k ensures !Stops(tab'[p(j)], names + [x], nm) {
      assert !Stops(tab[p(j)], names, nm);
    }
    assert Answers(tab', names + [x], p, nm, k);
  }

  class SymbolMap<N(==,!new)> {
    const hash: N -> nat
    var names: seq<N>
    var indices: seq<nat>
    var tab: array<nat>

    /** A power-of-two capacity, whose mask is a remainder, and at most half full, so every probe loop ends. */
    ghost predicate Valid()
      reads this, tab
    {
      && |indices| == |names|
      && (tab.Length == 0 ==> names == [])
      && (tab.Length > 0 ==> tab.Length >= 256 && IsPow2(tab.Length))
      && (tab.Length > 0 ==> Indexed(tab[..], names, hash) && 2 * |names| <= tab.Length)
    }

    constructor (hash: N -> nat)
      ensures Valid() && names == [] && indices == [] && this.hash == hash
    {
      this.hash := hash;
      names, indices := [], [];
      tab := new nat[0];
    }

    /** The probe loop shared by SYM_MAP_FIND and SYM_IDX_INSERT. */
    method Probe(nm: N, ghost listed: seq<N>) returns (slot: nat, ghost k: nat)
      requires tab.Length > 0 && listed <= names && InRange(tab[..], listed) && Taken(tab[..]) < tab.Length
      ensures Visits(ProbeOf(hash(nm), tab.Length), tab.Length)
      ensures StopsAt(tab[..], listed, ProbeOf(hash(nm), tab.Length), nm, k) && slot == At(hash(nm), k, tab.Length)
    {
      var h := hash(nm);
      ghost var t: seq<nat>, p := tab[..], ProbeOf(h, tab.Length);
      ProbeVisits(h, tab.Length);
      ghost var bound := ProbeStops(t, listed, p, nm);
      slot := h % tab.Length;
      k := 0;
      while tab[slot] != 0 && names[tab[slot] - 1] != nm
        invariant k <= bound && slot == At(h, k, tab.Length) && p(k) == slot
        invariant forall j: nat :: j < k ==> !Stops(t[p(j)], listed, nm)
        decreases bound - k
      {
        assert !Stops(t[p(k)], listed, nm);
        NextSlot(h, k, tab.Length);
        slot := (slot + 1) % tab.Length;
        k := k + 1;
      }
      assert t[slot] == tab[slot];
    }

    /** SYM_MAP_FIND returns what a linear first-match scan returns. */
    method Find(nm: N) returns (found: bool, out: nat)
      requires Valid()
      ensures found == FirstIndex(names, nm).Some?
      ensures out == if found then FirstIndex(names, nm).value else 0
    {
      found, out := false, 0;
      if tab.Length != 0 {
        HalfFull();
        var slot, k := Probe(nm, names);
        AnswerHere(nm, k);
        var e := tab[slot];
        if e != 0 { found, out := true, e - 1; }
      }
    }

    lemma HalfFull()
      requires Valid() && tab.Length > 0
      ensures Taken(tab[..]) < tab.Length
    {
      if 2 * |names| == tab.Length { assert Taken(tab[..]) <= |names|; }
    }

    lemma AnswerHere(nm: N, k: nat)
      requires Valid() && tab.Length > 0 && Visits(ProbeOf(hash(nm), tab.Length), tab.Length)
      requires StopsAt(tab[..], names, ProbeOf(hash(nm), tab.Length), nm, k)
      ensures Answers(tab[..], names, ProbeOf(hash(nm), tab.Length), nm, k)
    {
      var p := ProbeOf(hash(nm), tab.Length);
      assert CorrectAt(tab[..], names, hash, nm);
      var j: nat :| Answers(tab[..], names, p, nm, j);
      StopIsUnique(tab[..], names, p, nm, j, k);
    }

    /** SYM_IDX_INSERT(ix), with the first ix names already indexed. */
    method Insert(ix: nat)
      requires ix < |names| && tab.Length > 0
      requires Indexed(tab[..], names[..ix], hash) && 2 * (ix + 1) <= tab.Length
      modifies tab
      ensures Indexed(tab[..], names[..ix + 1], hash)
    {
      ghost var t: seq<nat>, before := tab[..], names[..ix];
      var slot, k := Probe(names[ix], before);
      InsertKeepsIndexed(t, before, names[ix], hash, ProbeOf(hash(names[ix]), tab.Length), k);
      assert before + [names[ix]] == names[..ix + 1];
      if tab[slot] == 0 {
        tab[slot] := ix + 1;
        assert tab[..] == Inserted(t, ix, slot);
      }
    }

    /** SYM_IDX_REBUILD. */
    method Rebuild()
      requires |indices| == |names| && names != [] && (tab.Length == 0 || (tab.Length >= 256 && IsPow2(tab.Length)))
      modifies `tab
      ensures Valid() && fresh(tab)
    {
      var newCap := if tab.Length != 0 then tab.Length * 2 else 256;
      FirstCapacitiesArePow2();
      if tab.Length != 0 { DoubleIsPow2(tab.Length); }
      while newCap < |names| * 2
        invariant newCap >= 256 && IsPow2(newCap)
        decreases |names| * 2 - newCap
      {
        DoubleIsPow2(newCap);
        newCap := newCap * 2;
      }
      tab := new nat[newCap](_ => 0);
      EmptyIsIndexed(tab[..], hash);
      assert names[..0] == [];
      var i := 0;
      while i < |names|
        invariant i <= |names| && fresh(tab) && tab.Length == newCap
        invariant Indexed(tab[..], names[..i], hash)
      {
        Insert(i);
        i := i + 1;
      }
      assert names[..|names|] == names;
    }

    /** SYM_MAP_ADD. */
    method Add(nm: N, ix: nat)
      requires Valid()
      modifies this, tab
      ensures Valid() && (tab == old(tab) || fresh(tab))
      ensures names == old(names) + [nm] && indices == old(indices) + [ix]
    {
      names := names + [nm];
      indices := indices + [ix];
      var n := |names|;
      assert names[..n - 1] == old(names);
      if n * 2 >= tab.Length {
        Rebuild();
      } else {
        Insert(n - 1);
        assert names[..n] == names;
      }
    }
  }
}
