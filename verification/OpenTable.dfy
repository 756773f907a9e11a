/** The index table of Map<K, V> seen as a plain sequence.

    An entry is the dense index of a live key, EMPTY (never used since the last rehash) or TOMB
    (a removed key).  `ks` lists the contents of the dense keys. */
module OpenTable {
  import opened Modular
  import opened Occupancy
  import opened ProbeSequence

  const EMPTY := -1
  const TOMB := -2

  ghost predicate Repeats<T>(s: seq<T>, i: int, j: int) {
    0 <= i < j < |s| && s[i] == s[j]
  }

  ghost predicate Distinct<C>(ks: seq<C>) {
    forall i, j :: !Repeats(ks, i, j)
  }

  /** No two slots name the same dense index. */
  ghost predicate Unique(t: seq<int>) {
    forall s, s' :: Repeats(t, s, s') ==> t[s] < 0
  }

  ghost predicate NoEmptyBefore(t: seq<int>, h: nat, k: nat)
    requires |t| > 0
  {
    forall j: nat {:trigger Probe(h, j, |t|)} :: j < k ==> t[Probe(h, j, |t|)] != EMPTY
  }

  ghost predicate ReachedAt(t: seq<int>, h: nat, k: nat, s: nat)
    requires |t| > 0
  {
    Probe(h, k, |t|) == s && NoEmptyBefore(t, h, k)
  }

  ghost predicate Reachable(t: seq<int>, h: nat, s: nat)
    requires |t| > 0
  {
    exists k: nat :: ReachedAt(t, h, k, s)
  }

  /** Distinct and Unique spelled out pair by pair (the predicates themselves keep the pairs folded). */
  lemma DistinctPairs<C>(ks: seq<C>)
    ensures Distinct(ks) <==> forall i, j :: 0 <= i < j < |ks| ==> ks[i] != ks[j]
  {
    if Distinct(ks) {
      forall i, j | 0 <= i < j < |ks| ensures ks[i] != ks[j] { assert !Repeats(ks, i, j); }
    }
  }

  lemma UniquePairs(t: seq<int>)
    ensures Unique(t) <==> forall s, s' :: 0 <= s < s' < |t| && t[s] >= 0 ==> t[s] != t[s']
  {
    if Unique(t) {
      forall s, s' | 0 <= s < s' < |t| && t[s] >= 0 ensures t[s] != t[s'] {
        assert Repeats(t, s, s') <==> t[s] == t[s'];
      }
    }
  }

  /** What holds at every moment, including in the middle of a rehash when some dense keys have not
      been entered yet: entries are in range, no two slots name the same key, and every live entry
      is reached from its home slot without meeting an EMPTY one. */
  ghost predicate Sound<C(!new)>(t: seq<int>, ks: seq<C>, hash: C -> nat) {
    && IsPow2(|t|)
    && (forall s :: 0 <= s < |t| ==> TOMB <= t[s] < |ks|)
    && Unique(t)
    && (forall s {:trigger Reachable(t, hash(ks[t[s]]), s)} ::
          0 <= s < |t| && t[s] >= 0 ==> Reachable(t, hash(ks[t[s]]), s))
  }

  /** Every dense index is entered; with Sound this makes live entries a bijection onto [0, |ks|). */
  ghost predicate Complete(t: seq<int>, n: nat) {
    forall i :: 0 <= i < n ==> i in t
  }

  /** The invariant of every map between two operations. */
  ghost predicate Indexed<C(!new)>(t: seq<int>, ks: seq<C>, hash: C -> nat, used: nat) {
    && Distinct(ks)
    && Sound(t, ks, hash)
    && Complete(t, |ks|)
    && used == Occupied(t, EMPTY)
    && used * 10 < |t| * 7
    && |t| >= 16
  }

  /** The first slot on the probe path of `h` whose entry is not live. */
  ghost predicate FirstFree(t: seq<int>, h: nat, slot: nat)
    requires |t| > 0
  {
    slot < |t| && t[slot] < 0 &&
    exists k: nat :: Probe(h, k, |t|) == slot && forall j: nat :: j < k ==> t[Probe(h, j, |t|)] >= 0
  }

  /** The outcome of find_slot: the slot of the key if it is entered, otherwise the first free slot
      (EMPTY or a tombstone to reuse) on its probe path. */
  ghost predicate Located<C(!new)>(t: seq<int>, ks: seq<C>, hash: C -> nat, c: C, slot: nat)
    requires |t| > 0 && forall s :: 0 <= s < |t| ==> TOMB <= t[s] < |ks|
  {
    && slot < |t|
    && (t[slot] >= 0 ==> ks[t[slot]] == c)
    && (t[slot] < 0 ==> FirstFree(t, hash(c), slot) &&
                        forall s :: 0 <= s < |t| && t[s] >= 0 ==> ks[t[s]] != c)
  }

  /** The key decides the slot: of two slots that satisfy Located, both are the same one. */
  lemma LocatedIsUnique<C(!new)>(t: seq<int>, ks: seq<C>, hash: C -> nat, c: C, a: nat, b: nat)
    requires Sound(t, ks, hash) && Distinct(ks)
    requires Located(t, ks, hash, c, a) && Located(t, ks, hash, c, b)
    ensures a == b
  {
    UniquePairs(t);
    DistinctPairs(ks);
    if t[a] < 0 && t[b] < 0 {
      var h := hash(c);
      var i: nat :| Probe(h, i, |t|) == a && forall j: nat :: j < i ==> t[Probe(h, j, |t|)] >= 0;
      var k: nat :| Probe(h, k, |t|) == b && forall j: nat :: j < k ==> t[Probe(h, j, |t|)] >= 0;
      assert i == k;
    }
  }

  /** A live entry is met before any EMPTY slot on its own probe path. */
  lemma AbsentAtEmpty<C(!new)>(t: seq<int>, ks: seq<C>, hash: C -> nat, c: C, n: nat)
    requires Sound(t, ks, hash)
    requires t[Probe(hash(c), n, |t|)] == EMPTY
    requires forall j: nat :: j < n ==>
      var e := t[Probe(hash(c), j, |t|)]; e >= 0 ==> ks[e] != c
    ensures forall s :: 0 <= s < |t| && t[s] >= 0 ==> ks[t[s]] != c
  {
    forall s | 0 <= s < |t| && t[s] >= 0 ensures ks[t[s]] != c {
      assert Reachable(t, hash(ks[t[s]]), s);
      var k: nat :| ReachedAt(t, hash(ks[t[s]]), k, s);
    }
  }

  /** Writing anything but EMPTY keeps every slot reachable. */
  lemma StillReachable(t: seq<int>, t': seq<int>, h: nat, s: nat)
    requires |t| == |t'| > 0
    requires forall i :: 0 <= i < |t| && t[i] != EMPTY ==> t'[i] != EMPTY
    requires Reachable(t, h, s)
    ensures Reachable(t', h, s)
  {
    var k: nat :| ReachedAt(t, h, k, s);
    assert ReachedAt(t', h, k, s);
  }

  lemma EnterUnique(t: seq<int>, slot: nat, idx: nat)
    requires Unique(t) && slot < |t| && idx !in t
    ensures Unique(t[slot := idx])
  {
    UniquePairs(t);
    UniquePairs(t[slot := idx]);
  }

  /** Entering a key that is not in the table at the slot find_slot returned for it. */
  lemma Enter<C(!new)>(t: seq<int>, ks: seq<C>, hash: C -> nat, slot: nat, idx: nat)
    requires Sound(t, ks, hash) && idx < |ks| && idx !in t
    requires FirstFree(t, hash(ks[idx]), slot)
    ensures Sound(t[slot := idx], ks, hash)
    ensures forall i :: 0 <= i && i != idx ==> (i in t[slot := idx] <==> i in t)
  {
    var t' := t[slot := idx];
    var h := hash(ks[idx]);
    EnterUnique(t, slot, idx);
    assert Reachable(t', h, slot) by {
      var k: nat :| Probe(h, k, |t|) == slot && forall j: nat :: j < k ==> t[Probe(h, j, |t|)] >= 0;
      assert ReachedAt(t', h, k, slot);
    }
    forall s | 0 <= s < |t'| && t'[s] >= 0 ensures Reachable(t', hash(ks[t'[s]]), s) {
      if s != slot { StillReachable(t, t', hash(ks[t[s]]), s); }
    }
    forall i | 0 <= i && i != idx && i in t ensures i in t' {
      var s :| 0 <= s < |t| && t[s] == i;
      assert t'[s] == i;
    }
  }

  /** A key appended to the dense array is not entered yet and disturbs no entry. */
  lemma Extend<C(!new)>(t: seq<int>, ks: seq<C>, hash: C -> nat, c: C)
    requires Sound(t, ks, hash)
    ensures Sound(t, ks + [c], hash) && |ks| !in t
  {
    forall s | 0 <= s < |t| && t[s] >= 0 ensures Reachable(t, hash((ks + [c])[t[s]]), s) {
      assert (ks + [c])[t[s]] == ks[t[s]];
    }
  }

  function SwapRemove<T>(s: seq<T>, i: nat): (r: seq<T>)
    requires i < |s|
    ensures |r| == |s| - 1
    ensures forall j :: 0 <= j < |r| ==> r[j] == if j == i then s[|s| - 1] else s[j]
  {
    s[i := s[|s| - 1]][..|s| - 1]
  }

  /** t' is t after the entry of the last key was repointed to `idx` (when that is another slot) and
      `slot`, which held `idx`, became a tombstone. */
  ghost predicate Unentered(t: seq<int>, t': seq<int>, slot: nat, moved: nat) {
    && |t'| == |t| && slot < |t| && moved < |t|
    && t'[slot] == TOMB
    && (moved != slot ==> t'[moved] == t[slot])
    && forall s :: 0 <= s < |t| && s != slot && s != moved ==> t'[s] == t[s]
  }

  lemma UnenterUnique(t: seq<int>, t': seq<int>, slot: nat, moved: nat)
    requires Unique(t) && Unentered(t, t', slot, moved) && t[slot] >= 0 && t[moved] >= 0
    ensures Unique(t')
  {
    UniquePairs(t);
    UniquePairs(t');
  }

  /** Every surviving entry still names the key it named before. */
  lemma UnenterEntry<C>(t: seq<int>, t': seq<int>, ks: seq<C>, slot: nat, moved: nat, s: nat)
    requires Unique(t) && Unentered(t, t', slot, moved)
    requires 0 <= t[slot] < |ks| && t[moved] == |ks| - 1
    requires s < |t| && t'[s] >= 0 && t[s] < |ks|
    ensures 0 <= t[s] && t'[s] < |ks| - 1
    ensures SwapRemove(ks, t[slot])[t'[s]] == ks[t[s]]
  {
    UniquePairs(t);
  }

  lemma UnenterSound<C(!new)>(t: seq<int>, t': seq<int>, ks: seq<C>, hash: C -> nat, slot: nat, moved: nat)
    requires Sound(t, ks, hash)
    requires Unentered(t, t', slot, moved) && t[slot] >= 0 && t[moved] == |ks| - 1
    ensures Sound(t', SwapRemove(ks, t[slot]), hash)
  {
    var ks' := SwapRemove(ks, t[slot]);
    UnenterUnique(t, t', slot, moved);
    forall s | 0 <= s < |t'| ensures t'[s] < |ks'| && (t'[s] >= 0 ==> Reachable(t', hash(ks'[t'[s]]), s)) {
      if t'[s] >= 0 {
        UnenterEntry(t, t', ks, slot, moved, s);
        StillReachable(t, t', hash(ks[t[s]]), s);
      }
    }
  }

  lemma UnenterComplete(t: seq<int>, t': seq<int>, n: nat, slot: nat, moved: nat)
    requires Unentered(t, t', slot, moved) && Complete(t, n + 1) && 0 <= t[slot] <= n && t[moved] == n
    ensures Complete(t', n)
  {
    forall i | 0 <= i < n ensures i in t' {
      assert i in t;
      var s :| 0 <= s < |t| && t[s] == i;
      assert if s == slot then t'[moved] == i else t'[s] == i;
    }
  }

  lemma UnenterCount(t: seq<int>, slot: nat, moved: nat, idx: nat)
    requires slot < |t| && moved < |t| && t[slot] >= 0 && t[moved] >= 0
    ensures Occupied(t[moved := idx][slot := TOMB], EMPTY) == Occupied(t, EMPTY)
  {
    OccupiedUpdate(t, EMPTY, moved, idx);
    OccupiedUpdate(t[moved := idx], EMPTY, slot, TOMB);
  }

  /** Below the load limit there is an EMPTY slot, so a probe loop ends. */
  lemma HasRoom<C(!new)>(t: seq<int>, ks: seq<C>, hash: C -> nat, used: nat)
    requires Indexed(t, ks, hash, used)
    ensures EMPTY in t
  {
    HasFree(t, EMPTY);
  }

  /** At the located slot the table tells whether the key is stored. */
  lemma LocatedMeans<C(!new)>(t: seq<int>, ks: seq<C>, hash: C -> nat, used: nat, c: C, slot: nat)
    requires Indexed(t, ks, hash, used) && Located(t, ks, hash, c, slot)
    ensures t[slot] >= 0 <==> c in ks
  {
    if c in ks {
      var i :| 0 <= i < |ks| && ks[i] == c;
      assert i in t;
    }
  }

  lemma IndexedInsert<C(!new)>(t: seq<int>, ks: seq<C>, hash: C -> nat, used: nat, c: C, slot: nat)
    requires Indexed(t, ks, hash, used) && (used + 1) * 10 < |t| * 7
    requires Located(t, ks, hash, c, slot) && t[slot] < 0
    ensures c !in ks
    ensures Indexed(t[slot := |ks|], ks + [c], hash, if t[slot] == EMPTY then used + 1 else used)
  {
    LocatedMeans(t, ks, hash, used, c, slot);
    DistinctPairs(ks);
    DistinctPairs(ks + [c]);
    Extend(t, ks, hash, c);
    Enter(t, ks + [c], hash, slot, |ks|);
    OccupiedUpdate(t, EMPTY, slot, |ks|);
    var t' := t[slot := |ks|];
    assert t'[slot] == |ks|;
    forall i | 0 <= i <= |ks| ensures i in t' {
      if i < |ks| { assert i in t; }
    }
  }

  lemma IndexedRemove<C(!new)>(t: seq<int>, ks: seq<C>, hash: C -> nat, used: nat, slot: nat, moved: nat)
    requires Indexed(t, ks, hash, used)
    requires slot < |t| && t[slot] >= 0 && moved < |t| && t[moved] == |ks| - 1
    ensures Indexed(t[moved := t[slot]][slot := TOMB], SwapRemove(ks, t[slot]), hash, used)
  {
    var t' := t[moved := t[slot]][slot := TOMB];
    DistinctPairs(ks);
    DistinctPairs(SwapRemove(ks, t[slot]));
    UnenterSound(t, t', ks, hash, slot, moved);
    UnenterComplete(t, t', |ks| - 1, slot, moved);
    UnenterCount(t, slot, moved, t[slot]);
  }

  /** Every dense index has its slot. */
  lemma EntryExists<C(!new)>(t: seq<int>, ks: seq<C>, hash: C -> nat, used: nat, i: nat)
    requires Indexed(t, ks, hash, used) && i < |ks|
    ensures i in t
  {
  }

  /** The new table `t` while the live entries of `o[..i]` have been moved into it. */
  ghost predicate Rehashing<C(!new)>(t: seq<int>, o: seq<int>, i: nat, ks: seq<C>, hash: C -> nat, used: nat) {
    && i <= |o| && |t| == 2 * |o|
    && Sound(t, ks, hash)
    && (forall s :: 0 <= s < |t| ==> t[s] != TOMB)
    && (forall d :: 0 <= d ==> (d in t <==> d in o[..i]))
    && used == Occupied(t, EMPTY) <= Occupied(o[..i], EMPTY)
  }

  lemma RehashStart<C(!new)>(t: seq<int>, o: seq<int>, ks: seq<C>, hash: C -> nat, used: nat)
    requires Indexed(o, ks, hash, used) && |t| == 2 * |o| && forall s :: 0 <= s < |t| ==> t[s] == EMPTY
    ensures Rehashing(t, o, 0, ks, hash, 0)
  {
    DoubleIsPow2(|o|);
    AllFree(t, EMPTY);
  }

  lemma RehashRoom<C(!new)>(t: seq<int>, o: seq<int>, i: nat, ks: seq<C>, hash: C -> nat, used: nat)
    requires Rehashing(t, o, i, ks, hash, used) && o != []
    ensures EMPTY in t
  {
    OccupiedPrefix(o, EMPTY, i);
    HasFree(t, EMPTY);
  }

  lemma PrefixGrows(o: seq<int>, i: nat)
    requires i < |o|
    ensures Occupied(o[..i + 1], EMPTY) == Occupied(o[..i], EMPTY) + (if o[i] != EMPTY then 1 else 0)
    ensures forall d :: d in o[..i + 1] <==> d in o[..i] || d == o[i]
  {
    assert o[..i + 1] == o[..i] + [o[i]];
    assert o[..i + 1][..i] == o[..i];
  }

  lemma RehashSkip<C(!new)>(t: seq<int>, o: seq<int>, i: nat, ks: seq<C>, hash: C -> nat, used: nat)
    requires Rehashing(t, o, i, ks, hash, used) && i < |o| && o[i] < 0
    ensures Rehashing(t, o, i + 1, ks, hash, used)
  {
    PrefixGrows(o, i);
  }

  /** A live entry of the old table is met once. */
  lemma NotYetMoved(o: seq<int>, i: nat)
    requires i < |o| && o[i] >= 0
    requires Unique(o)
    ensures o[i] !in o[..i]
  {
    UniquePairs(o);
  }

  /** The rehash may use find_slot: the key it looks up is not entered yet. */
  lemma RehashLocated<C(!new)>(t: seq<int>, ks: seq<C>, hash: C -> nat, d: nat, slot: nat)
    requires Sound(t, ks, hash) && Distinct(ks) && d < |ks| && d !in t
    requires Located(t, ks, hash, ks[d], slot)
    ensures t[slot] < 0
  {
    DistinctPairs(ks);
    assert slot < |t| && t[slot] in t;
  }

  lemma RehashMove<C(!new)>(t: seq<int>, o: seq<int>, i: nat, ks: seq<C>, hash: C -> nat, used: nat, slot: nat)
    requires Rehashing(t, o, i, ks, hash, used) && i < |o| && 0 <= o[i] < |ks|
    requires Distinct(ks) && Sound(o, ks, hash)
    requires Located(t, ks, hash, ks[o[i]], slot)
    ensures t[slot] == EMPTY
    ensures Rehashing(t[slot := o[i]], o, i + 1, ks, hash, used + 1)
  {
    var d := o[i];
    NotYetMoved(o, i);
    RehashLocated(t, ks, hash, d, slot);
    PrefixGrows(o, i);
    Enter(t, ks, hash, slot, d);
    OccupiedUpdate(t, EMPTY, slot, d);
    var t' := t[slot := d];
    assert t'[slot] == d;
    forall e | 0 <= e ensures e in t' <==> e in o[..i + 1] {
      if e != d { assert e in t' <==> e in t; }
    }
  }

  lemma RehashEnd<C(!new)>(t: seq<int>, o: seq<int>, ks: seq<C>, hash: C -> nat, usedBefore: nat, used: nat)
    requires Indexed(o, ks, hash, usedBefore) && Rehashing(t, o, |o|, ks, hash, used)
    ensures Indexed(t, ks, hash, used) && used <= usedBefore && (used + 1) * 10 < |t| * 7
  {
    assert o[..|o|] == o;
  }
}
