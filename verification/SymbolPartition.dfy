/** The symbol-table partition of src/b2obj.c: ELF wants local symbols first, so the table is stably
    partitioned and the indices held by the symbol map are remapped. */
module SymbolPartition {

  datatype Symbol = Symbol(name: nat, isLocal: bool)

  /** How many of the symbols are local. */
  function Locals(s: seq<Symbol>): (n: nat)
    ensures n <= |s|
  {
    if s == [] then 0 else Locals(s[..|s| - 1]) + (if s[|s| - 1].isLocal then 1 else 0)
  }

  /** Where symbol i goes: locals keep their order at the front, the others keep theirs behind. */
  function NewIndex(s: seq<Symbol>, i: nat): nat
    requires i < |s|
  {
    if s[i].isLocal then Locals(s[..i]) else Locals(s) + (i - Locals(s[..i]))
  }

  lemma LocalsStep(s: seq<Symbol>, i: nat)
    requires i < |s|
    ensures Locals(s[..i + 1]) == Locals(s[..i]) + (if s[i].isLocal then 1 else 0)
  {
    assert s[..i + 1][..i] == s[..i];
  }

  /** Both counts grow with the prefix, and by no more than its length. */
  lemma {:induction false} LocalsMonotone(s: seq<Symbol>, i: nat, j: nat)
    requires i <= j <= |s|
    ensures 0 <= Locals(s[..j]) - Locals(s[..i]) <= j - i
    decreases j - i
  {
    if i < j {
      LocalsMonotone(s, i, j - 1);
      LocalsStep(s, j - 1);
    }
  }

  lemma LocalsBetween(s: seq<Symbol>, i: nat, j: nat)
    requires i < j <= |s|
    ensures (if s[i].isLocal then 1 else 0) <= Locals(s[..j]) - Locals(s[..i])
    ensures Locals(s[..j]) - Locals(s[..i]) <= (if s[i].isLocal then 1 else 0) + j - i - 1
  {
    LocalsStep(s, i);
    LocalsMonotone(s, i + 1, j);
  }

  lemma LocalsAfter(s: seq<Symbol>, i: nat)
    requires i < |s|
    ensures (if s[i].isLocal then 1 else 0) <= Locals(s) - Locals(s[..i])
    ensures Locals(s) - Locals(s[..i]) <= (if s[i].isLocal then 1 else 0) + |s| - i - 1
    ensures Locals(s[..i]) <= i
  {
    LocalsBetween(s, i, |s|);
    assert s[..|s|] == s;
  }

  /** The remap is a stable bijection onto the positions of the table, locals first: distinct symbols
      get distinct places, order within each class is kept, and the first non-local place is the
      number of locals. */
  lemma NewIndexIsStable(s: seq<Symbol>, i: nat, j: nat)
    requires i < j < |s|
    ensures NewIndex(s, i) < |s| && NewIndex(s, j) < |s| && NewIndex(s, i) != NewIndex(s, j)
    ensures s[i].isLocal == s[j].isLocal ==> NewIndex(s, i) < NewIndex(s, j)
    ensures s[i].isLocal && !s[j].isLocal ==> NewIndex(s, i) < Locals(s) <= NewIndex(s, j)
    ensures !s[i].isLocal && s[j].isLocal ==> NewIndex(s, j) < Locals(s) <= NewIndex(s, i)
  {
    LocalsBetween(s, i, j);
    LocalsAfter(s, i);
    LocalsAfter(s, j);
    Places(s[i].isLocal, s[j].isLocal, i, j, Locals(s[..i]), Locals(s[..j]), Locals(s), |s|);
  }

  /** The arithmetic of two places, from the counts of locals before i, before j and in all. */
  lemma Places(li: bool, lj: bool, i: nat, j: nat, ci: nat, cj: nat, all: nat, n: nat)
    requires i < j < n && (if li then 1 else 0) <= cj - ci <= (if li then 1 else 0) + j - i - 1
    requires ci <= i && cj <= j && (if lj then 1 else 0) <= all - cj <= (if lj then 1 else 0) + n - j - 1
    ensures var p := if li then ci else all + (i - ci); var q := if lj then cj else all + (j - cj);
            && p < n && q < n && p != q
            && (li == lj ==> p < q)
            && (li && !lj ==> p < all <= q)
            && (!li && lj ==> q < all <= p)
  {
  }

  lemma NewIndexInRange(s: seq<Symbol>, i: nat)
    requires i < |s|
    ensures NewIndex(s, i) < |s| && (NewIndex(s, i) < Locals(s) <==> s[i].isLocal)
  {
    LocalsAfter(s, i);
  }

  /** Symbol j has been copied to its place. */
  ghost predicate Placed(s: seq<Symbol>, o: seq<nat>, t: seq<Symbol>, j: nat)
    requires j < |s| == |o| == |t|
  {
    o[j] == NewIndex(s, j) && o[j] < |t| && t[o[j]] == s[j]
  }

  ghost predicate AllPlaced(s: seq<Symbol>, o: seq<nat>, t: seq<Symbol>, locals: bool, n: nat)
    requires n <= |s| == |o| == |t|
  {
    forall j :: 0 <= j < n && s[j].isLocal == locals ==> Placed(s, o, t, j)
  }

  /** Placing symbol i disturbs no other. */
  lemma PlaceOne(s: seq<Symbol>, o: seq<nat>, t: seq<Symbol>, i: nat, o': seq<nat>, t': seq<Symbol>, locals: bool,
                 n: nat)
    requires i < |s| == |o| == |t| && n <= |s| && NewIndex(s, i) < |s|
    requires o' == o[i := NewIndex(s, i)] && t' == t[NewIndex(s, i) := s[i]]
    requires AllPlaced(s, o, t, locals, n)
    ensures AllPlaced(s, o', t', locals, n) && Placed(s, o', t', i)
  {
    forall j | 0 <= j < n && s[j].isLocal == locals ensures Placed(s, o', t', j) {
      assert Placed(s, o, t, j);
      if j < i { NewIndexIsStable(s, j, i); }
      if i < j { NewIndexIsStable(s, i, j); }
    }
  }

  /** One pass over the table, copying the symbols of one class to their places. */
  method Pass(symtab: array<Symbol>, sorted: array<Symbol>, oldToNew: array<nat>, locals: bool, start: nat)
    returns (out: nat)
    requires sorted.Length == oldToNew.Length == symtab.Length && symtab != sorted
    requires start == if locals then 0 else Locals(symtab[..])
    modifies sorted, oldToNew
    ensures out == start + if locals then Locals(symtab[..]) else symtab.Length - Locals(symtab[..])
    ensures AllPlaced(symtab[..], oldToNew[..], sorted[..], locals, symtab.Length)
    ensures AllPlaced(old(symtab[..]), old(oldToNew[..]), old(sorted[..]), !locals, symtab.Length) ==>
            AllPlaced(symtab[..], oldToNew[..], sorted[..], !locals, symtab.Length)
  {
    ghost var s, n := symtab[..], symtab.Length;
    ghost var others := AllPlaced(s, oldToNew[..], sorted[..], !locals, n);
    out := start;
    var i := 0;
    while i < symtab.Length
      invariant i <= n && symtab[..] == s
      invariant out == start + if locals then Locals(s[..i]) else i - Locals(s[..i])
      invariant AllPlaced(s, oldToNew[..], sorted[..], locals, i)
      invariant others ==> AllPlaced(s, oldToNew[..], sorted[..], !locals, n)
    {
      LocalsStep(s, i);
      if symtab[i].isLocal == locals {
        NewIndexInRange(s, i);
        Store(symtab, sorted, oldToNew, i, out);
        out := out + 1;
      }
      i := i + 1;
    }
    assert s[..n] == s;
  }

  /** Copy symbol i to place `out`. */
  method Store(symtab: array<Symbol>, sorted: array<Symbol>, oldToNew: array<nat>, i: nat, out: nat)
    requires i < symtab.Length == oldToNew.Length == sorted.Length && symtab != sorted
    requires out == NewIndex(symtab[..], i) < sorted.Length
    modifies sorted, oldToNew
    ensures forall locals, n |
              0 <= n <= symtab.Length && old(AllPlaced(symtab[..], oldToNew[..], sorted[..], locals, n)) ::
              AllPlaced(symtab[..], oldToNew[..], sorted[..], locals, n)
    ensures Placed(symtab[..], oldToNew[..], sorted[..], i)
  {
    ghost var s, o: seq<nat>, t: seq<Symbol> := symtab[..], oldToNew[..], sorted[..];
    oldToNew[i] := out;
    sorted[out] := symtab[i];
    ghost var o': seq<nat>, t': seq<Symbol> := oldToNew[..], sorted[..];
    assert symtab[..] == s && o' == o[i := out] && t' == t[out := s[i]];
    PlaceOne(s, o, t, i, o', t', true, 0);
    forall locals, n: nat | n <= |s| && AllPlaced(s, o, t, locals, n) ensures AllPlaced(s, o', t', locals, n) {
      PlaceOne(s, o, t, i, o', t', locals, n);
    }
  }

  /** The partition: the table becomes its stable partition, `firstGlobal` the number of locals, and
      every entry of the symbol map still denotes the symbol it denoted. */
  method Partition(symtab: array<Symbol>, mapIdx: array<nat>) returns (firstGlobal: nat)
    requires forall m :: 0 <= m < mapIdx.Length ==> mapIdx[m] < symtab.Length
    modifies symtab, mapIdx
    ensures firstGlobal == Locals(old(symtab[..]))
    ensures forall i :: 0 <= i < symtab.Length ==>
      var p := NewIndex(old(symtab[..]), i); p < symtab.Length && symtab[p] == old(symtab[..])[i]
    ensures forall m :: 0 <= m < mapIdx.Length ==> mapIdx[m] == NewIndex(old(symtab[..]), old(mapIdx[..])[m])
    ensures forall m :: 0 <= m < mapIdx.Length ==>
      mapIdx[m] < symtab.Length && symtab[mapIdx[m]] == old(symtab[..])[old(mapIdx[..])[m]]
  {
    ghost var s := symtab[..];
    var sorted, oldToNew;
    sorted, oldToNew, firstGlobal := BuildMaps(symtab);
    ghost var o: seq<nat>, t: seq<Symbol>, idx: seq<nat> := oldToNew[..], sorted[..], mapIdx[..];
    RemapIndices(mapIdx, oldToNew);
    CopyBack(symtab, sorted);
    forall i | 0 <= i < symtab.Length
      ensures NewIndex(s, i) < |t| && t[NewIndex(s, i)] == s[i] && o[i] == NewIndex(s, i)
    {
      assert Placed(s, o, t, i);
    }
    assert symtab[..] == t;
    assert forall m :: 0 <= m < mapIdx.Length ==> mapIdx[m] == o[idx[m]];
  }

  /** Both passes. */
  method BuildMaps(symtab: array<Symbol>) returns (sorted: array<Symbol>, oldToNew: array<nat>, firstGlobal: nat)
    ensures fresh(sorted) && fresh(oldToNew) && sorted.Length == oldToNew.Length == symtab.Length
    ensures firstGlobal == Locals(symtab[..])
    ensures forall i :: 0 <= i < symtab.Length ==> Placed(symtab[..], oldToNew[..], sorted[..], i)
  {
    ghost var s := symtab[..];
    var n := symtab.Length;
    sorted := new Symbol[n](_ => Symbol(0, false));
    oldToNew := new nat[n](_ => 0);
    firstGlobal := Pass(symtab, sorted, oldToNew, true, 0);
    var _ := Pass(symtab, sorted, oldToNew, false, firstGlobal);
    forall i | 0 <= i < n ensures Placed(s, oldToNew[..], sorted[..], i) {
      assert s[i].isLocal == true || s[i].isLocal == false;
    }
  }

  method RemapIndices(mapIdx: array<nat>, oldToNew: array<nat>)
    requires mapIdx != oldToNew
    requires forall m :: 0 <= m < mapIdx.Length ==> mapIdx[m] < oldToNew.Length
    modifies mapIdx
    ensures forall m :: 0 <= m < mapIdx.Length ==> mapIdx[m] == oldToNew[old(mapIdx[m])]
  {
    var m := 0;
    while m < mapIdx.Length
      invariant m <= mapIdx.Length
      invariant forall k :: 0 <= k < m ==> mapIdx[k] == oldToNew[old(mapIdx[k])]
      invariant forall k :: m <= k < mapIdx.Length ==> mapIdx[k] == old(mapIdx[k])
    {
      mapIdx[m] := oldToNew[mapIdx[m]];
      m := m + 1;
    }
  }

  /** The final memcpy. */
  method CopyBack(symtab: array<Symbol>, sorted: array<Symbol>)
    requires symtab.Length == sorted.Length && symtab != sorted
    modifies symtab
    ensures symtab[..] == old(sorted[..])
  {
    forall i | 0 <= i < symtab.Length { symtab[i] := sorted[i]; }
  }
}
