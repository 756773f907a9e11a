/** List<T>.Sort of include/list.h: Shell sort with halving gaps, in place, under a caller's
    comparison function. */
module ShellSort {

  ghost predicate Above<T>(cmp: (T, T) -> int, a: T, b: T) {
    cmp(a, b) > 0
  }

  ghost predicate Chain<T>(cmp: (T, T) -> int, a: T, b: T, c: T) {
    cmp(a, b) <= 0 && cmp(b, c) <= 0
  }

  /** What Sort asks of `cmp`: its sign is a total preorder. */
  ghost predicate Ordering<T(!new)>(cmp: (T, T) -> int) {
    && (forall a, b :: Above(cmp, a, b) ==> cmp(b, a) <= 0)
    && (forall a, b, c :: Chain(cmp, a, b, c) ==> cmp(a, c) <= 0)
  }

  ghost predicate Sorted<T>(cmp: (T, T) -> int, s: seq<T>) {
    forall i, j :: 0 <= i < j < |s| ==> cmp(s[i], s[j]) <= 0
  }

  ghost function Occurrences<T>(s: seq<T>, x: T): nat {
    multiset(s)[x]
  }

  ghost predicate SameElements<T(!new)>(s: seq<T>, s': seq<T>) {
    forall x :: Occurrences(s, x) == Occurrences(s', x)
  }

  lemma SameElementsMeans<T(!new)>(s: seq<T>, s': seq<T>)
    ensures SameElements(s, s') <==> multiset(s) == multiset(s')
  {
    if SameElements(s, s') {
      forall x ensures multiset(s)[x] == multiset(s')[x] {
        assert Occurrences(s, x) == Occurrences(s', x);
      }
    }
  }

  ghost predicate InOrderAt<T>(cmp: (T, T) -> int, s: seq<T>, gap: int, k: int) {
    0 < gap <= k < |s| && cmp(s[k - gap], s[k]) <= 0
  }

  /** Elements `gap` apart among the first n are in order. */
  ghost predicate GapSorted<T>(cmp: (T, T) -> int, s: seq<T>, gap: int, n: int)
    requires 0 < gap && n <= |s|
  {
    forall k :: gap <= k < n ==> InOrderAt(cmp, s, gap, k)
  }

  lemma {:induction false} GapOneSorts<T(!new)>(cmp: (T, T) -> int, s: seq<T>, i: nat, j: nat)
    requires Ordering(cmp) && GapSorted(cmp, s, 1, |s|) && i < j < |s|
    ensures cmp(s[i], s[j]) <= 0
    decreases j - i
  {
    assert InOrderAt(cmp, s, 1, j);
    if i < j - 1 {
      GapOneSorts(cmp, s, i, j - 1);
      assert Chain(cmp, s[i], s[j - 1], s[j]);
    }
  }

  lemma GapOneIsSorted<T(!new)>(cmp: (T, T) -> int, s: seq<T>)
    requires Ordering(cmp) && (|s| <= 1 || GapSorted(cmp, s, 1, |s|))
    ensures Sorted(cmp, s)
  {
    forall i, j | 0 <= i < j < |s| ensures cmp(s[i], s[j]) <= 0 { GapOneSorts(cmp, s, i, j); }
  }

  /** One insertion: the prefix [0, i) is gap-sorted, `tmp` is the element taken out of position i,
      and j walks down in steps of `gap`. */
  ghost predicate Inserting<T>(cmp: (T, T) -> int, s: seq<T>, gap: int, i: int, j: int, tmp: T) {
    && 0 < gap && 0 <= j <= i < |s| && (j < i ==> j + gap <= i)
    && (forall k :: gap <= k <= i && k != j && k != j + gap ==> InOrderAt(cmp, s, gap, k))
    && (j < i ==> cmp(tmp, s[j + gap]) <= 0)
    && (j < i && gap <= j ==> cmp(s[j - gap], s[j + gap]) <= 0)
  }

  lemma InsertStep<T(!new)>(cmp: (T, T) -> int, s: seq<T>, gap: int, i: int, j: int, tmp: T)
    requires Ordering(cmp) && Inserting(cmp, s, gap, i, j, tmp)
    requires j >= gap && cmp(s[j - gap], tmp) > 0
    ensures Inserting(cmp, s[j := s[j - gap]], gap, i, j - gap, tmp)
  {
    var s' := s[j := s[j - gap]];
    assert Above(cmp, s[j - gap], tmp);
    if j - gap >= gap { assert InOrderAt(cmp, s, gap, j - gap); }
    forall k | gap <= k <= i && k != j - gap && k != j ensures InOrderAt(cmp, s', gap, k) {
      if k != j + gap { assert InOrderAt(cmp, s, gap, k); }
    }
  }

  lemma InsertEnd<T(!new)>(cmp: (T, T) -> int, s: seq<T>, gap: int, i: int, j: int, tmp: T)
    requires Ordering(cmp) && Inserting(cmp, s, gap, i, j, tmp)
    requires j < gap || cmp(s[j - gap], tmp) <= 0
    ensures GapSorted(cmp, s[j := tmp], gap, i + 1)
  {
    var r := s[j := tmp];
    forall k | gap <= k <= i ensures InOrderAt(cmp, r, gap, k) {
      if k != j && k != j + gap { assert InOrderAt(cmp, s, gap, k); }
    }
  }

  /** The list and the free place after the loop over j, from place j on. */
  function Sunk<T>(cmp: (T, T) -> int, s: seq<T>, gap: int, j: nat, tmp: T): (r: (seq<T>, nat))
    requires 0 < gap && j < |s|
    ensures |r.0| == |s| && r.1 <= j
    decreases j
  {
    if j >= gap && cmp(s[j - gap], tmp) > 0 then Sunk(cmp, s[j := s[j - gap]], gap, j - gap, tmp) else (s, j)
  }

  lemma {:induction false} SunkElements<T(!new)>(cmp: (T, T) -> int, s: seq<T>, gap: int, j: nat, tmp: T)
    requires 0 < gap && j < |s|
    ensures var (t, k) := Sunk(cmp, s, gap, j, tmp); SameElements(t[k := tmp], s[j := tmp])
    decreases j
  {
    if j >= gap && cmp(s[j - gap], tmp) > 0 {
      SunkElements(cmp, s[j := s[j - gap]], gap, j - gap, tmp);
      Exchange(s, j, j - gap, tmp);
    }
  }

  lemma {:induction false} SunkSorts<T(!new)>(cmp: (T, T) -> int, s: seq<T>, gap: int, i: nat, j: nat, tmp: T)
    requires Ordering(cmp) && Inserting(cmp, s, gap, i, j, tmp)
    ensures var (t, k) := Sunk(cmp, s, gap, j, tmp); GapSorted(cmp, t[k := tmp], gap, i + 1)
    decreases j
  {
    if j >= gap && cmp(s[j - gap], tmp) > 0 {
      InsertStep(cmp, s, gap, i, j, tmp);
      SunkSorts(cmp, s[j := s[j - gap]], gap, i, j - gap, tmp);
    } else {
      InsertEnd(cmp, s, gap, i, j, tmp);
    }
  }

  lemma SunkMeans<T(!new)>(cmp: (T, T) -> int, s: seq<T>, gap: int, i: nat, tmp: T)
    requires 0 < gap <= i < |s| && s[i] == tmp
    ensures var (t, k) := Sunk(cmp, s, gap, i, tmp);
            && SameElements(t[k := tmp], s)
            && (Ordering(cmp) && GapSorted(cmp, s, gap, i) ==> GapSorted(cmp, t[k := tmp], gap, i + 1))
  {
    assert s[i := tmp] == s;
    SunkElements(cmp, s, gap, i, tmp);
    if Ordering(cmp) && GapSorted(cmp, s, gap, i) { SunkSorts(cmp, s, gap, i, i, tmp); }
  }

  /** Sort: under any comparison function the list becomes a permutation of itself, and an ordered one when
      the function is an ordering; then each pass leaves it gap-sorted, and the last gap is 1. */
  method Sort<T(==,!new)>(data: array<T>, length: nat, cmp: (T, T) -> int)
    requires length <= data.Length
    modifies data
    ensures Ordering(cmp) ==> Sorted(cmp, data[..length])
    ensures multiset(data[..length]) == multiset(old(data[..length]))
    ensures forall k :: length <= k < data.Length ==> data[k] == old(data[k])
  {
    var gap := length / 2;
    while gap > 0
      invariant 0 <= gap <= length / 2
      invariant Ordering(cmp) && gap == 0 ==> length <= 1 || GapSorted(cmp, data[..length], 1, length)
      invariant SameElements(data[..length], old(data[..length]))
      invariant forall k :: length <= k < data.Length ==> data[k] == old(data[k])
      decreases gap
    {
      Pass(data, length, gap, cmp);
      gap := gap / 2;
    }
    if Ordering(cmp) { GapOneIsSorted(cmp, data[..length]); }
    SameElementsMeans(data[..length], old(data[..length]));
  }

  /** The loop over i for one gap. */
  method Pass<T(==,!new)>(data: array<T>, length: nat, gap: int, cmp: (T, T) -> int)
    requires 0 < gap <= length <= data.Length
    modifies data
    ensures Ordering(cmp) ==> GapSorted(cmp, data[..length], gap, length)
    ensures SameElements(data[..length], old(data[..length]))
    ensures forall k :: length <= k < data.Length ==> data[k] == old(data[k])
  {
    var i := gap;
    while i < length
      invariant gap <= i <= length
      invariant Ordering(cmp) ==> GapSorted(cmp, data[..length], gap, i)
      invariant SameElements(data[..length], old(data[..length]))
      invariant forall k :: length <= k < data.Length ==> data[k] == old(data[k])
    {
      Insert(data, length, gap, i, cmp);
      i := i + 1;
    }
  }

  /** The body for one i: sink the element to its place among positions i, i - gap, i - 2 gap, ... */
  method Insert<T(==,!new)>(data: array<T>, length: nat, gap: int, i: int, cmp: (T, T) -> int)
    requires 0 < gap <= i < length <= data.Length
    requires Ordering(cmp) ==> GapSorted(cmp, data[..length], gap, i)
    modifies data
    ensures Ordering(cmp) ==> GapSorted(cmp, data[..length], gap, i + 1)
    ensures SameElements(data[..length], old(data[..length]))
    ensures forall k :: length <= k < data.Length ==> data[k] == old(data[k])
  {
    var tmp := data[i];
    ghost var s := data[..length];
    var j := MakeRoom(data, length, gap, i, tmp, cmp);
    SunkMeans(cmp, s, gap, i, tmp);
    ghost var t := data[..length];
    data[j] := tmp;
    assert data[..length] == t[j := tmp];
  }

  /** The loop over j: move larger elements up by `gap` until `tmp` fits at j. */
  method MakeRoom<T(==,!new)>(data: array<T>, length: nat, gap: int, i: int, tmp: T, cmp: (T, T) -> int)
    returns (j: nat)
    requires 0 < gap <= i < length <= data.Length
    modifies data
    ensures (data[..length], j) == Sunk(cmp, old(data[..length]), gap, i, tmp)
    ensures forall k :: length <= k < data.Length ==> data[k] == old(data[k])
  {
    j := i;
    while j >= gap && cmp(data[j - gap], tmp) > 0
      invariant j <= i
      invariant Sunk(cmp, data[..length], gap, j, tmp) == Sunk(cmp, old(data[..length]), gap, i, tmp)
      invariant forall k :: length <= k < data.Length ==> data[k] == old(data[k])
      decreases j
    {
      MoveUp(data, length, gap, j);
      j := j - gap;
    }
  }

  method MoveUp<T>(data: array<T>, length: nat, gap: int, j: int)
    requires 0 < gap <= j < length <= data.Length
    modifies data
    ensures data[..length] == old(data[..length])[j := old(data[j - gap])]
    ensures forall k :: length <= k < data.Length ==> data[k] == old(data[k])
  {
    data[j] := data[j - gap];
  }

  /** Moving s[b] up to position a and putting tmp at b instead of at a keeps the elements. */
  lemma Exchange<T(!new)>(s: seq<T>, a: nat, b: nat, tmp: T)
    requires a < |s| && b < |s| && a != b
    ensures SameElements(s[a := s[b]][b := tmp], s[a := tmp])
  {
    var x := s[a := tmp];
    assert s[a := s[b]][b := tmp] == x[a := x[b]][b := x[a]];
    SameElementsMeans(s[a := s[b]][b := tmp], x);
  }
}
