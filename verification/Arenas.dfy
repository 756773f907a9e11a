/** The positional registries of include/cstring.h and include/cobjarena.h as values: checkpoints are
    lengths, a release truncates to one, and a detach moves the last entry into the hole. */
module Arenas {

  /** The registered entries and the capacity, with a history: everything ever registered, everything
      freed (in order), and everything handed back to the program. */
  datatype Arena<T> = Arena(live: seq<T>, cap: nat, tracked: seq<T>, gone: seq<T>, out: seq<T>)

  function Grown(cap: nat, len: nat): (c: nat) {
    if len < cap then cap else if cap == 0 then 64 else cap * 2
  }

  function Shrunk(cap: nat, len: nat): (c: nat) {
    if cap > 64 && len < cap / 4 then (if cap / 2 < 64 then 64 else cap / 2) else cap
  }

  function Track<T>(a: Arena<T>, x: T): Arena<T> {
    a.(live := a.live + [x], cap := Grown(a.cap, |a.live|), tracked := a.tracked + [x])
  }

  function Reverse<T>(s: seq<T>): (r: seq<T>)
    ensures |r| == |s|
  {
    if s == [] then [] else Reverse(s[1..]) + [s[0]]
  }

  /** release_to: a mark above the length is ignored.  Strings are freed in order, objects destroyed last
      first. */
  function ReleaseTo<T>(a: Arena<T>, mark: nat, lifo: bool): Arena<T> {
    if mark > |a.live| then a
    else a.(live := a.live[..mark], cap := Shrunk(a.cap, mark),
            gone := a.gone + if lifo then Reverse(a.live[mark..]) else a.live[mark..])
  }

  /** The entries from i on that are, or are not, `keep`. */
  function Keep<T(==)>(s: seq<T>, i: nat, keep: T, same: bool): (r: seq<T>)
    requires i <= |s|
    ensures |r| <= |s| - i
    decreases |s| - i
  {
    if i == |s| then []
    else if (s[i] == keep) == same then [s[i]] + Keep(s, i + 1, keep, same)
    else Keep(s, i + 1, keep, same)
  }

  /** release_keeping: occurrences of `keep` are compacted to the mark; the array is not shrunk. */
  function ReleaseKeeping<T(==)>(a: Arena<T>, mark: nat, keep: T): Arena<T> {
    if mark > |a.live| then a
    else a.(live := a.live[..mark] + Keep(a.live, mark, keep, true), gone := a.gone + Keep(a.live, mark, keep, false))
  }

  /** The entries without the one at i, the last one moved into its place. */
  function SwapOut<T>(s: seq<T>, i: nat): (r: seq<T>)
    requires i < |s|
    ensures |r| == |s| - 1
  {
    s[i := s[|s| - 1]][..|s| - 1]
  }

  /** detach: no entry at i when the pointer is not registered. */
  function DetachAt<T>(a: Arena<T>, i: nat): Arena<T> {
    if i < |a.live| then a.(live := SwapOut(a.live, i), out := a.out + [a.live[i]]) else a
  }

  function Cleanup<T>(a: Arena<T>, lifo: bool): Arena<T> {
    a.(live := [], cap := 0, gone := a.gone + if lifo then Reverse(a.live) else a.live)
  }

  // ---- What every operation keeps ----

  ghost predicate Conserved<T>(a: Arena<T>) {
    multiset(a.tracked) == multiset(a.live) + multiset(a.gone) + multiset(a.out)
  }

  ghost predicate Fits<T>(a: Arena<T>) {
    |a.live| <= a.cap && (a.cap == 0 || a.cap >= 64)
  }

  ghost predicate Distinct<T>(s: seq<T>) {
    forall i, j :: 0 <= i < j < |s| ==> s[i] != s[j]
  }

  lemma MultisetSplit<T>(s: seq<T>, n: nat)
    requires n <= |s|
    ensures multiset(s) == multiset(s[..n]) + multiset(s[n..])
  {
    assert s == s[..n] + s[n..];
  }

  lemma {:induction false} MultisetReverse<T>(s: seq<T>)
    ensures multiset(Reverse(s)) == multiset(s)
  {
    if s != [] {
      MultisetReverse(s[1..]);
      assert s == [s[0]] + s[1..];
    }
  }

  /** The last is the first. */
  lemma {:induction false} ReverseAt<T>(s: seq<T>, k: nat)
    requires k < |s|
    ensures Reverse(s)[k] == s[|s| - 1 - k]
  {
    if k < |s| - 1 { ReverseAt(s[1..], k); }
  }

  /** Handles leave last in, first out; texts in the order in which they were registered; at the end also. */
  lemma ReleaseOrder<T>(a: Arena<T>, mark: nat, k: nat)
    requires mark + k < |a.live|
    ensures ReleaseTo(a, mark, false).gone[|a.gone| + k] == a.live[mark + k]
    ensures ReleaseTo(a, mark, true).gone[|a.gone| + k] == a.live[|a.live| - 1 - k]
    ensures mark == 0 ==> Cleanup(a, false).gone[|a.gone| + k] == a.live[k]
    ensures mark == 0 ==> Cleanup(a, true).gone[|a.gone| + k] == a.live[|a.live| - 1 - k]
  {
    ReverseAt(a.live[mark..], k);
    if mark == 0 { assert a.live[0..] == a.live; }
  }

  /** Retaining keeps every occurrence of the entry and nothing else above the mark. */
  lemma {:induction false} KeepCounts<T>(s: seq<T>, i: nat, keep: T, p: T)
    requires i <= |s|
    ensures multiset(Keep(s, i, keep, true))[p] == if p == keep then multiset(s[i..])[p] else 0
    ensures multiset(Keep(s, i, keep, false))[p] == if p == keep then 0 else multiset(s[i..])[p]
    decreases |s| - i
  {
    if i < |s| {
      KeepCounts(s, i + 1, keep, p);
      assert s[i..] == [s[i]] + s[i + 1..];
    }
  }

  lemma {:induction false} MultisetKeep<T>(s: seq<T>, i: nat, keep: T)
    requires i <= |s|
    ensures multiset(s[i..]) == multiset(Keep(s, i, keep, true)) + multiset(Keep(s, i, keep, false))
    decreases |s| - i
  {
    if i < |s| {
      var kept, dropped := Keep(s, i + 1, keep, true), Keep(s, i + 1, keep, false);
      MultisetKeep(s, i + 1, keep);
      assert s[i..] == [s[i]] + s[i + 1..];
      if s[i] == keep {
        assert Keep(s, i, keep, true) == [s[i]] + kept && Keep(s, i, keep, false) == dropped;
      } else {
        assert Keep(s, i, keep, true) == kept && Keep(s, i, keep, false) == [s[i]] + dropped;
      }
    }
  }

  lemma MultisetSwapOut<T>(s: seq<T>, i: nat)
    requires i < |s|
    ensures multiset(s) == multiset(SwapOut(s, i)) + multiset{s[i]}
  {
    var n := |s| - 1;
    var u := s[i := s[n]];
    assert u == u[..n] + [s[n]];
    assert multiset(u) == multiset(s) - multiset{s[i]} + multiset{s[n]};
  }

  datatype Op<T> = Register(x: T) | Release(mark: nat) | Retain(mark: nat, keep: T) | HandOut(i: nat) | Sweep

  function Step<T(==)>(a: Arena<T>, op: Op<T>, lifo: bool): Arena<T> {
    match op
    case Register(x) => Track(a, x)
    case Release(mark) => ReleaseTo(a, mark, lifo)
    case Retain(mark, keep) => ReleaseKeeping(a, mark, keep)
    case HandOut(i) => DetachAt(a, i)
    case Sweep => Cleanup(a, lifo)
  }

  function Run<T(==)>(a: Arena<T>, ops: seq<Op<T>>, lifo: bool): Arena<T> {
    if ops == [] then a else Step(Run(a, ops[..|ops| - 1], lifo), ops[|ops| - 1], lifo)
  }

  function Empty<T>(): Arena<T> {
    Arena([], 0, [], [], [])
  }

  lemma ReleaseConserves<T>(a: Arena<T>, mark: nat, lifo: bool)
    requires Conserved(a)
    ensures Conserved(ReleaseTo(a, mark, lifo))
  {
    if mark <= |a.live| {
      MultisetSplit(a.live, mark);
      MultisetReverse(a.live[mark..]);
    }
  }

  lemma RetainConserves<T>(a: Arena<T>, mark: nat, keep: T)
    requires Conserved(a)
    ensures Conserved(ReleaseKeeping(a, mark, keep))
  {
    if mark <= |a.live| {
      MultisetSplit(a.live, mark);
      MultisetKeep(a.live, mark, keep);
    }
  }

  lemma DetachConserves<T>(a: Arena<T>, i: nat)
    requires Conserved(a)
    ensures Conserved(DetachAt(a, i))
  {
    if i < |a.live| { MultisetSwapOut(a.live, i); }
  }

  lemma StepConserves<T>(a: Arena<T>, op: Op<T>, lifo: bool)
    requires Conserved(a)
    ensures Conserved(Step(a, op, lifo))
  {
    match op
    case Register(x) =>
    case Release(mark) => ReleaseConserves(a, mark, lifo);
    case Retain(mark, keep) => RetainConserves(a, mark, keep);
    case HandOut(i) => DetachConserves(a, i);
    case Sweep => MultisetReverse(a.live);
  }

  /** For any order of operations and any marks, whatever was registered is still registered, freed, or
      handed out, once for each time it was registered. */
  lemma {:induction false} RunConserves<T>(ops: seq<Op<T>>, lifo: bool)
    ensures Conserved(Run(Empty(), ops, lifo))
  {
    if ops != [] {
      RunConserves(ops[..|ops| - 1], lifo);
      StepConserves(Run(Empty(), ops[..|ops| - 1], lifo), ops[|ops| - 1], lifo);
    }
  }

  lemma {:induction false} AtMostOnce<T>(s: seq<T>, p: T)
    requires Distinct(s)
    ensures multiset(s)[p] <= 1
  {
    if s != [] {
      AtMostOnce(s[1..], p);
      assert s == [s[0]] + s[1..];
      if p == s[0] { assert p !in s[1..]; }
    }
  }

  /** The length never exceeds the capacity, through growth and shrinking. */
  lemma {:induction false} RunFits<T>(ops: seq<Op<T>>, lifo: bool)
    ensures Fits(Run(Empty(), ops, lifo))
  {
    if ops != [] { RunFits(ops[..|ops| - 1], lifo); }
  }

  /** 64, doubled some number of times. */
  predicate Doubled(cap: nat) {
    cap == 64 || (cap > 64 && cap % 2 == 0 && Doubled(cap / 2))
  }

  lemma StepCapacity<T>(a: Arena<T>, op: Op<T>, lifo: bool)
    requires a.cap == 0 || Doubled(a.cap)
    ensures var b := Step(a, op, lifo);
            && (b.cap == 0 || Doubled(b.cap))
            && (op.Release? && op.mark <= |a.live| && a.cap > 64 && 4 * op.mark < a.cap ==> 2 * b.cap == a.cap)
            && (b.cap < a.cap ==> op.Sweep? || (op.Release? && 4 * op.mark < a.cap))
  {
    assert Doubled(64);
  }

  /** An array that exists has 64 places, doubled some number of times; a release that leaves less than a quarter of
      a larger one in use halves it, and nothing else shrinks it. */
  lemma {:induction false} RunCapacity<T>(ops: seq<Op<T>>, op: Op<T>, lifo: bool)
    ensures var a := Run(Empty(), ops, lifo); var b := Step(a, op, lifo);
            && (a.cap == 0 || Doubled(a.cap))
            && (op.Release? && op.mark <= |a.live| && a.cap > 64 && 4 * op.mark < a.cap ==> 2 * b.cap == a.cap)
            && (b.cap < a.cap ==> op.Sweep? || (op.Release? && 4 * op.mark < a.cap))
  {
    if ops != [] {
      RunCapacity(ops[..|ops| - 1], ops[|ops| - 1], lifo);
      StepCapacity(Run(Empty(), ops[..|ops| - 1], lifo), ops[|ops| - 1], lifo);
    }
    StepCapacity(Run(Empty(), ops, lifo), op, lifo);
  }

  /** Only pointers that are not registered are registered. */
  ghost predicate Disciplined<T>(ops: seq<Op<T>>, lifo: bool) {
    forall n :: 0 <= n < |ops| && ops[n].Register? ==> ops[n].x !in Run(Empty(), ops[..n], lifo).live
  }

  lemma CountedTwice<T>(s: seq<T>, i: nat, j: nat)
    requires i < j < |s| && s[i] == s[j]
    ensures multiset(s)[s[i]] >= 2
  {
    assert s == s[..j] + s[j..];
    assert s[i] == s[..j][i] && s[j] == s[j..][0];
    assert s[i] in s[..j] && s[j] in s[j..];
  }

  lemma DistinctCount<T>(s: seq<T>)
    requires forall p :: p in s ==> multiset(s)[p] == 1
    ensures Distinct(s)
  {
    forall i, j | 0 <= i < j < |s| ensures s[i] != s[j] {
      assert s[i] in s;
      if s[i] == s[j] { CountedTwice(s, i, j); }
    }
  }

  lemma SubDistinct<T>(s: seq<T>, t: seq<T>)
    requires Distinct(s) && multiset(t) <= multiset(s)
    ensures Distinct(t)
  {
    forall p | p in t ensures multiset(t)[p] == 1 {
      AtMostOnce(s, p);
      assert p in multiset(t);
    }
    DistinctCount(t);
  }

  lemma StepDistinct<T>(a: Arena<T>, op: Op<T>, lifo: bool)
    requires Distinct(a.live) && (op.Register? ==> op.x !in a.live)
    ensures Distinct(Step(a, op, lifo).live)
  {
    match op
    case Register(x) =>
    case Release(mark) =>
    case Retain(mark, keep) =>
      if mark <= |a.live| {
        MultisetSplit(a.live, mark);
        MultisetKeep(a.live, mark, keep);
        SubDistinct(a.live, a.live[..mark] + Keep(a.live, mark, keep, true));
      }
    case HandOut(i) =>
      if i < |a.live| {
        MultisetSwapOut(a.live, i);
        SubDistinct(a.live, SwapOut(a.live, i));
      }
    case Sweep =>
  }

  /** No entry is ever registered twice at once, so no release frees anything twice. */
  lemma {:induction false} RunDistinct<T>(ops: seq<Op<T>>, lifo: bool)
    requires Disciplined(ops, lifo)
    ensures Distinct(Run(Empty(), ops, lifo).live)
  {
    if ops != [] {
      var n := |ops| - 1;
      assert forall k :: 0 <= k < n ==> ops[..n][..k] == ops[..k];
      RunDistinct(ops[..n], lifo);
      StepDistinct(Run(Empty(), ops[..n], lifo), ops[n], lifo);
    }
  }

  /** Under that discipline every registration of an entry has been freed once, or handed out once, or is
      the one that is in force: also of an entry that is registered again after it was freed or handed
      out. */
  lemma ExactlyOnce<T>(ops: seq<Op<T>>, lifo: bool, p: T)
    requires Disciplined(ops, lifo)
    ensures var a := Run(Empty(), ops, lifo);
            multiset(a.gone)[p] + multiset(a.out)[p] + (if p in a.live then 1 else 0) == multiset(a.tracked)[p]
  {
    var a := Run(Empty(), ops, lifo);
    RunConserves(ops, lifo);
    RunDistinct(ops, lifo);
    AtMostOnce(a.live, p);
    assert p in a.live <==> p in multiset(a.live);
  }

  // ---- What an older state still has a claim on ----

  /** The first k entries, or all of them. */
  function Take<T>(s: seq<T>, k: nat): (r: seq<T>)
    ensures |r| == if k <= |s| then k else |s|
  {
    if k <= |s| then s[..k] else s
  }

  /** Each of the first k entries of b is among the first k of a, or was handed out since. */
  ghost predicate SinksAt<T>(a: Arena<T>, b: Arena<T>, k: nat)
    requires b.out <= a.out
  {
    multiset(Take(b.live, k)) <= multiset(Take(a.live, k)) + multiset(a.out[|b.out|..])
  }

  /** a comes after b, and no entry of b was freed or moved up. */
  ghost predicate Sinks<T>(a: Arena<T>, b: Arena<T>) {
    && b.out <= a.out && b.gone <= a.gone && b.tracked <= a.tracked
    && forall k: nat :: SinksAt(a, b, k)
  }

  lemma SinksTrans<T>(c: Arena<T>, a: Arena<T>, b: Arena<T>)
    requires Sinks(c, a) && Sinks(a, b)
    ensures Sinks(c, b)
  {
    assert c.out[|b.out|..] == a.out[|b.out|..] + c.out[|a.out|..];
    forall k: nat ensures SinksAt(c, b, k) { assert SinksAt(c, a, k) && SinksAt(a, b, k); }
  }

  lemma TrackSinks<T>(a: Arena<T>, x: T)
    ensures Sinks(Track(a, x), a)
  {
    forall k: nat ensures SinksAt(Track(a, x), a, k) {
      var n := |a.live|;
      if k <= n { assert (a.live + [x])[..k] == a.live[..k]; }
      else { assert Take(a.live + [x], k) == a.live + [x]; }
    }
  }

  lemma TakeSwapOut<T>(s: seq<T>, i: nat, k: nat)
    requires i < |s|
    ensures multiset(Take(s, k)) <= multiset(Take(SwapOut(s, i), k)) + multiset{s[i]}
  {
    var n := |s| - 1;
    if k > n {
      MultisetSwapOut(s, i);
      assert Take(s, k) == s && Take(SwapOut(s, i), k) == SwapOut(s, i);
    } else if k <= i {
      assert Take(SwapOut(s, i), k) == s[..k];
    } else {
      assert Take(SwapOut(s, i), k) == s[..k][i := s[n]];
    }
  }

  lemma DetachSinks<T>(a: Arena<T>, i: nat)
    ensures Sinks(DetachAt(a, i), a)
  {
    forall k: nat ensures SinksAt(DetachAt(a, i), a, k) {
      if i < |a.live| {
        TakeSwapOut(a.live, i, k);
        assert DetachAt(a, i).out[|a.out|..] == [a.live[i]];
      }
    }
  }

  /** Releasing to a mark that is not below the length of b frees nothing of b. */
  lemma ReleaseSinks<T>(a: Arena<T>, b: Arena<T>, mark: nat, lifo: bool)
    requires Sinks(a, b) && mark >= |b.live|
    ensures Sinks(ReleaseTo(a, mark, lifo), b)
  {
    var r := ReleaseTo(a, mark, lifo);
    forall k: nat ensures SinksAt(r, b, k) { KeepsFirst(a, b, r, mark, k); }
  }

  lemma RetainSinks<T>(a: Arena<T>, b: Arena<T>, mark: nat, keep: T)
    requires Sinks(a, b) && mark >= |b.live|
    ensures Sinks(ReleaseKeeping(a, mark, keep), b)
  {
    var r := ReleaseKeeping(a, mark, keep);
    forall k: nat ensures SinksAt(r, b, k) { KeepsFirst(a, b, r, mark, k); }
  }

  lemma KeepsFirst<T>(a: Arena<T>, b: Arena<T>, r: Arena<T>, mark: nat, k: nat)
    requires Sinks(a, b) && mark >= |b.live| && r.out == a.out
    requires r.live == a.live || (mark <= |a.live| && a.live[..mark] <= r.live)
    ensures SinksAt(r, b, k)
  {
    var m := if k <= |b.live| then k else |b.live|;
    assert Take(b.live, k) == Take(b.live, m) && SinksAt(a, b, m);
    if r.live != a.live { assert Take(r.live, m) == a.live[..mark][..m] == Take(a.live, m); }
    TakeGrows(r.live, m, k);
  }

  lemma TakeGrows<T>(s: seq<T>, m: nat, k: nat)
    requires m <= k
    ensures multiset(Take(s, m)) <= multiset(Take(s, k))
  {
    var t := Take(s, k);
    if m <= |t| {
      MultisetSplit(t, m);
      assert Take(s, m) == t[..m];
    }
  }

  /** If nothing of b was handed out since, b is still at the bottom, in its order. */
  lemma {:induction false} UntouchedAtBottom<T>(a: Arena<T>, b: Arena<T>, k: nat)
    requires Sinks(a, b) && k <= |b.live|
    requires forall p :: p in b.live ==> p !in a.out[|b.out|..]
    ensures b.live[..k] <= a.live
  {
    if k > 0 {
      UntouchedAtBottom(a, b, k - 1);
      assert SinksAt(a, b, k);
      SameBottom(b.live[..k], Take(a.live, k), a.out[|b.out|..]);
    }
  }

  lemma SameBottom<T>(s: seq<T>, t: seq<T>, out: seq<T>)
    requires s != [] && multiset(s) <= multiset(t) + multiset(out) && |t| <= |s|
    requires s[..|s| - 1] <= t && forall p :: p in s ==> p !in out
    ensures s == t
  {
    var n := |s| - 1;
    var x := s[n];
    assert s == s[..n] + [x] && multiset(s)[x] == multiset(s[..n])[x] + 1;
    assert x !in out && multiset(out)[x] == 0;
    assert multiset(t)[x] >= multiset(s)[x];
    assert t == s[..n] + t[n..];
    assert multiset(t)[x] == multiset(s[..n])[x] + multiset(t[n..])[x];
  }

  /** What a release to the length of b restores, when nothing of b is registered again since: b, exactly
      if nothing of it was handed out. */
  lemma RestoredExactly<T>(a: Arena<T>, b: Arena<T>, lifo: bool)
    requires Sinks(a, b) && Conserved(a) && Conserved(b)
    requires forall p :: p in b.live ==> p !in a.tracked[|b.tracked|..]
    ensures ReleaseTo(a, |b.live|, lifo).live == b.live <==> forall p :: p in b.live ==> p !in a.out[|b.out|..]
  {
    var d := ReleaseTo(a, |b.live|, lifo);
    if forall p :: p in b.live ==> p !in a.out[|b.out|..] {
      UntouchedAtBottom(a, b, |b.live|);
      assert b.live[..|b.live|] == b.live && a.live[..|b.live|] == b.live;
    }
    if d.live == b.live {
      ReleaseConserves(a, |b.live|, lifo);
      forall p | p in b.live ensures p !in a.out[|b.out|..] { HandedOutOnce(d, b, p); }
    }
  }

  /** How often p occurs in each history, in terms of the older state. */
  lemma CountsSince<T>(a: Arena<T>, b: Arena<T>, p: T)
    requires Conserved(a) && Conserved(b) && b.out <= a.out && b.gone <= a.gone && b.tracked <= a.tracked
    ensures multiset(b.live)[p] + multiset(a.tracked[|b.tracked|..])[p]
         == multiset(a.live)[p] + multiset(a.gone[|b.gone|..])[p] + multiset(a.out[|b.out|..])[p]
  {
    CountSince(a.tracked, b.tracked, p);
    CountSince(a.gone, b.gone, p);
    CountSince(a.out, b.out, p);
    assert multiset(a.tracked)[p] == multiset(a.live)[p] + multiset(a.gone)[p] + multiset(a.out)[p];
    assert multiset(b.tracked)[p] == multiset(b.live)[p] + multiset(b.gone)[p] + multiset(b.out)[p];
  }

  lemma CountSince<T>(s: seq<T>, t: seq<T>, p: T)
    requires t <= s
    ensures multiset(s)[p] == multiset(t)[p] + multiset(s[|t|..])[p]
  {
    MultisetSplit(s, |t|);
    assert s[..|t|] == t;
  }

  lemma HandedOutOnce<T>(d: Arena<T>, b: Arena<T>, p: T)
    requires Conserved(d) && Conserved(b) && d.live == b.live
    requires b.out <= d.out && b.gone <= d.gone && b.tracked <= d.tracked && p !in d.tracked[|b.tracked|..]
    ensures p !in d.out[|b.out|..]
  {
    CountsSince(d, b, p);
    assert multiset(d.tracked[|b.tracked|..])[p] == 0;
  }

  /** What was freed since b was registered since b: nothing of b is ever freed. */
  lemma FreedWasNew<T>(a: Arena<T>, b: Arena<T>)
    requires Sinks(a, b) && Conserved(a) && Conserved(b)
    ensures multiset(a.gone[|b.gone|..]) <= multiset(a.tracked[|b.tracked|..])
  {
    forall p ensures multiset(a.gone[|b.gone|..])[p] <= multiset(a.tracked[|b.tracked|..])[p] {
      CountsSince(a, b, p);
      var k := |a.live| + |b.live|;
      assert SinksAt(a, b, k) && Take(a.live, k) == a.live && Take(b.live, k) == b.live;
      assert multiset(b.live)[p] <= multiset(a.live)[p] + multiset(a.out[|b.out|..])[p];
    }
  }

  // ---- Finding an entry ----

  /** The first entry that is p, from i on; the length when there is none. */
  function FirstIndex<T(==)>(s: seq<T>, p: T, i: nat): (k: nat)
    requires i <= |s|
    ensures i <= k <= |s| && (k < |s| ==> s[k] == p) && forall j :: i <= j < k ==> s[j] != p
    decreases |s| - i
  {
    if i == |s| || s[i] == p then i else FirstIndex(s, p, i + 1)
  }
}
