/** The triangular probe sequence of the open-addressed tables.

    A probe starts at `hash & (cap - 1)` and then advances by 1, 2, 3, ... modulo the power-of-two
    capacity `cap`, so its k-th position is `hash + k(k+1)/2 mod cap`.  The main result is that the
    first `cap` positions are pairwise different and therefore visit every slot: a probe loop that
    stops at an empty slot terminates as soon as there is one. */
module ProbeSequence {
  import opened Modular

  /** The total advance after k probes: 0, 1, 3, 6, 10, ... */
  function Triangle(k: nat): nat {
    if k == 0 then 0 else Triangle(k - 1) + k
  }

  /** The slot visited by the k-th probe (0-based) of a key with the given hash. */
  function Probe(hash: nat, k: nat, cap: nat): (slot: nat)
    requires cap > 0
    ensures slot < cap
  {
    (hash + Triangle(k)) % cap
  }

  lemma {:induction false} TriangleClosedForm(k: nat)
    ensures 2 * Triangle(k) == k * (k + 1)
  {
    if k > 0 { TriangleClosedForm(k - 1); }
  }

  /** The loop step `i = (i + step) & mask; step++` moves from one probe to the next. */
  lemma ProbeStep(hash: nat, k: nat, cap: nat)
    requires cap > 0
    ensures (Probe(hash, k, cap) + (k + 1)) % cap == Probe(hash, k + 1, cap)
  {
    ModShift(hash + Triangle(k), k + 1, cap);
  }

  lemma OddTimesOdd(a: int, b: int, z: int)
    requires a % 2 == 1 && b % 2 == 1
    ensures a * b != 2 * z
  {
    var y := b / 2;
    Distribute(a, 2 * y, 1);
    PullTwo(a, y);
  }

  lemma PullTwo(k: int, p: int)
    ensures k * (2 * p) == 2 * (k * p) == (2 * k) * p
  {
  }

  /** If 2^m divides a * b and a is odd then 2^m divides b. */
  lemma {:induction false} OddFactor(a: int, b: int, k: int, m: nat) returns (q: int)
    requires a % 2 == 1
    requires a * b == k * Pow2(m)
    ensures b == q * Pow2(m)
    decreases m
  {
    if m == 0 {
      q := b;
    } else {
      var p := Pow2(m - 1);
      PullTwo(k, p);
      if b % 2 == 1 { OddTimesOdd(a, b, k * p); assert false; }
      var h := b / 2;
      PullTwo(a, h);
      q := OddFactor(a, h, k, m - 1);
      PullTwo(q, p);
    }
  }

  /** Two different probes among the first 2^m hit different slots. */
  lemma ProbesDistinct(hash: nat, i: nat, j: nat, m: nat)
    requires i < j < Pow2(m)
    ensures Probe(hash, i, Pow2(m)) != Probe(hash, j, Pow2(m))
  {
    if Probe(hash, i, Pow2(m)) == Probe(hash, j, Pow2(m)) {
      var k := SameRemainder(hash + Triangle(i), hash + Triangle(j), Pow2(m));
      var a, b := TriangleDifference(i, j);
      NoHalfProduct(Triangle(j) - Triangle(i), a, b, k, m, Pow2(m));
    }
  }

  lemma NoHalfProduct(d: int, a: int, b: int, k: int, m: nat, p: nat)
    requires p == Pow2(m) && 2 * d == a * b
    requires 0 < a < 2 * p && 0 < b < 2 * p && (a % 2 == 1 || b % 2 == 1)
    ensures d != k * p
  {
    PullTwo(k, p);
    NoCommonMultiple(a, b, k, m + 1, 2 * p);
  }

  lemma SameRemainder(u: int, v: int, cap: nat) returns (k: int)
    requires cap > 0 && u % cap == v % cap
    ensures v - u == k * cap
  {
    var x, y := u / cap, v / cap;
    k := y - x;
    Distribute(cap, y, -x);
  }

  lemma NoCommonMultiple(a: int, b: int, k: int, m: nat, p: nat)
    requires p == Pow2(m) && 0 < a < p && 0 < b < p && (a % 2 == 1 || b % 2 == 1)
    ensures a * b != k * p
  {
    if a * b == k * p {
      if a % 2 == 1 {
        var q := OddFactor(a, b, k, m);
        NoSmallMultiple(b, q, p);
      } else {
        var q := OddFactor(b, a, k, m);
        NoSmallMultiple(a, q, p);
      }
    }
  }

  lemma TriangleDifference(i: nat, j: nat) returns (a: int, b: int)
    requires i < j
    ensures 2 * (Triangle(j) - Triangle(i)) == a * b
    ensures 0 < a <= j && 0 < b <= 2 * j && (a % 2 == 1 || b % 2 == 1)
  {
    a, b := j - i, j + i + 1;
    TriangleProduct(i, j);
  }

  lemma TriangleProduct(i: nat, j: nat)
    ensures 2 * (Triangle(j) - Triangle(i)) == (j - i) * (j + i + 1)
  {
    TriangleClosedForm(i);
    TriangleClosedForm(j);
    Expand(j, i);
  }

  lemma Expand(x: int, y: int)
    ensures (x - y) * (x + y + 1) == x * (x + 1) - y * (y + 1)
  {
    assert (x - y) * (x + y) == x * x - y * y;
  }

  /** An injective sequence of n numbers below n hits every number below n. */
  lemma {:induction false} Pigeonhole(s: seq<nat>, n: nat, target: nat)
    requires |s| == n && target < n
    requires forall i :: 0 <= i < n ==> s[i] < n
    requires forall i, j :: 0 <= i < j < n ==> s[i] != s[j]
    ensures target in s
  {
    if target !in s {
      var image := set i | 0 <= i < n :: s[i];
      DistinctCount(s);
      BelowIsFull(n);
      assert image <= Below(n) - {target};
      SubsetSize(image, Below(n) - {target});
      assert false;
    }
  }

  ghost function Below(n: nat): set<nat> {
    if n == 0 then {} else Below(n - 1) + {n - 1}
  }

  lemma {:induction false} BelowIsFull(n: nat)
    ensures |Below(n)| == n
    ensures forall i: nat :: i in Below(n) <==> i < n
  {
    if n > 0 { BelowIsFull(n - 1); }
  }

  lemma {:induction false} DistinctCount(s: seq<nat>)
    requires forall i, j :: 0 <= i < j < |s| ==> s[i] != s[j]
    ensures |set i | 0 <= i < |s| :: s[i]| == |s|
  {
    if s != [] {
      var n := |s| - 1;
      var init := s[..n];
      DistinctCount(init);
      assert (set i | 0 <= i < |s| :: s[i]) == (set i | 0 <= i < |init| :: init[i]) + {s[n]};
    }
  }

  lemma {:induction false} SubsetSize<T>(a: set<T>, b: set<T>)
    requires a <= b
    ensures |a| <= |b|
  {
    if a != {} {
      var x :| x in a;
      SubsetSize(a - {x}, b - {x});
    }
  }

  /** Every slot of a power-of-two table is visited within the first `cap` probes, whatever the hash. */
  lemma ProbeVisitsEverySlot(hash: nat, cap: nat, slot: nat) returns (k: nat)
    requires IsPow2(cap) && slot < cap
    ensures k < cap && Probe(hash, k, cap) == slot
  {
    var m: nat :| Pow2(m) == cap;
    var s: seq<nat> := seq(cap, i requires 0 <= i < cap => Probe(hash, i, cap));
    forall i, j | 0 <= i < j < cap ensures s[i] != s[j] { ProbesDistinct(hash, i, j, m); }
    Pigeonhole(s, cap, slot);
    k :| 0 <= k < cap && s[k] == slot;
  }
}
