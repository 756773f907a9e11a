/** Facts about powers of two and about remainders, which the wrap-around indices of tables and rings rest on. */
module Modular {
  function Pow2(m: nat): (p: nat)
    ensures p >= 1
  {
    if m == 0 then 1 else 2 * Pow2(m - 1)
  }

  ghost predicate IsPow2(cap: nat) {
    exists m: nat :: Pow2(m) == cap
  }

  lemma DoubleIsPow2(cap: nat)
    requires IsPow2(cap)
    ensures IsPow2(2 * cap) && cap >= 1
  {
    var m: nat :| Pow2(m) == cap;
    assert Pow2(m + 1) == 2 * cap;
  }

  /** The capacities the tables start with. */
  lemma FirstCapacitiesArePow2()
    ensures IsPow2(16) && IsPow2(256)
  {
    assert Pow2(4) == 16;
    assert Pow2(8) == 16 * Pow2(4);
  }

  lemma {:induction false} Pow2Monotone(a: nat, b: nat)
    requires a <= b
    ensures Pow2(a) <= Pow2(b)
  {
    if a < b { Pow2Monotone(a, b - 1); }
  }

  lemma NoSmallMultiple(b: int, q: int, p: int)
    requires -p < b < p
    ensures b == q * p ==> q == 0
  {
    if q < 0 { assert q * p <= -p; }
    if q > 0 { assert q * p >= p; }
  }

  lemma ModUnique(a: int, q: int, r: nat, cap: nat)
    requires r < cap && a == q * cap + r
    ensures a % cap == r
  {
    var q', r' := a / cap, a % cap;
    assert r - r' == (q' - q) * cap;
    NoSmallMultiple(r - r', q' - q, cap);
  }

  lemma ModShift(a: int, d: int, cap: nat)
    requires cap > 0
    ensures ((a % cap) + d) % cap == (a + d) % cap
  {
    var x, y := a / cap, (a % cap + d) / cap;
    var r := (a % cap + d) % cap;
    assert a + d == (x + y) * cap + r;
    ModUnique(a + d, x + y, r, cap);
  }

  lemma Distribute(x: int, y: int, z: int)
    ensures x * (y + z) == x * y + x * z
  {
  }

  lemma OneMore(c: int, k: int)
    ensures (1 + c) * k == k + c * k
  {
  }

  /** An index that has gone round a ring of size n at most once. */
  function Wrap(i: nat, n: nat): nat {
    if i < n then i else i - n
  }

  lemma WrapIsMod(i: nat, n: nat)
    requires n > 0 && i < 2 * n
    ensures i % n == Wrap(i, n)
  {
    if i < n { ModUnique(i, 0, i, n); } else { ModUnique(i, 1, i - n, n); }
  }
}
