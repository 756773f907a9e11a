/** How many slots of an open-addressed table are taken. */
module Occupancy {

  function Occupied<T(==)>(t: seq<T>, free: T): (n: nat)
    ensures n <= |t|
  {
    if t == [] then 0
    else Occupied(t[..|t| - 1], free) + (if t[|t| - 1] != free then 1 else 0)
  }

  lemma {:induction false} OccupiedUpdate<T>(t: seq<T>, free: T, s: nat, v: T)
    requires s < |t|
    ensures Occupied(t[s := v], free) ==
            Occupied(t, free) - (if t[s] != free then 1 else 0) + (if v != free then 1 else 0)
  {
    var n := |t| - 1;
    if s == n {
      assert t[s := v][..n] == t[..n];
    } else {
      OccupiedUpdate(t[..n], free, s, v);
      assert t[s := v][..n] == t[..n][s := v];
    }
  }

  lemma {:induction false} HasFree<T>(t: seq<T>, free: T)
    requires Occupied(t, free) < |t|
    ensures free in t
  {
    var n := |t| - 1;
    if t[n] != free {
      HasFree(t[..n], free);
      assert free in t[..n];
    }
  }

  lemma {:induction false} AllFree<T>(t: seq<T>, free: T)
    requires forall s :: 0 <= s < |t| ==> t[s] == free
    ensures Occupied(t, free) == 0
  {
    if t != [] { AllFree(t[..|t| - 1], free); }
  }

  lemma {:induction false} OccupiedPrefix<T>(t: seq<T>, free: T, i: nat)
    requires i <= |t|
    ensures Occupied(t[..i], free) <= Occupied(t, free)
    decreases |t|
  {
    if i < |t| {
      OccupiedPrefix(t[..|t| - 1], free, i);
      assert t[..|t| - 1][..i] == t[..i];
    } else {
      assert t[..i] == t;
    }
  }
}
