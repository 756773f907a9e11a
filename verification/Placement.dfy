/** Where one text stands in another.  The comparison of single bytes has a name of its own, so that facts about
    whole texts are used only where a proof mentions it. */
module Placement {
  import opened Prelude

  ghost predicate Same(s: bytes, i: nat, t: bytes, k: nat) {
    i + k < |s| && k < |t| && s[i + k] == t[k]
  }

  /** The bytes of t stand in s at i. */
  ghost predicate At(s: bytes, i: nat, t: bytes) {
    i + |t| <= |s| && forall k: nat :: k < |t| ==> Same(s, i, t, k)
  }

  lemma AtAppend(s: bytes, i: nat, a: bytes, b: bytes)
    requires At(s, i, a + b)
    ensures At(s, i, a) && At(s, i + |a|, b)
  {
    forall k: nat | k < |a| ensures Same(s, i, a, k) { assert Same(s, i, a + b, k); }
    var j := i + |a|;
    forall k: nat | k < |b| ensures Same(s, j, b, k) { assert Same(s, i, a + b, |a| + k); }
  }

  lemma AtFirst(s: bytes, i: nat, t: bytes)
    requires At(s, i, t) && t != []
    ensures s[i] == t[0]
  {
    assert Same(s, i, t, 0);
  }

  lemma AtSlice(s: bytes, i: nat, t: bytes)
    requires At(s, i, t)
    ensures s[i..i + |t|] == t
  {
    forall k: nat | k < |t| ensures s[i..i + |t|][k] == t[k] { assert Same(s, i, t, k); }
  }

  lemma SliceAt(s: bytes, i: nat, t: bytes)
    requires i + |t| <= |s| && s[i..i + |t|] == t
    ensures At(s, i, t)
  {
    forall k: nat | k < |t| ensures Same(s, i, t, k) { assert s[i..i + |t|][k] == s[i + k]; }
  }

  lemma AtByte(s: bytes, i: nat, c: byte, t: bytes)
    requires At(s, i, [c] + t)
    ensures s[i] == c && At(s, i + 1, t)
  {
    AtAppend(s, i, [c], t);
    AtFirst(s, i, [c]);
  }

  lemma AtPrefix(s: bytes, i: nat, t: bytes)
    requires i <= |s| && t <= s[i..]
    ensures At(s, i, t)
  {
    forall k: nat | k < |t| ensures Same(s, i, t, k) { assert s[i..][k] == t[k]; }
  }
}
