/** Code points of include/cstring.h: a byte string is cut into sequences of 1 to 4 bytes, and a lead byte without its
    continuation bytes stands alone, so that every byte string has a segmentation. */
module Utf8 {
  import opened Prelude
  import opened SplitJoin

  predicate IsContinuation(c: byte) {
    0x80 <= c < 0xC0
  }

  /** c2m__u8_seqlen: 0xxxxxxx, 110xxxxx, 1110xxxx, 11110xxx, and 1 for any other lead byte. */
  function SeqLen(c: byte): (n: nat)
    ensures 1 <= n <= 4
  {
    if c < 0x80 then 1
    else if 0xC0 <= c < 0xE0 then 2
    else if 0xE0 <= c < 0xF0 then 3
    else if 0xF0 <= c < 0xF8 then 4
    else 1
  }

  /** The continuation bytes 1..n-1 of the sequence at i are there. */
  predicate HasTail(s: bytes, i: nat, n: nat) {
    i + n <= |s| && forall k :: i < k < i + n ==> IsContinuation(s[k])
  }

  /** The length of the sequence at i. */
  function CpLen(s: bytes, i: nat): (n: nat)
    requires i < |s|
    ensures 1 <= n <= 4 && i + n <= |s|
  {
    var n := SeqLen(s[i]);
    if HasTail(s, i, n) then n else 1
  }

  /** c2m__u8_advance: up to cp sequences from i on. */
  function Advance(s: bytes, i: nat, cp: nat): (j: nat)
    requires i <= |s|
    ensures i <= j <= |s|
    decreases cp
  {
    if cp == 0 || i == |s| then i else Advance(s, i + CpLen(s, i), cp - 1)
  }

  /** The number of sequences from i on. */
  function LengthFrom(s: bytes, i: nat): (n: nat)
    requires i <= |s|
    decreases |s| - i
  {
    if i == |s| then 0 else 1 + LengthFrom(s, i + CpLen(s, i))
  }

  function Length(s: bytes): nat {
    LengthFrom(s, 0)
  }

  function Substr(s: bytes, pos: int, len: int): bytes {
    if pos < 0 || len <= 0 then []
    else
      var start := Advance(s, 0, pos);
      s[start..Advance(s, start, len)]
  }

  function Replace(s: bytes, pos: int, len: int, repl: bytes): bytes {
    var start := Advance(s, 0, if pos < 0 then 0 else pos);
    var end := Advance(s, start, if len < 0 then 0 else len);
    s[..start] + repl + s[end..]
  }

  /** The first match of the needle from byte i on. */
  ghost function FirstMatch(s: bytes, n: bytes, i: nat): (r: Option<nat>)
    requires i <= |s|
    ensures match r
            case Some(b) => i <= b && MatchAt(s, n, b) && forall k :: i <= k < b ==> !MatchAt(s, n, k)
            case None => forall k :: i <= k ==> !MatchAt(s, n, k)
    decreases |s| - i
  {
    if i + |n| > |s| then None
    else if MatchAt(s, n, i) then Some(i)
    else if i == |s| then None
    else FirstMatch(s, n, i + 1)
  }

  /** How many sequences from p on begin before byte b. */
  function IndexOf(s: bytes, p: nat, b: nat): (n: nat)
    requires p <= |s|
    decreases |s| - p
  {
    if p >= b || p == |s| then 0 else 1 + IndexOf(s, p + CpLen(s, p), b)
  }

  /** find: the index of the first match in code points; None stands for the largest size. */
  ghost function Find(s: bytes, n: bytes): Option<nat> {
    if n == [] then Some(0)
    else match FirstMatch(s, n, 0)
      case None => None
      case Some(b) => Some(IndexOf(s, 0, b))
  }

  // ---- Segmentation ----

  lemma {:induction false} AdvanceAdd(s: bytes, i: nat, a: nat, b: nat)
    requires i <= |s|
    ensures Advance(s, Advance(s, i, a), b) == Advance(s, i, a + b)
    decreases a
  {
    if a > 0 && i < |s| { AdvanceAdd(s, i + CpLen(s, i), a - 1, b); }
  }

  lemma {:induction false} AdvanceLength(s: bytes, i: nat, a: nat)
    requires i <= |s|
    ensures LengthFrom(s, Advance(s, i, a)) == if a <= LengthFrom(s, i) then LengthFrom(s, i) - a else 0
    ensures a >= LengthFrom(s, i) ==> Advance(s, i, a) == |s|
    decreases a
  {
    if a > 0 && i < |s| { AdvanceLength(s, i + CpLen(s, i), a - 1); }
  }

  /** The sequence at i is the same in a part of s that holds all of it. */
  lemma CpLenInPart(s: bytes, from: nat, to: nat, i: nat)
    requires from + i < to <= |s| && from + i + CpLen(s, from + i) <= to
    ensures CpLen(s[from..to], i) == CpLen(s, from + i)
  {
    var t := s[from..to];
    var n := SeqLen(s[from + i]);
    if HasTail(s, from + i, n) {
      forall k | i < k < i + n ensures IsContinuation(t[k]) { assert t[k] == s[from + k]; }
    } else if HasTail(t, i, n) {
      forall k | from + i < k < from + i + n ensures IsContinuation(s[k]) { assert s[k] == t[k - from]; }
    }
  }

  /** A part of s that begins at a boundary and ends a sequences later has a sequences. */
  lemma {:induction false} PartLength(s: bytes, from: nat, i: nat, a: nat)
    requires from + i <= |s|
    ensures var to := Advance(s, from + i, a);
            LengthFrom(s[from..to], i) == if a <= LengthFrom(s, from + i) then a else LengthFrom(s, from + i)
    decreases a
  {
    var to := Advance(s, from + i, a);
    if a > 0 && from + i < |s| {
      CpLenInPart(s, from, to, i);
      PartLength(s, from, i + CpLen(s, from + i), a - 1);
    }
  }

  /** A substring has as many code points as asked for, or as there are, for all byte strings. */
  lemma SubstrLength(s: bytes, pos: nat, len: nat)
    ensures Length(Substr(s, pos, len)) == if pos + len <= Length(s) then len
                                          else if pos <= Length(s) then Length(s) - pos else 0
  {
    var start := Advance(s, 0, pos);
    AdvanceLength(s, 0, pos);
    PartLength(s, start, 0, len);
  }

  lemma SubstrIs(s: bytes, pos: nat, len: nat)
    ensures var x, y := Advance(s, 0, pos), Advance(s, 0, pos + len); x <= y && Substr(s, pos, len) == s[x..y]
  {
    AdvanceAdd(s, 0, pos, len);
  }

  /** Adjacent substrings concatenate. */
  lemma SubstrConcat(s: bytes, pos: nat, a: nat, b: nat)
    ensures Substr(s, pos, a) + Substr(s, pos + a, b) == Substr(s, pos, a + b)
  {
    SubstrIs(s, pos, a);
    SubstrIs(s, pos + a, b);
    SubstrIs(s, pos, a + b);
    Adjacent(s, Advance(s, 0, pos), Advance(s, 0, pos + a), Advance(s, 0, pos + a + b));
  }

  lemma Adjacent(s: bytes, x: nat, y: nat, z: nat)
    requires x <= y <= z <= |s|
    ensures s[x..y] + s[y..z] == s[x..z]
  {
  }

  lemma SubstrWhole(s: bytes)
    ensures Substr(s, 0, Length(s)) == s
  {
    AdvanceLength(s, 0, Length(s));
  }

  /** The first k code points and the rest make up the string. */
  lemma SubstrSplit(s: bytes, k: nat)
    requires k <= Length(s)
    ensures Substr(s, 0, k) + Substr(s, k, Length(s) - k) == s
  {
    SubstrConcat(s, 0, k, Length(s) - k);
    SubstrWhole(s);
  }

  /** Replacing is: what is before the position, the replacement, what is after the region. */
  lemma ReplaceParts(s: bytes, pos: nat, len: nat, repl: bytes)
    ensures Replace(s, pos, len, repl) == Substr(s, 0, pos) + repl + Substr(s, pos + len, Length(s))
  {
    AdvanceAdd(s, 0, pos, len);
    var end := Advance(s, 0, pos + len);
    AdvanceLength(s, 0, pos + len);
    AdvanceLength(s, end, Length(s));
  }

  lemma ReplaceIs(s: bytes, pos: int, len: int, repl: bytes, start: nat, end: nat)
    requires start == Advance(s, 0, if pos < 0 then 0 else pos) && end == Advance(s, start, if len < 0 then 0 else len)
    ensures Replace(s, pos, len, repl) == s[..start] + repl + s[end..]
  {
  }

  lemma ReplaceInEmpty(pos: int, len: int, repl: bytes)
    ensures Replace([], pos, len, repl) == repl
  {
  }

  // ---- Finding ----

  /** b is where a sequence begins, or the end, looking from boundary p on. */
  ghost predicate Boundary(s: bytes, p: nat, b: nat)
    requires p <= |s|
    decreases |s| - p
  {
    p == b || (p < |s| && p < b && Boundary(s, p + CpLen(s, p), b))
  }

  /** A byte that is not a continuation byte begins a sequence, in every byte string. */
  lemma {:induction false} LeadIsBoundary(s: bytes, p: nat, b: nat)
    requires p <= b < |s| && !IsContinuation(s[b])
    ensures Boundary(s, p, b)
    decreases b - p
  {
    if p < b { LeadIsBoundary(s, p + CpLen(s, p), b); }
  }

  lemma {:induction false} IndexAdvances(s: bytes, p: nat, b: nat)
    requires p <= |s| && b <= |s| && Boundary(s, p, b)
    ensures Advance(s, p, IndexOf(s, p, b)) == b
    decreases |s| - p
  {
    if p < b { IndexAdvances(s, p + CpLen(s, p), b); }
  }

  lemma {:induction false} AdvanceStrict(s: bytes, p: nat, b: nat, j: nat)
    requires p <= |s| && b <= |s| && Boundary(s, p, b) && j < IndexOf(s, p, b)
    ensures Advance(s, p, j) < b
    decreases |s| - p
  {
    if j > 0 { AdvanceStrict(s, p + CpLen(s, p), b, j - 1); }
  }

  /** What find promises: the index returned is the first at which the needle is the substring of its
      length, and none is returned exactly when there is no such index. */
  ghost predicate FindHolds(s: bytes, n: bytes) {
    match Find(s, n)
    case Some(i) => Substr(s, i, Length(n)) == n && forall j: nat :: j < i ==> Substr(s, j, Length(n)) != n
    case None => forall j: nat :: Substr(s, j, Length(n)) != n
  }

  /** The end of the string cuts off the sequence that begins at i: what is there of it are its lead byte
      and continuation bytes only, so that more of them could follow. */
  predicate CutOff(n: bytes, i: nat)
    requires i < |n|
  {
    |n| < i + SeqLen(n[i]) && forall k :: i < k < |n| ==> IsContinuation(n[k])
  }

  predicate NoneCutOff(n: bytes, i: nat)
    requires i <= |n|
    decreases |n| - i
  {
    i < |n| ==> !CutOff(n, i) && NoneCutOff(n, i + CpLen(n, i))
  }

  /** Neither end of the needle can join with bytes around it: it does not begin with a continuation byte,
      and none of its sequences is cut off. */
  predicate SelfContained(n: bytes) {
    n == [] || (!IsContinuation(n[0]) && NoneCutOff(n, 0))
  }

  lemma MatchByte(s: bytes, n: bytes, b: nat, i: nat)
    requires MatchAt(s, n, b) && i < |n|
    ensures s[b + i] == n[i]
  {
    assert s[b..b + |n|][i] == n[i];
  }

  /** A sequence of the needle that is not cut off is the same sequence where the needle matches. */
  lemma CpLenInMatch(s: bytes, n: bytes, b: nat, i: nat)
    requires MatchAt(s, n, b) && i < |n| && !CutOff(n, i)
    ensures CpLen(s, b + i) == CpLen(n, i)
  {
    forall k | i <= k < |n| ensures s[b + k] == n[k] { MatchByte(s, n, b, k); }
    var w := SeqLen(n[i]);
    if HasTail(n, i, w) {
      forall k | b + i < k < b + i + w ensures IsContinuation(s[k]) { assert s[b + (k - b)] == n[k - b]; }
    } else {
      var k :| i < k < |n| && k < i + w && !IsContinuation(n[k]);
      assert !IsContinuation(s[b + k]);
    }
  }

  lemma {:induction false} AdvanceOverMatch(s: bytes, n: bytes, b: nat, i: nat)
    requires MatchAt(s, n, b) && i <= |n| && NoneCutOff(n, i)
    ensures Advance(s, b + i, LengthFrom(n, i)) == b + |n|
    decreases |n| - i
  {
    if i < |n| {
      CpLenInMatch(s, n, b, i);
      AdvanceOverMatch(s, n, b, i + CpLen(n, i));
    }
  }

  lemma SubstrIsMatch(s: bytes, n: bytes, j: nat)
    requires n != [] && Substr(s, j, Length(n)) == n
    ensures MatchAt(s, n, Advance(s, 0, j))
  {
  }

  lemma MatchIsSubstr(s: bytes, n: bytes, b: nat)
    requires n != [] && SelfContained(n) && MatchAt(s, n, b)
    ensures Boundary(s, 0, b) && Substr(s, IndexOf(s, 0, b), Length(n)) == n
  {
    MatchByte(s, n, b, 0);
    LeadIsBoundary(s, 0, b);
    IndexAdvances(s, 0, b);
    AdvanceOverMatch(s, n, b, 0);
  }

  lemma SelfContainedFound(s: bytes, n: bytes)
    requires SelfContained(n)
    ensures FindHolds(s, n)
  {
    if n != [] {
      var first := FirstMatch(s, n, 0);
      if first == None {
        forall j: nat ensures Substr(s, j, Length(n)) != n {
          if Substr(s, j, Length(n)) == n { SubstrIsMatch(s, n, j); }
        }
      } else {
        MatchIsSubstr(s, n, first.value);
        forall j: nat | j < IndexOf(s, 0, first.value) ensures Substr(s, j, Length(n)) != n {
          AdvanceStrict(s, 0, first.value, j);
          if Substr(s, j, Length(n)) == n { SubstrIsMatch(s, n, j); }
        }
      }
    }
  }

  /** A needle that begins with a continuation byte is found inside the sequence of a lead byte before it,
      where no index points. */
  lemma FindInsideSequence(n: bytes)
    requires n != [] && IsContinuation(n[0])
    ensures Find([0xC3] + n, n) == Some(1) && forall j: nat :: Substr([0xC3] + n, j, Length(n)) != n
  {
    var s: bytes := [0xC3] + n;
    assert !MatchAt(s, n, 0) by { assert s[0..0 + |n|][0] == 0xC3; }
    assert MatchAt(s, n, 1) by { assert s[1..1 + |n|] == n; }
    assert FirstMatch(s, n, 0) == Some(1);
    assert CpLen(s, 0) == 2;
    assert IndexOf(s, 0, 1) == 1 + IndexOf(s, 2, 1) == 1;
    forall j: nat ensures Substr(s, j, Length(n)) != n {
      if j > 0 { assert Advance(s, 0, j) == Advance(s, 2, j - 1) >= 2; }
      if Substr(s, j, Length(n)) == n { SubstrIsMatch(s, n, j); }
    }
  }

  /** The missing continuation bytes of the last sequence of n. */
  function Missing(n: bytes, i: nat): bytes
    requires i < |n| && CutOff(n, i)
  {
    seq(i + SeqLen(n[i]) - |n|, _ => 0x80)
  }

  /** Completed by its missing bytes, the last sequence of n reaches beyond n. */
  lemma {:induction false} CompletedReachesBeyond(n: bytes, i: nat) returns (more: bytes)
    requires i <= |n| && !NoneCutOff(n, i)
    ensures more != [] && Advance(n + more, i, LengthFrom(n, i)) > |n|
    decreases |n| - i
  {
    if CutOff(n, i) {
      more := Missing(n, i);
      var s := n + more;
      assert HasTail(s, i, SeqLen(s[i]));
      assert CpLen(s, i) == SeqLen(n[i]);
    } else {
      more := CompletedReachesBeyond(n, i + CpLen(n, i));
      assert MatchAt(n + more, n, 0) by { assert (n + more)[0..0 + |n|] == n; }
      CpLenInMatch(n + more, n, 0, i);
    }
  }

  /** A needle whose last sequence is cut off matches in front of the rest of that sequence, where no
      substring ends. */
  lemma NextBytesJoin(n: bytes) returns (more: bytes)
    requires n != [] && !NoneCutOff(n, 0)
    ensures !FindHolds(n + more, n)
  {
    more := CompletedReachesBeyond(n, 0);
    var s := n + more;
    assert MatchAt(s, n, 0) by { assert s[0..0 + |n|] == n; }
    assert FirstMatch(s, n, 0) == Some(0) && IndexOf(s, 0, 0) == 0;
    assert |Substr(s, 0, Length(n))| > |n|;
  }

  /** For which needles find keeps its promise, whatever it searches in. */
  lemma FindCorrectExactly(n: bytes)
    ensures (forall s :: FindHolds(s, n)) <==> SelfContained(n)
  {
    if SelfContained(n) {
      forall s ensures FindHolds(s, n) { SelfContainedFound(s, n); }
    } else if IsContinuation(n[0]) {
      FindInsideSequence(n);
      assert !FindHolds([0xC3] + n, n);
    } else {
      var more := NextBytesJoin(n);
    }
  }

  /** Every sequence from i on is a single byte below 0x80 or a lead byte with all its continuation bytes.
      Text that is well-formed by section 3 of RFC 3629 is of this form. */
  ghost predicate WellFormedFrom(s: bytes, i: nat)
    requires i <= |s|
    decreases |s| - i
  {
    i < |s| ==>
      (s[i] < 0x80 || SeqLen(s[i]) > 1) && HasTail(s, i, SeqLen(s[i])) && WellFormedFrom(s, i + CpLen(s, i))
  }

  ghost predicate WellFormed(s: bytes) {
    WellFormedFrom(s, 0)
  }

  lemma {:induction false} WellFormedNotCut(n: bytes, i: nat)
    requires i <= |n| && WellFormedFrom(n, i)
    ensures NoneCutOff(n, i)
    decreases |n| - i
  {
    if i < |n| { WellFormedNotCut(n, i + CpLen(n, i)); }
  }

  /** In particular for a well-formed needle, in any byte string. */
  lemma FindCorrect(s: bytes, n: bytes)
    requires WellFormed(n)
    ensures FindHolds(s, n)
  {
    WellFormedNotCut(n, 0);
    SelfContainedFound(s, n);
  }
}
