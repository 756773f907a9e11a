/** split, join and replace_all of include/cstring.h as functions on byte strings, and their algebra. */
module SplitJoin {
  import opened Modular
  import opened Prelude

  /** The needle stands in s at i. */
  ghost predicate MatchAt(s: bytes, n: bytes, i: nat) {
    i + |n| <= |s| && s[i..i + |n|] == n
  }

  /** Where matches begin. */
  type Matcher = nat -> bool

  ghost function At(s: bytes, n: bytes): Matcher {
    (i: nat) => MatchAt(s, n, i)
  }

  /** The pieces of s, the current one from `start`, with matches of length w looked for from i on. */
  ghost function SplitFrom(m: Matcher, w: nat, s: bytes, start: nat, i: nat): (ps: seq<bytes>)
    requires w > 0 && start <= i <= |s|
    ensures ps != []
    decreases |s| - i
  {
    if i + w > |s| then [s[start..]]
    else if m(i) then [s[start..i]] + SplitFrom(m, w, s, i + w, i + w)
    else SplitFrom(m, w, s, start, i + 1)
  }

  ghost function Split(s: bytes, d: bytes): seq<bytes> {
    if d == [] then [s] else SplitFrom(At(s, d), |d|, s, 0, 0)
  }

  function Join(ps: seq<bytes>, d: bytes): bytes {
    if ps == [] then [] else if |ps| == 1 then ps[0] else ps[0] + (d + Join(ps[1..], d))
  }

  ghost function ReplaceFrom(m: Matcher, w: nat, s: bytes, r: bytes, i: nat): bytes
    requires w > 0 && i <= |s|
    decreases |s| - i
  {
    if i + w > |s| then s[i..]
    else if m(i) then r + ReplaceFrom(m, w, s, r, i + w)
    else [s[i]] + ReplaceFrom(m, w, s, r, i + 1)
  }

  ghost function ReplaceAll(s: bytes, n: bytes, r: bytes): bytes {
    if n == [] then s else ReplaceFrom(At(s, n), |n|, s, r, 0)
  }

  /** The non-overlapping matches from i on. */
  ghost function Matches(m: Matcher, w: nat, s: bytes, i: nat): nat
    requires w > 0 && i <= |s|
    decreases |s| - i
  {
    if i + w > |s| then 0
    else if m(i) then 1 + Matches(m, w, s, i + w)
    else Matches(m, w, s, i + 1)
  }

  lemma JoinCons(p: bytes, ps: seq<bytes>, d: bytes)
    requires ps != []
    ensures Join([p] + ps, d) == p + (d + Join(ps, d))
  {
    assert ([p] + ps)[1..] == ps;
  }

  lemma {:induction false} JoinSnoc(ps: seq<bytes>, p: bytes, d: bytes)
    requires ps != []
    ensures Join(ps + [p], d) == Join(ps, d) + d + p
  {
    if |ps| == 1 {
      assert (ps + [p])[1..] == [p] && Join([p], d) == p;
    } else {
      assert (ps + [p])[1..] == ps[1..] + [p];
      JoinSnoc(ps[1..], p, d);
      assert ps[0] + (d + (Join(ps[1..], d) + d + p)) == ps[0] + (d + Join(ps[1..], d)) + d + p;
    }
  }

  lemma MoveByte(s: bytes, start: nat, i: nat, rest: bytes)
    requires start <= i < |s|
    ensures s[start..i] + ([s[i]] + rest) == s[start..i + 1] + rest
  {
    assert s[start..i + 1] == s[start..i] + [s[i]];
  }

  lemma EmptyPiece(s: bytes, i: nat, rest: bytes)
    requires i <= |s|
    ensures s[i..i] + rest == rest
  {
  }

  /** What the second pass of replace_all still has to write, when the current piece began at `start`, is
      the join of what split still has to emit. */
  ghost predicate Agree(m: Matcher, w: nat, s: bytes, r: bytes, start: nat, i: nat)
    requires w > 0 && start <= i <= |s|
  {
    s[start..i] + ReplaceFrom(m, w, s, r, i) == Join(SplitFrom(m, w, s, start, i), r)
  }

  lemma AgreeMatch(m: Matcher, w: nat, s: bytes, r: bytes, start: nat, i: nat)
    requires w > 0 && start <= i && i + w <= |s| && m(i) && Agree(m, w, s, r, i + w, i + w)
    ensures Agree(m, w, s, r, start, i)
  {
    var piece, rest, tail := s[start..i], SplitFrom(m, w, s, i + w, i + w), ReplaceFrom(m, w, s, r, i + w);
    EmptyPiece(s, i + w, tail);
    JoinCons(piece, rest, r);
    assert ReplaceFrom(m, w, s, r, i) == r + tail && SplitFrom(m, w, s, start, i) == [piece] + rest;
  }

  lemma AgreeSkip(m: Matcher, w: nat, s: bytes, r: bytes, start: nat, i: nat)
    requires w > 0 && start <= i && i + w <= |s| && !m(i) && Agree(m, w, s, r, start, i + 1)
    ensures Agree(m, w, s, r, start, i)
  {
    MoveByte(s, start, i, ReplaceFrom(m, w, s, r, i + 1));
    assert SplitFrom(m, w, s, start, i) == SplitFrom(m, w, s, start, i + 1);
  }

  lemma AgreeEnd(m: Matcher, w: nat, s: bytes, r: bytes, start: nat, i: nat)
    requires w > 0 && start <= i <= |s| < i + w
    ensures Agree(m, w, s, r, start, i)
  {
    assert s[start..i] + s[i..] == s[start..];
  }

  lemma {:induction false} AgreeAll(m: Matcher, w: nat, s: bytes, r: bytes, start: nat, i: nat)
    requires w > 0 && start <= i <= |s|
    ensures Agree(m, w, s, r, start, i)
    decreases |s| - i
  {
    if i + w > |s| {
      AgreeEnd(m, w, s, r, start, i);
    } else if m(i) {
      AgreeAll(m, w, s, r, i + w, i + w);
      AgreeMatch(m, w, s, r, start, i);
    } else {
      AgreeAll(m, w, s, r, start, i + 1);
      AgreeSkip(m, w, s, r, start, i);
    }
  }

  /** Replacing every occurrence is splitting at the needle and joining with the replacement. */
  lemma ReplaceAllIsJoin(s: bytes, n: bytes, r: bytes)
    requires n != []
    ensures ReplaceAll(s, n, r) == Join(Split(s, n), r)
  {
    AgreeAll(At(s, n), |n|, s, r, 0, 0);
    EmptyPiece(s, 0, ReplaceFrom(At(s, n), |n|, s, r, 0));
  }

  lemma {:induction false} ReplaceBySelf(s: bytes, n: bytes, i: nat)
    requires n != [] && i <= |s|
    ensures ReplaceFrom(At(s, n), |n|, s, n, i) == s[i..]
    decreases |s| - i
  {
    if i + |n| <= |s| {
      if MatchAt(s, n, i) {
        ReplaceBySelf(s, n, i + |n|);
        assert s[i..] == s[i..i + |n|] + s[i + |n|..];
      } else {
        ReplaceBySelf(s, n, i + 1);
        assert s[i..] == [s[i]] + s[i + 1..];
      }
    }
  }

  /** Joining with the delimiter undoes splitting at it. */
  lemma JoinSplit(s: bytes, d: bytes)
    ensures Join(Split(s, d), d) == s
  {
    if d != [] {
      ReplaceAllIsJoin(s, d, d);
      ReplaceBySelf(s, d, 0);
    }
  }

  /** The first pass counts what the second writes. */
  lemma {:induction false} SplitCount(m: Matcher, w: nat, s: bytes, start: nat, i: nat)
    requires w > 0 && start <= i <= |s|
    ensures |SplitFrom(m, w, s, start, i)| == 1 + Matches(m, w, s, i)
    decreases |s| - i
  {
    if i + w <= |s| {
      if m(i) {
        SplitCount(m, w, s, i + w, i + w);
      } else {
        SplitCount(m, w, s, start, i + 1);
      }
    }
  }

  lemma {:induction false} ReplaceCount(m: Matcher, w: nat, s: bytes, r: bytes, i: nat)
    requires w > 0 && i <= |s|
    ensures |ReplaceFrom(m, w, s, r, i)| == (|s| - i - Matches(m, w, s, i) * w) + Matches(m, w, s, i) * |r|
    ensures Matches(m, w, s, i) * w <= |s| - i
    decreases |s| - i
  {
    if i + w <= |s| {
      if m(i) {
        ReplaceCount(m, w, s, r, i + w);
        OneMore(Matches(m, w, s, i + w), w);
        OneMore(Matches(m, w, s, i + w), |r|);
      } else {
        ReplaceCount(m, w, s, r, i + 1);
      }
    }
  }

  // ---- When splitting undoes joining ----

  /** A piece that is followed by the delimiter ends where the scan first finds it. */
  ghost predicate EndsAtDelimiter(p: bytes, d: bytes) {
    forall k :: 0 <= k < |p| ==> !MatchAt(p + d, d, k)
  }

  ghost predicate Contains(p: bytes, d: bytes) {
    exists k: nat :: MatchAt(p, d, k)
  }

  ghost predicate Clean(ps: seq<bytes>, d: bytes) {
    ps != [] && !Contains(ps[|ps| - 1], d) && forall i :: 0 <= i < |ps| - 1 ==> EndsAtDelimiter(ps[i], d)
  }

  /** No match starts in s before i, from start on. */
  ghost predicate Scanned(s: bytes, d: bytes, start: nat, i: nat) {
    forall k :: start <= k < i ==> !MatchAt(s, d, k)
  }

  /** t is s from `start` on, as far as it goes. */
  ghost predicate Window(s: bytes, start: nat, t: bytes) {
    start + |t| <= |s| && forall j :: 0 <= j < |t| ==> t[j] == s[start + j]
  }

  lemma MatchInWindow(s: bytes, start: nat, t: bytes, d: bytes, k: nat)
    requires Window(s, start, t) && k + |d| <= |t|
    ensures MatchAt(t, d, k) <==> MatchAt(s, d, start + k)
  {
    assert t[k..k + |d|] == s[start + k..start + k + |d|];
  }

  lemma PieceClean(s: bytes, d: bytes, start: nat, i: nat)
    requires start <= i && MatchAt(s, d, i) && Scanned(s, d, start, i)
    ensures EndsAtDelimiter(s[start..i], d)
  {
    var t := s[start..i] + d;
    forall k | 0 <= k < i - start ensures !MatchAt(t, d, k) {
      MatchInWindow(s, start, t, d, k);
      assert !MatchAt(s, d, start + k);
    }
  }

  lemma LastClean(s: bytes, d: bytes, start: nat, i: nat)
    requires d != [] && start <= i <= |s| < i + |d| && Scanned(s, d, start, i)
    ensures !Contains(s[start..], d)
  {
    var t := s[start..];
    forall k: nat ensures !MatchAt(t, d, k) {
      if k + |d| <= |t| {
        MatchInWindow(s, start, t, d, k);
        assert !MatchAt(s, d, start + k);
      }
    }
  }

  lemma {:induction false} SplitFromClean(s: bytes, d: bytes, start: nat, i: nat)
    requires d != [] && start <= i <= |s| && Scanned(s, d, start, i)
    ensures Clean(SplitFrom(At(s, d), |d|, s, start, i), d)
    decreases |s| - i
  {
    if i + |d| > |s| {
      LastClean(s, d, start, i);
    } else if MatchAt(s, d, i) {
      var rest := SplitFrom(At(s, d), |d|, s, i + |d|, i + |d|);
      SplitFromClean(s, d, i + |d|, i + |d|);
      PieceClean(s, d, start, i);
      var ps := [s[start..i]] + rest;
      assert ps[|ps| - 1] == rest[|rest| - 1];
      forall k | 0 <= k < |ps| - 1 ensures EndsAtDelimiter(ps[k], d) {
        if k > 0 { assert ps[k] == rest[k - 1]; }
      }
    } else {
      SplitFromClean(s, d, start, i + 1);
    }
  }

  /** No piece contains the delimiter. */
  lemma PiecesLack(s: bytes, d: bytes, i: nat)
    requires d != [] && i < |Split(s, d)|
    ensures !Contains(Split(s, d)[i], d)
  {
    var ps := Split(s, d);
    SplitFromClean(s, d, 0, 0);
    if i < |ps| - 1 {
      var p := ps[i];
      assert EndsAtDelimiter(p, d);
      forall k: nat ensures !MatchAt(p, d, k) {
        if k + |d| <= |p| { MatchInWindow(p + d, 0, p, d, k); }
      }
    }
  }

  lemma NoMatchYet(s: bytes, d: bytes, ps: seq<bytes>, start: nat, i: nat)
    requires d != [] && Clean(ps, d) && start <= i && i + |d| <= |s| && s[start..] == Join(ps, d)
    requires |ps| == 1 || i < start + |ps[0]|
    ensures !MatchAt(s, d, i)
  {
    if |ps| == 1 {
      assert !Contains(ps[0], d);
      MatchInWindow(s, start, ps[0], d, i - start);
    } else {
      assert EndsAtDelimiter(ps[0], d);
      JoinFront(s, d, ps, start);
      MatchInWindow(s, start, ps[0] + d, d, i - start);
    }
  }

  lemma SplitAtMatch(m: Matcher, w: nat, s: bytes, ps: seq<bytes>, start: nat, i: nat)
    requires w > 0 && start <= i && i + w <= |s| && m(i) && ps != [] && s[start..i] == ps[0]
    requires SplitFrom(m, w, s, i + w, i + w) == ps[1..]
    ensures SplitFrom(m, w, s, start, i) == ps
  {
    assert ps == [ps[0]] + ps[1..];
  }

  lemma SplitAtSkip(m: Matcher, w: nat, s: bytes, ps: seq<bytes>, start: nat, i: nat)
    requires w > 0 && start <= i && i + w <= |s| && !m(i) && SplitFrom(m, w, s, start, i + 1) == ps
    ensures SplitFrom(m, w, s, start, i) == ps
  {
  }

  lemma SplitAtEnd(m: Matcher, w: nat, s: bytes, ps: seq<bytes>, start: nat, i: nat)
    requires w > 0 && start <= i <= |s| < i + w && ps == [s[start..]]
    ensures SplitFrom(m, w, s, start, i) == ps
  {
  }

  lemma LeftIsLast(s: bytes, d: bytes, ps: seq<bytes>, start: nat, i: nat)
    requires d != [] && ps != [] && start <= i <= |s| < i + |d| && i <= start + |ps[0]| && s[start..] == Join(ps, d)
    requires |ps| == 1 || i < start + |ps[0]|
    ensures ps == [s[start..]]
  {
    JoinLength(ps, d);
  }

  /** Scanning a clean list of pieces from the start of one of them. */
  lemma {:induction false} SplitFromJoin(s: bytes, d: bytes, ps: seq<bytes>, start: nat, i: nat)
    requires d != [] && Clean(ps, d) && start <= i <= |s| && i <= start + |ps[0]| && s[start..] == Join(ps, d)
    ensures SplitFrom(At(s, d), |d|, s, start, i) == ps
    decreases |s| - i
  {
    if |ps| > 1 && i == start + |ps[0]| {
      JoinAfter(s, d, ps, start, i);
      CleanTail(ps, d);
      SplitFromJoin(s, d, ps[1..], i + |d|, i + |d|);
      SplitAtMatch(At(s, d), |d|, s, ps, start, i);
    } else if i + |d| <= |s| {
      NoMatchYet(s, d, ps, start, i);
      SplitFromJoin(s, d, ps, start, i + 1);
      SplitAtSkip(At(s, d), |d|, s, ps, start, i);
    } else {
      LeftIsLast(s, d, ps, start, i);
      SplitAtEnd(At(s, d), |d|, s, ps, start, i);
    }
  }

  lemma JoinLength(ps: seq<bytes>, d: bytes)
    requires ps != []
    ensures if |ps| == 1 then Join(ps, d) == ps[0] else |Join(ps, d)| >= |ps[0]| + |d|
  {
  }

  lemma FrontWindow(s: bytes, start: nat, t: bytes, rest: bytes)
    requires start <= |s| && s[start..] == t + rest
    ensures Window(s, start, t)
  {
    forall j | 0 <= j < |t| ensures t[j] == s[start + j] { assert s[start..][j] == t[j]; }
  }

  lemma JoinFront(s: bytes, d: bytes, ps: seq<bytes>, start: nat)
    requires |ps| > 1 && start <= |s| && s[start..] == Join(ps, d)
    ensures Window(s, start, ps[0] + d)
  {
    Reassociate(ps[0], d, Join(ps[1..], d));
    FrontWindow(s, start, ps[0] + d, Join(ps[1..], d));
  }

  lemma JoinAfter(s: bytes, d: bytes, ps: seq<bytes>, start: nat, i: nat)
    requires |ps| > 1 && start <= |s| && s[start..] == Join(ps, d) && i == start + |ps[0]|
    ensures i + |d| <= |s| && s[start..i] == ps[0] && MatchAt(s, d, i) && s[i + |d|..] == Join(ps[1..], d)
  {
    var p, rest := ps[0], Join(ps[1..], d);
    Reassociate(p, d, rest);
    ThreeParts(s, start, p, d, rest);
  }

  lemma ThreeParts(s: bytes, start: nat, p: bytes, d: bytes, rest: bytes)
    requires start <= |s| && s[start..] == (p + d) + rest
    ensures var i := start + |p|; s[start..i] == p && s[i..i + |d|] == d && s[i + |d|..] == rest
  {
    var t := s[start..];
    assert s[start..start + |p|] == t[..|p|] == p;
    assert s[start + |p|..start + |p| + |d|] == t[|p|..|p| + |d|] == d;
    assert s[start + |p| + |d|..] == t[|p| + |d|..] == rest;
  }

  lemma CleanTail(ps: seq<bytes>, d: bytes)
    requires Clean(ps, d) && |ps| > 1
    ensures Clean(ps[1..], d)
  {
    forall i | 0 <= i < |ps| - 2 ensures EndsAtDelimiter(ps[1..][i], d) { assert EndsAtDelimiter(ps[i + 1], d); }
  }

  /** Splitting undoes joining exactly when no delimiter can be seen before its place: the last piece does
      not contain it, and no other piece together with the delimiter after it shows it any earlier. */
  lemma SplitJoin(ps: seq<bytes>, d: bytes)
    requires d != []
    ensures Split(Join(ps, d), d) == ps <==> Clean(ps, d)
  {
    var s := Join(ps, d);
    SplitFromClean(s, d, 0, 0);
    if Clean(ps, d) {
      assert s[0..] == s;
      SplitFromJoin(s, d, ps, 0, 0);
    }
  }

  /** With a delimiter of one byte that means that no piece contains it. */
  lemma SplitJoinByte(ps: seq<bytes>, c: byte)
    ensures Split(Join(ps, [c]), [c]) == ps <==> ps != [] && forall i :: 0 <= i < |ps| ==> c !in ps[i]
  {
    SplitJoin(ps, [c]);
    forall i | 0 <= i < |ps| ensures c in ps[i] <==> Contains(ps[i], [c])
      ensures c in ps[i] <==> !EndsAtDelimiter(ps[i], [c])
    {
      ByteContained(ps[i], c);
    }
  }

  lemma ByteContained(p: bytes, c: byte)
    ensures c in p <==> Contains(p, [c])
    ensures c in p <==> !EndsAtDelimiter(p, [c])
  {
    forall k: nat ensures MatchAt(p, [c], k) <==> k < |p| && p[k] == c { ByteMatch(p, c, k); }
    forall k: nat ensures MatchAt(p + [c], [c], k) <==> k < |p + [c]| && (p + [c])[k] == c { ByteMatch(p + [c], c, k); }
    if k: nat :| k < |p| && p[k] == c {
      assert MatchAt(p, [c], k) && MatchAt(p + [c], [c], k);
    }
  }

  lemma ByteMatch(p: bytes, c: byte, k: nat)
    ensures MatchAt(p, [c], k) <==> k < |p| && p[k] == c
  {
    if k < |p| { assert p[k..k + 1] == [p[k]]; }
  }

  /** A longer delimiter can also show across the end of a piece that lacks it. */
  lemma LongDelimiterMoves()
    ensures var ps: seq<bytes> := [[97], []]; var d: bytes := [97, 97];
            (forall i :: 0 <= i < |ps| ==> !Contains(ps[i], d)) && Split(Join(ps, d), d) == [[], [97]] != ps
  {
    var d: bytes := [97, 97];
    var ps: seq<bytes> := [[97], []];
    var t: bytes := [97, 97, 97];
    assert ps[1..] == [[]] && Join(ps[1..], d) == [];
    assert Join(ps, d) == t;
    assert MatchAt(t, d, 0);
    assert SplitFrom(At(t, d), |d|, t, 2, 2) == [t[2..]] && t[2..] == [97];
    assert t[0..0] == [] && SplitFrom(At(t, d), |d|, t, 0, 0) == [[]] + [[97]];
  }
}
