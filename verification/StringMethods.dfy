/** The String operations of include/cstring.h as they run: pointers into zero-terminated buffers, results in
    freshly allocated ones whose size is computed first. */
module StringMethods {
  import opened Modular
  import opened Prelude
  import opened CStrings
  import opened SplitJoin
  import opened Utf8

  // ---- Code points ----

  /** The length of the sequence at i.  The scan of its continuation bytes ends at the terminator at the latest. */
  method SequenceAt(s: array<byte>, i: nat, ghost t: bytes) returns (n: nat)
    requires IsText(s, t) && i < |t|
    ensures n == CpLen(t, i)
  {
    n := SeqLen(s[i]);
    var k := 1;
    while k < n
      invariant 1 <= k <= n == SeqLen(t[i]) && i + k <= |t|
      invariant forall j :: i < j < i + k ==> IsContinuation(t[j])
    {
      if !IsContinuation(s[i + k]) {
        assert i + k < |t| ==> !IsContinuation(t[i + k]);
        return 1;
      }
      k := k + 1;
    }
  }

  /** c2m__u8_advance. */
  method AdvanceBy(s: array<byte>, from: nat, cp: nat, ghost t: bytes) returns (p: nat)
    requires IsText(s, t) && from <= |t|
    ensures p == Advance(t, from, cp)
  {
    p := from;
    var i := 0;
    while i < cp && s[p] != 0
      invariant 0 <= i <= cp && p <= |t| && Advance(t, from, cp) == Advance(t, p, cp - i)
    {
      var n := SequenceAt(s, p, t);
      p := p + n;
      i := i + 1;
    }
  }

  /** c2m_str_length. */
  method StrLength(s: array?<byte>, ghost t: bytes) returns (count: nat)
    requires IsText(s, t)
    ensures count == Length(t)
  {
    count := 0;
    if s != null {
      var p := 0;
      while s[p] != 0
        invariant p <= |t| && Length(t) == count + LengthFrom(t, p)
        decreases |t| - p
      {
        var n := SequenceAt(s, p, t);
        p := p + n;
        count := count + 1;
      }
    }
  }

  /** c2m_str_substr. */
  method StrSubstr(s: array?<byte>, pos: int, len: int, ghost t: bytes) returns (r: array<byte>)
    requires IsText(s, t)
    ensures fresh(r) && IsText(r, Substr(t, pos, len))
  {
    if s == null || pos < 0 || len <= 0 {
      r := NewString(null, 0, 0, []);
      return;
    }
    var start := AdvanceBy(s, 0, pos, t);
    if s[start] == 0 {
      r := NewString(null, 0, 0, []);
      return;
    }
    var end := AdvanceBy(s, start, len, t);
    r := NewString(s, start, end - start, t[start..end]);
  }

  /** The comparison loop of find, replace_all and split. */
  method Matches(s: array<byte>, i: nat, n: array<byte>, nl: nat, ghost t: bytes, ghost d: bytes) returns (found: bool)
    requires IsText(s, t) && IsText(n, d) && nl == |d| && i + nl <= |t|
    ensures found == MatchAt(t, d, i)
  {
    var j := 0;
    while j < nl
      invariant 0 <= j <= nl && forall k :: 0 <= k < j ==> t[i..i + nl][k] == d[k]
    {
      assert t[i..i + nl][j] == s[i + j];
      if s[i + j] != n[j] { return false; }
      j := j + 1;
    }
    return true;
  }

  /** c2m_str_find; None stands for the largest size. */
  method StrFind(s: array?<byte>, n: array?<byte>, ghost t: bytes, ghost d: bytes) returns (r: Option<nat>)
    requires IsText(s, t) && IsText(n, d)
    ensures r == if s == null || n == null then None else Find(t, d)
  {
    if s == null || n == null { return None; }
    var nl := ByteLen(n, d);
    if nl == 0 { return Some(0); }
    var sl := ByteLen(s, t);
    if nl > sl { return None; }
    var i := 0;
    while i + nl <= sl
      invariant i <= sl && FirstMatch(t, d, 0) == FirstMatch(t, d, i)
    {
      var found := Matches(s, i, n, nl, t, d);
      if found {
        var idx := IndexAt(s, i, t);
        return Some(idx);
      }
      i := i + 1;
    }
    return None;
  }

  /** Convert a byte offset to a code-point index. */
  method IndexAt(s: array<byte>, b: nat, ghost t: bytes) returns (idx: nat)
    requires IsText(s, t)
    ensures idx == IndexOf(t, 0, b)
  {
    var p := 0;
    idx := 0;
    while p < b && s[p] != 0
      invariant p <= |t| && IndexOf(t, 0, b) == idx + IndexOf(t, p, b)
      decreases |t| - p
    {
      var n := SequenceAt(s, p, t);
      p := p + n;
      idx := idx + 1;
    }
  }

  /** A fresh String: the first bytes of s, the replacement, and what is in s from `end` on. */
  method ThreeParts(s: array<byte>, pre: nat, repl: array?<byte>, rl: nat, end: nat, post: nat,
                    ghost a: bytes, ghost b: bytes, ghost c: bytes) returns (r: array<byte>)
    requires NulFree(a) && NulFree(c) && IsText(repl, b) && rl == |b|
    requires |a| == pre && Wrote(s, a)
    requires |c| == post && end + post <= s.Length && forall k :: 0 <= k < post ==> c[k] == s[end + k]
    ensures fresh(r) && IsText(r, a + b + c)
  {
    r := new byte[pre + rl + post + 1];
    Copy(r, 0, [], s, 0, pre, a);
    assert [] + a == a;
    if rl != 0 { Copy(r, pre, a, repl, 0, rl, b); } else { assert a + b == a; }
    Copy(r, pre + rl, a + b, s, end, post, c);
    Terminate(r, pre + rl + post, a + b + c);
  }

  /** c2m_str_replace. */
  method StrReplace(s: array?<byte>, pos: int, len: int, repl: array?<byte>, ghost t: bytes, ghost rt: bytes)
    returns (r: array<byte>)
    requires IsText(s, t) && IsText(repl, rt)
    ensures fresh(r) && IsText(r, Replace(t, pos, len, rt))
  {
    var rl := ByteLen(repl, rt);
    if s == null {
      ReplaceInEmpty(pos, len, rt);
      r := NewString(repl, 0, rl, rt);
      return;
    }
    var start := AdvanceBy(s, 0, if pos < 0 then 0 else pos, t);
    var end := AdvanceBy(s, start, if len < 0 then 0 else len, t);
    var sl := ByteLen(s, t);
    ReplaceIs(t, pos, len, rt, start, end);
    r := ThreeParts(s, start, repl, rl, end, sl - end, t[..start], rt, t[end..]);
  }

  // ---- Search and replace ----

  /** The first pass of replace_all and split. */
  method CountMatches(s: array<byte>, sl: nat, n: array<byte>, nl: nat, ghost t: bytes, ghost d: bytes)
    returns (count: nat)
    requires IsText(s, t) && IsText(n, d) && sl == |t| && nl == |d| > 0
    ensures count == SplitJoin.Matches(At(t, d), nl, t, 0)
  {
    count := 0;
    var i := 0;
    while i + nl <= sl
      invariant i <= sl
      invariant count + SplitJoin.Matches(At(t, d), nl, t, i) == SplitJoin.Matches(At(t, d), nl, t, 0)
      decreases sl - i
    {
      var found := Matches(s, i, n, nl, t, d);
      if found {
        count := count + 1;
        i := i + nl;
      } else {
        i := i + 1;
      }
    }
  }

  /** c2m_str_replace_all: the buffer allocated after the first pass is filled exactly. */
  method StrReplaceAll(s: array?<byte>, n: array?<byte>, repl: array?<byte>, ghost t: bytes, ghost d: bytes,
                       ghost rt: bytes)
    returns (r: array<byte>)
    requires IsText(s, t) && IsText(n, d) && IsText(repl, rt)
    ensures fresh(r) && IsText(r, ReplaceAll(t, d, rt)) && r.Length == |ReplaceAll(t, d, rt)| + 1
  {
    var sl := ByteLen(s, t);
    var nl := ByteLen(n, d);
    var rl := ByteLen(repl, rt);
    if nl == 0 || nl > sl {
      r := NewString(s, 0, sl, t);
      assert t[0..] == t;
      return;
    }
    var count := CountMatches(s, sl, n, nl, t, d);
    ReplaceCount(At(t, d), nl, t, rt, 0);
    var total := (sl - count * nl) + count * rl;
    r := new byte[total + 1];
    Substitute(s, sl, n, nl, repl, rl, r, t, d, rt);
  }

  /** What is written so far and what is still to come make up the result. */
  ghost predicate Writing(target: bytes, done: bytes, m: Matcher, w: nat, t: bytes, rt: bytes, i: nat) {
    w > 0 && i <= |t| && NulFree(done) && target == done + ReplaceFrom(m, w, t, rt, i)
  }

  lemma WriteMatch(target: bytes, done: bytes, m: Matcher, w: nat, t: bytes, rt: bytes, i: nat)
    requires Writing(target, done, m, w, t, rt, i) && i + w <= |t| && m(i) && NulFree(rt)
    ensures Writing(target, done + rt, m, w, t, rt, i + w) && |done| + |rt| <= |target|
  {
    var rest := ReplaceFrom(m, w, t, rt, i + w);
    assert ReplaceFrom(m, w, t, rt, i) == rt + rest;
    assert done + (rt + rest) == (done + rt) + rest;
  }

  lemma WriteByte(target: bytes, done: bytes, m: Matcher, w: nat, t: bytes, rt: bytes, i: nat)
    requires Writing(target, done, m, w, t, rt, i) && i < |t| && NulFree(t) && (i + w <= |t| ==> !m(i))
    ensures Writing(target, done + [t[i]], m, w, t, rt, i + 1) && |done| < |target|
  {
    var rest := ReplaceFrom(m, w, t, rt, i + 1);
    assert ReplaceFrom(m, w, t, rt, i) == [t[i]] + rest by {
      if i + w > |t| { assert t[i..] == [t[i]] + t[i + 1..]; }
    }
    assert done + ([t[i]] + rest) == (done + [t[i]]) + rest;
  }

  lemma WritingStarts(m: Matcher, w: nat, t: bytes, rt: bytes)
    requires w > 0
    ensures Writing(ReplaceFrom(m, w, t, rt, 0), [], m, w, t, rt, 0)
  {
  }

  lemma WritingEnds(target: bytes, done: bytes, m: Matcher, w: nat, t: bytes, rt: bytes)
    requires Writing(target, done, m, w, t, rt, |t|)
    ensures target == done
  {
    assert t[|t|..] == [];
  }

  /** The second pass. */
  method Substitute(s: array<byte>, sl: nat, n: array<byte>, nl: nat, repl: array?<byte>, rl: nat, r: array<byte>,
                    ghost t: bytes, ghost d: bytes, ghost rt: bytes)
    requires IsText(s, t) && IsText(n, d) && IsText(repl, rt) && sl == |t| && nl == |d| > 0 && rl == |rt|
    requires r != s && r != n && r != repl && r.Length == |ReplaceAll(t, d, rt)| + 1
    modifies r
    ensures IsText(r, ReplaceAll(t, d, rt))
  {
    ghost var m, target := At(t, d), ReplaceAll(t, d, rt);
    ghost var done: bytes := [];
    WritingStarts(m, nl, t, rt);
    var i: nat, off: nat := 0, 0;
    while i + nl <= sl
      invariant i <= sl && off == |done| && Wrote(r, done) && Writing(target, done, m, nl, t, rt, i)
      decreases sl - i
    {
      var found := Matches(s, i, n, nl, t, d);
      assert found == m(i);
      if found {
        off, done := PutMatch(repl, rl, r, off, target, done, m, nl, t, rt, i);
        i := i + nl;
      } else {
        done := PutPlain(s, i, r, off, target, done, m, nl, t, rt);
        off, i := off + 1, i + 1;
      }
    }
    CopyTail(s, sl, i, r, off, target, done, m, nl, t, rt);
  }

  /** The replacement of one match. */
  method PutMatch(repl: array?<byte>, rl: nat, r: array<byte>, at: nat, ghost target: bytes, ghost before: bytes,
                  ghost m: Matcher, ghost w: nat, ghost t: bytes, ghost rt: bytes, ghost i: nat)
    returns (off: nat, ghost done: bytes)
    requires IsText(repl, rt) && rl == |rt| && r != repl && r.Length == |target| + 1
    requires at == |before| && Wrote(r, before) && Writing(target, before, m, w, t, rt, i) && i + w <= |t| && m(i)
    modifies r
    ensures off == |done| && Wrote(r, done) && Writing(target, done, m, w, t, rt, i + w)
  {
    WriteMatch(target, before, m, w, t, rt, i);
    off := CopyText(r, at, before, repl, rl, rt);
    done := before + rt;
  }

  /** One byte that begins no match. */
  method PutPlain(s: array<byte>, i: nat, r: array<byte>, off: nat, ghost target: bytes, ghost before: bytes,
                  ghost m: Matcher, ghost w: nat, ghost t: bytes, ghost rt: bytes)
    returns (ghost done: bytes)
    requires IsText(s, t) && r != s && r.Length == |target| + 1 && i < |t| && (i + w <= |t| ==> !m(i))
    requires off == |before| && Wrote(r, before) && Writing(target, before, m, w, t, rt, i)
    modifies r
    ensures |done| == off + 1 && Wrote(r, done) && Writing(target, done, m, w, t, rt, i + 1)
  {
    WriteByte(target, before, m, w, t, rt, i);
    PutByte(r, off, before, s[i]);
    done := before + [t[i]];
  }

  /** The bytes after the last place a match could begin, and the terminator. */
  method CopyTail(s: array<byte>, sl: nat, from: nat, r: array<byte>, at: nat, ghost target: bytes, ghost before: bytes,
                  ghost m: Matcher, ghost w: nat, ghost t: bytes, ghost rt: bytes)
    requires IsText(s, t) && r != s && r.Length == |target| + 1 && sl == |t| < from + w
    requires at == |before| && Wrote(r, before) && Writing(target, before, m, w, t, rt, from)
    modifies r
    ensures IsText(r, target)
  {
    ghost var done := before;
    var i, off := from, at;
    while i < sl
      invariant from <= i <= sl && off == |done| && Wrote(r, done) && Writing(target, done, m, w, t, rt, i)
    {
      done := PutPlain(s, i, r, off, target, done, m, w, t, rt);
      off, i := off + 1, i + 1;
    }
    WritingEnds(target, done, m, w, t, rt);
    Terminate(r, off, target);
  }

  // ---- Split and join ----

  /** c2m_str_split: the pieces fill the array that the first pass sized.  Pieces are fresh copies, so they
      are values here. */
  method StrSplit(s: array?<byte>, delim: array?<byte>, ghost t: bytes, ghost d: bytes)
    returns (list: array<bytes>, length: nat)
    requires IsText(s, t) && IsText(delim, d)
    ensures fresh(list) && length <= list.Length
    ensures list[..length] == if s == null then [] else Split(t, d)
  {
    if s == null {
      list, length := new bytes[1](_ => []), 0;
      return;
    }
    var sl := ByteLen(s, t);
    var dl := ByteLen(delim, d);
    if dl == 0 {
      var whole := s[..sl];
      assert whole == t;
      list, length := new bytes[1](_ => whole), 1;
      return;
    }
    var count := CountMatches(s, sl, delim, dl, t, d);
    SplitCount(At(t, d), dl, t, 0, 0);
    list := new bytes[1 + count](_ => []);
    length := CutPieces(s, sl, delim, dl, list, t, d, At(t, d), Split(t, d));
  }

  /** The pieces emitted so far and those still to come make up the list. */
  ghost predicate Cutting(target: seq<bytes>, done: seq<bytes>, m: Matcher, w: nat, t: bytes, start: nat, i: nat) {
    w > 0 && start <= i <= |t| && target == done + SplitFrom(m, w, t, start, i)
  }

  lemma CutMatch(target: seq<bytes>, done: seq<bytes>, m: Matcher, w: nat, t: bytes, start: nat, i: nat)
    requires Cutting(target, done, m, w, t, start, i) && i + w <= |t| && m(i)
    ensures Cutting(target, done + [t[start..i]], m, w, t, i + w, i + w) && |done| + 1 < |target|
  {
    var rest := SplitFrom(m, w, t, i + w, i + w);
    assert done + ([t[start..i]] + rest) == (done + [t[start..i]]) + rest;
  }

  lemma CutSkip(target: seq<bytes>, done: seq<bytes>, m: Matcher, w: nat, t: bytes, start: nat, i: nat)
    requires Cutting(target, done, m, w, t, start, i)
    ensures |done| < |target|
    ensures i + w <= |t| && !m(i) ==> Cutting(target, done, m, w, t, start, i + 1)
    ensures i + w > |t| ==> target == done + [t[start..]]
  {
  }

  /** The second pass. */
  method CutPieces(s: array<byte>, sl: nat, delim: array<byte>, dl: nat, list: array<bytes>, ghost t: bytes,
                   ghost d: bytes, ghost m: Matcher, ghost target: seq<bytes>) returns (length: nat)
    requires IsText(s, t) && IsText(delim, d) && sl == |t| && dl == |d| > 0
    requires m == At(t, d) && Cutting(target, [], m, dl, t, 0, 0) && list.Length == |target|
    modifies list
    ensures length == list.Length && list[..] == target
  {
    ghost var done: seq<bytes> := [];
    var start: nat, i: nat := 0, 0;
    length := 0;
    while i + dl <= sl
      invariant length == |done| && Filled(list, done) && Cutting(target, done, m, dl, t, start, i)
      decreases sl - i
    {
      var found := Matches(s, i, delim, dl, t, d);
      assert found == m(i);
      if found {
        ghost var piece := t[start..i];
        CutMatch(target, done, m, dl, t, start, i);
        Emit(list, length, s, start, i, done, piece);
        done := done + [piece];
        length := length + 1;
        i := i + dl;
        start := i;
      } else {
        CutSkip(target, done, m, dl, t, start, i);
        i := i + 1;
      }
    }
    CutSkip(target, done, m, dl, t, start, i);
    Emit(list, length, s, start, sl, done, t[start..]);
    length := length + 1;
    assert list[..] == target;
  }

  /** Copy the bytes of s from `start` to `end` into the next slot. */
  method Emit(list: array<bytes>, length: nat, s: array<byte>, start: nat, end: nat, ghost done: seq<bytes>,
              ghost piece: bytes)
    requires length == |done| < list.Length && Filled(list, done) && start <= end <= s.Length
    requires |piece| == end - start && forall k :: 0 <= k < |piece| ==> piece[k] == s[start + k]
    modifies list
    ensures Filled(list, done + [piece])
  {
    assert s[start..end] == piece;
    list[length] := s[start..end];
  }

  ghost predicate Filled(list: array<bytes>, done: seq<bytes>)
    reads list
  {
    |done| <= list.Length && forall k :: 0 <= k < |done| ==> list[k] == done[k]
  }

  /** The length that c2m_str_join computes first. */
  function TotalLength(ps: seq<bytes>, dl: nat): nat {
    if ps == [] then 0
    else TotalLength(ps[..|ps| - 1], dl) + (if |ps| == 1 then 0 else dl) + |ps[|ps| - 1]|
  }

  lemma {:induction false} JoinLength(ps: seq<bytes>, d: bytes)
    ensures |Join(ps, d)| == TotalLength(ps, |d|)
    decreases |ps|
  {
    if |ps| > 1 {
      var n := |ps| - 1;
      assert ps == ps[..n] + [ps[n]];
      JoinLength(ps[..n], d);
      JoinSnoc(ps[..n], ps[n], d);
    }
  }

  /** c2m_str_join. */
  method StrJoin(list: array<bytes>, length: nat, delim: array?<byte>, ghost d: bytes) returns (r: array<byte>)
    requires length <= list.Length && IsText(delim, d) && forall i :: 0 <= i < length ==> NulFree(list[i])
    ensures fresh(r) && IsText(r, Join(list[..length], d)) && r.Length == |Join(list[..length], d)| + 1
  {
    if length == 0 {
      r := NewString(null, 0, 0, []);
      return;
    }
    var dl := ByteLen(delim, d);
    var total, i := 0, 0;
    while i < length
      invariant i <= length && total == TotalLength(list[..i], 0)
    {
      assert list[..i + 1][..i] == list[..i];
      total := total + |list[i]|;
      i := i + 1;
    }
    PlusDelimiters(list[..length], dl);
    total := total + dl * (length - 1);
    JoinLength(list[..length], d);
    r := new byte[total + 1];
    Fill(r, list, length, delim, dl, d);
  }

  lemma {:induction false} PlusDelimiters(ps: seq<bytes>, dl: nat)
    requires ps != []
    ensures TotalLength(ps, dl) == TotalLength(ps, 0) + dl * (|ps| - 1)
    decreases |ps|
  {
    if |ps| > 1 {
      PlusDelimiters(ps[..|ps| - 1], dl);
      OneMore(|ps| - 2, dl);
    }
  }

  lemma {:induction false} TotalMonotone(ps: seq<bytes>, dl: nat, n: nat)
    requires n <= |ps|
    ensures TotalLength(ps[..n], dl) <= TotalLength(ps, dl)
    decreases |ps|
  {
    if n < |ps| {
      assert ps[..|ps| - 1][..n] == ps[..n];
      TotalMonotone(ps[..|ps| - 1], dl, n);
    } else {
      assert ps[..n] == ps;
    }
  }

  method Fill(r: array<byte>, list: array<bytes>, length: nat, delim: array?<byte>, dl: nat, ghost d: bytes)
    requires 0 < length <= list.Length && IsText(delim, d) && dl == |d| && r != delim
    requires forall i :: 0 <= i < length ==> NulFree(list[i])
    requires r.Length == |Join(list[..length], d)| + 1
    modifies r
    ensures IsText(r, Join(list[..length], d))
  {
    ghost var ps := list[..length];
    JoinNulFree(ps, d);
    var i: nat, off: nat := 0, 0;
    while i < length
      invariant i <= length && list[..length] == ps
      invariant off == |Join(ps[..i], d)| && Wrote(r, Join(ps[..i], d))
    {
      ghost var done := Join(ps[..i], d);
      JoinTo(ps, d, i);
      if i != 0 {
        off := CopyText(r, off, done, delim, dl, d);
        done := done + d;
      }
      off := PutBytes(r, off, done, list[i]);
      assert done + ps[i] == Join(ps[..i + 1], d);
      i := i + 1;
    }
    assert ps[..length] == ps;
    Terminate(r, off, Join(ps, d));
  }

  lemma {:induction false} JoinNulFree(ps: seq<bytes>, d: bytes)
    requires NulFree(d) && forall i :: 0 <= i < |ps| ==> NulFree(ps[i])
    ensures NulFree(Join(ps, d))
  {
    if |ps| > 1 { JoinNulFree(ps[1..], d); }
  }

  lemma JoinTo(ps: seq<bytes>, d: bytes, i: nat)
    requires i < |ps|
    ensures Join(ps[..i + 1], d) == if i == 0 then ps[0] else Join(ps[..i], d) + d + ps[i]
    ensures |Join(ps[..i + 1], d)| <= |Join(ps, d)|
  {
    assert ps[..i + 1] == ps[..i] + [ps[i]];
    if i > 0 { JoinSnoc(ps[..i], ps[i], d); }
    JoinLength(ps[..i + 1], d);
    JoinLength(ps, d);
    TotalMonotone(ps, |d|, i + 1);
  }

  /** Copy one piece. */
  method PutBytes(r: array<byte>, off: nat, ghost done: bytes, piece: bytes) returns (n: nat)
    requires off == |done| && off + |piece| <= r.Length && Wrote(r, done)
    modifies r
    ensures n == off + |piece| && Wrote(r, done + piece)
  {
    var i := 0;
    while i < |piece|
      invariant 0 <= i <= |piece| && Wrote(r, done) && forall k :: 0 <= k < i ==> r[off + k] == piece[k]
    {
      r[off + i] := piece[i];
      i := i + 1;
    }
    n := off + |piece|;
    forall k | 0 <= k < n ensures r[k] == (done + piece)[k] {
      if k >= off { assert r[off + (k - off)] == piece[k - off]; }
    }
  }
}
