/** Text made of code points: what the code point functions of include/cstring.h make of it. */
module Utf8Text {
  import opened Prelude
  import opened CodePoints
  import opened Placement
  import Utf8

  /** The bytes of a text. */
  function Bytes(cps: seq<CodePoint>): bytes {
    Flatten(Encode, cps)
  }

  lemma EncodeBits(cp: CodePoint)
    ensures var b := Encode(cp);
            && Utf8.SeqLen(b[0]) == |b|
            && (|b| == 1 ==> b[0] < 0x80)
            && (forall k :: 0 < k < |b| ==> Utf8.IsContinuation(b[k]))
  {
    EncodeSpells(cp);
  }

  /** An encoded code point is one sequence, whatever follows it. */
  lemma OneSequence(s: bytes, i: nat, cp: CodePoint)
    requires At(s, i, Encode(cp))
    ensures Utf8.HasTail(s, i, |Encode(cp)|) && Utf8.SeqLen(s[i]) == |Encode(cp)| == Utf8.CpLen(s, i)
    ensures s[i] < 0x80 || |Encode(cp)| > 1
  {
    EncodeBits(cp);
    var b := Encode(cp);
    AtFirst(s, i, b);
    forall k | i < k < i + |b| ensures Utf8.IsContinuation(s[k]) { assert Same(s, i, b, k - i); }
  }

  lemma BytesCons(cp: CodePoint, rest: seq<CodePoint>)
    ensures Bytes([cp] + rest) == Encode(cp) + Bytes(rest)
  {
    FlattenCons(Encode, cp, rest);
  }

  lemma {:induction false} AdvanceOver(s: bytes, i: nat, cps: seq<CodePoint>)
    requires At(s, i, Bytes(cps))
    ensures Utf8.Advance(s, i, |cps|) == i + |Bytes(cps)|
    decreases |cps|
  {
    if cps != [] {
      var cp, rest := cps[0], cps[1..];
      assert cps == [cp] + rest;
      BytesCons(cp, rest);
      AtAppend(s, i, Encode(cp), Bytes(rest));
      OneSequence(s, i, cp);
      AdvanceOver(s, i + |Encode(cp)|, rest);
    }
  }

  lemma {:induction false} LengthIs(s: bytes, i: nat, cps: seq<CodePoint>)
    requires At(s, i, Bytes(cps)) && |s| == i + |Bytes(cps)|
    ensures Utf8.LengthFrom(s, i) == |cps| && Utf8.WellFormedFrom(s, i)
    decreases |cps|
  {
    if cps != [] {
      var cp, rest := cps[0], cps[1..];
      assert cps == [cp] + rest;
      BytesCons(cp, rest);
      AtAppend(s, i, Encode(cp), Bytes(rest));
      OneSequence(s, i, cp);
      LengthIs(s, i + |Encode(cp)|, rest);
    }
  }

  /** The length of a text is the number of its code points, and all its sequences are complete. */
  lemma LengthCounts(cps: seq<CodePoint>)
    ensures Utf8.Length(Bytes(cps)) == |cps| && Utf8.WellFormed(Bytes(cps))
  {
    var s := Bytes(cps);
    assert s[0..0 + |s|] == s;
    SliceAt(s, 0, s);
    LengthIs(s, 0, cps);
  }

  /** Where the code points from i to j stand. */
  lemma PartAt(cps: seq<CodePoint>, i: nat, j: nat)
    requires i <= j <= |cps|
    ensures At(Bytes(cps), |Bytes(cps[..i])|, Bytes(cps[i..j]))
  {
    var a, b, c := Bytes(cps[..i]), Bytes(cps[i..j]), Bytes(cps[j..]);
    assert cps == cps[..i] + (cps[i..j] + cps[j..]);
    FlattenAppend(Encode, cps[..i], cps[i..j] + cps[j..]);
    FlattenAppend(Encode, cps[i..j], cps[j..]);
    var s := a + (b + c);
    assert s[0..0 + |s|] == s;
    SliceAt(s, 0, s);
    AtAppend(s, 0, a, b + c);
    AtAppend(s, |a|, b, c);
  }

  /** A position in a text of n code points: 0 when it is below, n when it is beyond. */
  function Clamp(i: int, n: nat): (r: nat)
    ensures r <= n
  {
    if i < 0 then 0 else if i > n then n else i
  }

  /** A substring is the text of those code points asked for that there are; there is none before the text. */
  lemma SubstrIsPart(cps: seq<CodePoint>, pos: int, len: int)
    ensures Utf8.Substr(Bytes(cps), pos, len)
         == if pos < 0 || len <= 0 then [] else Bytes(cps[Clamp(pos, |cps|)..Clamp(pos + len, |cps|)])
  {
    if pos >= 0 && len > 0 {
      var i, j := Clamp(pos, |cps|), Clamp(pos + len, |cps|);
      StartOf(cps, pos);
      StartOf(cps, pos + len);
      SliceIsPart(cps, i, j);
      CutOut(Bytes(cps), pos, len, |Bytes(cps[..i])|, |Bytes(cps[..j])|);
    }
  }

  lemma CutOut(s: bytes, pos: nat, len: nat, x: nat, y: nat)
    requires x == Utf8.Advance(s, 0, pos) && y == Utf8.Advance(s, 0, pos + len)
    ensures x <= y && Utf8.Substr(s, pos, len) == s[x..y]
  {
    Utf8.SubstrIs(s, pos, len);
  }

  lemma SliceIsPart(cps: seq<CodePoint>, i: nat, j: nat)
    requires i <= j <= |cps|
    ensures |Bytes(cps[..i])| <= |Bytes(cps[..j])| <= |Bytes(cps)|
    ensures Bytes(cps)[|Bytes(cps[..i])|..|Bytes(cps[..j])|] == Bytes(cps[i..j])
  {
    PartAt(cps, i, j);
    AtSlice(Bytes(cps), |Bytes(cps[..i])|, Bytes(cps[i..j]));
    assert cps[..j] == cps[..i] + cps[i..j];
    FlattenAppend(Encode, cps[..i], cps[i..j]);
  }

  /** Where code point i begins, or where the text ends. */
  lemma StartOf(cps: seq<CodePoint>, i: nat)
    ensures Utf8.Advance(Bytes(cps), 0, i) == |Bytes(cps[..Clamp(i, |cps|)])|
  {
    var k := Clamp(i, |cps|);
    PartAt(cps, 0, k);
    assert cps[0..k] == cps[..k] && cps[..0] == [];
    AdvanceOver(Bytes(cps), 0, cps[..k]);
    if i > |cps| {
      assert cps[..k] == cps;
      Utf8.AdvanceAdd(Bytes(cps), 0, k, i - k);
    }
  }

  /** A replacement replaces those code points that there are, from the beginning when the position is before it;
      a negative length replaces none. */
  lemma ReplaceIsPart(cps: seq<CodePoint>, pos: int, len: int, new_: seq<CodePoint>)
    ensures var from, count := if pos < 0 then 0 else pos, if len < 0 then 0 else len;
            Utf8.Replace(Bytes(cps), pos, len, Bytes(new_)) ==
            Bytes(cps[..Clamp(from, |cps|)] + new_ + cps[Clamp(from + count, |cps|)..])
  {
    var from, count := if pos < 0 then 0 else pos, if len < 0 then 0 else len;
    var i, j := Clamp(from, |cps|), Clamp(from + count, |cps|);
    StartOf(cps, from);
    StartOf(cps, from + count);
    Utf8.AdvanceAdd(Bytes(cps), 0, from, count);
    Utf8.ReplaceIs(Bytes(cps), pos, len, Bytes(new_), |Bytes(cps[..i])|, |Bytes(cps[..j])|);
    EndsAre(cps, i);
    EndsAre(cps, j);
    BytesThree(cps[..i], new_, cps[j..]);
  }

  lemma EndsAre(cps: seq<CodePoint>, i: nat)
    requires i <= |cps|
    ensures |Bytes(cps[..i])| <= |Bytes(cps)|
    ensures Bytes(cps)[..|Bytes(cps[..i])|] == Bytes(cps[..i]) && Bytes(cps)[|Bytes(cps[..i])|..] == Bytes(cps[i..])
  {
    assert cps == cps[..i] + cps[i..];
    FlattenAppend(Encode, cps[..i], cps[i..]);
  }

  lemma BytesThree(a: seq<CodePoint>, b: seq<CodePoint>, c: seq<CodePoint>)
    ensures Bytes(a + b + c) == Bytes(a) + Bytes(b) + Bytes(c)
  {
    FlattenAppend(Encode, a + b, c);
    FlattenAppend(Encode, a, b);
  }

  // ---- Finding ----

  lemma {:induction false} SameBytes(a: seq<CodePoint>, b: seq<CodePoint>)
    requires Bytes(a) == Bytes(b)
    ensures a == b
    decreases |a|
  {
    LengthCounts(a);
    LengthCounts(b);
    if a != [] {
      var s := Bytes(a);
      assert a == [a[0]] + a[1..] && b == [b[0]] + b[1..];
      BytesCons(a[0], a[1..]);
      BytesCons(b[0], b[1..]);
      SameFirst(s, a[0], b[0]);
      var n := |Encode(a[0])|;
      assert Bytes(a[1..]) == s[n..] == Bytes(b[1..]);
      SameBytes(a[1..], b[1..]);
    }
  }

  lemma SameFirst(s: bytes, a: CodePoint, b: CodePoint)
    requires Encode(a) <= s && Encode(b) <= s
    ensures a == b
  {
    assert s[0..] == s;
    AtPrefix(s, 0, Encode(a));
    AtPrefix(s, 0, Encode(b));
    OneSequence(s, 0, a);
    OneSequence(s, 0, b);
    assert Encode(a) == s[..|Encode(a)|] == Encode(b);
    EncodeSpells(a);
    EncodeSpells(b);
  }

  /** The needle stands among the code points at i. */
  ghost predicate StandsAt(cps: seq<CodePoint>, needle: seq<CodePoint>, i: nat) {
    i + |needle| <= |cps| && cps[i..i + |needle|] == needle
  }

  lemma SubstrStands(cps: seq<CodePoint>, needle: seq<CodePoint>, i: nat)
    requires needle != []
    ensures Utf8.Substr(Bytes(cps), i, |needle|) == Bytes(needle) <==> StandsAt(cps, needle, i)
  {
    if i + |needle| <= |cps| {
      SubstrIsPart(cps, i, |needle|);
      if Bytes(cps[i..i + |needle|]) == Bytes(needle) { SameBytes(cps[i..i + |needle|], needle); }
    } else {
      Utf8.SubstrLength(Bytes(cps), i, |needle|);
      LengthCounts(cps);
      LengthCounts(needle);
    }
  }

  /** find is the first index at which the needle's code points stand. */
  lemma FindIsFirst(cps: seq<CodePoint>, needle: seq<CodePoint>)
    requires needle != []
    ensures match Utf8.Find(Bytes(cps), Bytes(needle))
            case Some(i) => StandsAt(cps, needle, i) && forall j: nat :: j < i ==> !StandsAt(cps, needle, j)
            case None => forall j: nat :: !StandsAt(cps, needle, j)
  {
    LengthCounts(needle);
    Utf8.FindCorrect(Bytes(cps), Bytes(needle));
    forall j: nat
      ensures Utf8.Substr(Bytes(cps), j, |needle|) == Bytes(needle) <==> StandsAt(cps, needle, j)
    {
      SubstrStands(cps, needle, j);
    }
  }

  /** How many one bits a byte begins with, counted from the bit of value `top` down. */
  function LeadingOnes(c: nat, top: nat): nat
    decreases top
  {
    if top == 0 || c < top then 0 else 1 + LeadingOnes(c - top, top / 2)
  }

  /** The length of a sequence is the number of leading ones of its first byte, if that is two, three or four; any
      other byte, well placed or not, counts as one. */
  lemma {:induction false} LengthIsLeadingOnes(c: byte)
    ensures var n := LeadingOnes(c as nat, 0x80); Utf8.SeqLen(c) == if 2 <= n <= 4 then n else 1
  {
    Ones(c as nat);
  }

  lemma {:induction false} OneMore(v: nat, top: nat, half: nat)
    requires half == top / 2 > 0
    ensures LeadingOnes(v, top) == if v < top then 0 else 1 + LeadingOnes(v - top, half)
  {
  }

  lemma {:induction false} Ones(v: nat)
    requires v < 256
    ensures var n := LeadingOnes(v, 128);
            if v < 128 then n == 0 else if v < 192 then n == 1 else if v < 224 then n == 2 else if v < 240 then n == 3
            else if v < 248 then n == 4 else n > 4
  {
    OneMore(v, 128, 64);
    if v >= 128 { OnesBelow(v - 128); }
  }

  /** The same for the bits from the second down. */
  lemma {:induction false} OnesBelow(v: nat)
    requires v < 128
    ensures var n := LeadingOnes(v, 64);
            if v < 64 then n == 0 else if v < 96 then n == 1 else if v < 112 then n == 2 else if v < 120 then n == 3
            else n > 3
  {
    OneMore(v, 64, 32);
    if v >= 64 { OneMore(v - 64, 32, 16); }
    if v >= 96 { OneMore(v - 96, 16, 8); }
    if v >= 112 { OneMore(v - 112, 8, 4); }
  }
}
