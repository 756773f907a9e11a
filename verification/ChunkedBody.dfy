/** Chunked transfer coding in include/httpclient.h: in-place decoding, the completeness test, and the
    read loop that stops at it (section 7.1 of RFC 9112). */
module ChunkedBody {
  import opened Ascii
  import opened Numerals
  import opened Placement
  import opened Prelude
  import opened Socket

  predicate IsHex(c: byte) {
    HexDigit(c) < 16
  }

  // The functions below read a body at an index, as the loops do.

  /** The end of the hex digits at i. */
  function DigitsEnd(s: bytes, i: nat): (n: nat)
    requires i <= |s|
    ensures i <= n <= |s|
    decreases |s| - i
  {
    if i == |s| || !IsHex(s[i]) then i else DigitsEnd(s, i + 1)
  }

  /** The number written at i..j. */
  function HexValue(s: bytes, i: nat, j: nat): nat
    requires i <= j <= |s|
  {
    if i == j then 0 else HexValue(s, i, j - 1) * 16 + HexDigit(s[j - 1])
  }

  /** The first line feed from i on, or the length. */
  function LineFeed(s: bytes, i: nat): (n: nat)
    requires i <= |s|
    ensures i <= n <= |s|
    decreases |s| - i
  {
    if i == |s| || s[i] == LF then i else LineFeed(s, i + 1)
  }

  /** The end of an optional carriage return and an optional line feed at i. */
  function LineEnd(s: bytes, i: nat): (n: nat)
    requires i <= |s|
    ensures i <= n <= |s|
  {
    var j := if i < |s| && s[i] == CR then i + 1 else i;
    if j < |s| && s[j] == LF then j + 1 else j
  }

  type Reader = (bytes, nat) -> Head

  /** A chunk's size line: whether it has digits, its size, its line feed, and where the data starts. */
  datatype Head = Head(any: bool, size: nat, nl: nat, data: nat)

  function HeadAt(s: bytes, i: nat): (h: Head)
    ensures i <= |s| ==> i <= h.nl <= |s| && i <= h.data <= |s|
  {
    if i > |s| then Head(false, 0, i, i)
    else
      var d := DigitsEnd(s, i);
      var nl := LineFeed(s, d);
      Head(d > i, HexValue(s, i, d), nl, if nl < |s| then nl + 1 else nl)
  }

  /** The end of the data, clamped to what is there. */
  function DataEnd(s: bytes, h: Head): (n: nat)
    requires h.data <= |s|
    ensures h.data <= n <= |s|
  {
    if h.data + h.size > |s| then |s| else h.data + h.size
  }

  predicate IsLast(s: bytes, i: nat, h: Head) {
    !h.any || h.size == 0 || !(i < h.data <= |s|)
  }

  /** The decoded body, for a reader of size lines. */
  function Dechunk(read: Reader, s: bytes, i: nat): bytes
    decreases |s| - i
  {
    var h := read(s, i);
    if IsLast(s, i, h) then []
    else s[h.data..DataEnd(s, h)] + Dechunk(read, s, LineEnd(s, DataEnd(s, h)))
  }

  /** Does the size line of the first chunk decide completeness, and how? */
  function Verdict(s: bytes, i: nat, h: Head): Option<bool> {
    if i >= |s| || h.nl >= |s| || h.data > |s| then Some(false)
    else if !h.any || h.data <= i then Some(true)
    else if h.size == 0 then Some(|s| - h.data >= 2)
    else if |s| - h.data < h.size + 2 then Some(false)
    else None
  }

  predicate Complete(read: Reader, s: bytes, i: nat)
    decreases |s| - i
  {
    var h := read(s, i);
    match Verdict(s, i, h)
    case Some(verdict) => verdict
    case None => Complete(read, s, LineEnd(s, h.data + h.size))
  }

  function Decoded(body: bytes): bytes {
    Dechunk(HeadAt, body, 0)
  }

  /** c2m_http_chunked_complete. */
  predicate IsComplete(body: bytes) {
    Complete(HeadAt, body, 0)
  }

  // ---- The coding ----

  /** One chunk as sent: its size spelled in hex, an optional extension, and the data. */
  datatype Chunk = Chunk(digits: bytes, ext: bytes, data: bytes)

  ghost predicate SizeLine(digits: bytes, ext: bytes, size: nat) {
    && Spells(digits, size, 16)
    && LF !in ext && (ext != [] ==> !IsHex(ext[0]))
  }

  ghost predicate ValidChunk(c: Chunk) {
    SizeLine(c.digits, c.ext, |c.data|) && c.data != []
  }

  function Line(digits: bytes, ext: bytes): bytes {
    digits + (ext + [CR, LF])
  }

  function EncodeChunk(c: Chunk): bytes {
    Line(c.digits, c.ext) + (c.data + [CR, LF])
  }

  /** A trailer-free chunked message: the chunks, then the last chunk of size 0 and an empty line. */
  function EncodeBody(cs: seq<Chunk>, last: Chunk): bytes {
    if cs == [] then Line(last.digits, last.ext) + [CR, LF]
    else EncodeChunk(cs[0]) + EncodeBody(cs[1..], last)
  }

  function Payload(cs: seq<Chunk>): bytes {
    if cs == [] then [] else cs[0].data + Payload(cs[1..])
  }

  ghost predicate ValidBody(cs: seq<Chunk>, last: Chunk) {
    (forall i :: 0 <= i < |cs| ==> ValidChunk(cs[i])) && SizeLine(last.digits, last.ext, 0)
  }

  lemma CrLfAt(s: bytes, i: nat)
    requires At(s, i, [CR, LF])
    ensures s[i] == CR && s[i + 1] == LF
  {
    assert Same(s, i, [CR, LF], 0) && Same(s, i, [CR, LF], 1);
  }

  lemma {:induction false} DigitsEndIs(s: bytes, i: nat, j: nat)
    requires i <= j <= |s| && (forall k :: i <= k < j ==> IsHex(s[k])) && (j == |s| || !IsHex(s[j]))
    ensures DigitsEnd(s, i) == j
    decreases j - i
  {
    if i < j { DigitsEndIs(s, i + 1, j); }
  }

  lemma {:induction false} LineFeedIs(s: bytes, i: nat, j: nat)
    requires i <= j <= |s| && (forall k :: i <= k < j ==> s[k] != LF) && (j == |s| || s[j] == LF)
    ensures LineFeed(s, i) == j
    decreases j - i
  {
    if i < j { LineFeedIs(s, i + 1, j); }
  }

  lemma {:induction false} HexValueAt(s: bytes, i: nat, digits: bytes, n: nat)
    requires At(s, i, digits) && n <= |digits|
    ensures HexValue(s, i, i + n) == HexValue(digits, 0, n)
  {
    if n > 0 {
      HexValueAt(s, i, digits, n - 1);
      assert Same(s, i, digits, n - 1);
    }
  }

  /** The digits that spell a number in hex, in either case and with any zeros in front, are read as that
      number. */
  lemma {:induction false} HexRead(digits: bytes, size: nat)
    requires Spells(digits, size, 16)
    ensures (forall i :: 0 <= i < |digits| ==> IsHex(digits[i])) && HexValue(digits, 0, |digits|) == size
    decreases |digits|
  {
    var n := |digits| - 1;
    DigitIs(digits[n], size % 16);
    if n > 0 {
      var front := digits[..n];
      HexRead(front, size / 16);
      assert digits[0..0 + |front|] == front;
      SliceAt(digits, 0, front);
      HexValueAt(digits, 0, front, n);
      forall i | 0 <= i < n ensures IsHex(digits[i]) { assert digits[i] == front[i]; }
    }
  }

  /** Every string of hex digits spells some number. */
  lemma {:induction false} HexSpells(digits: bytes)
    requires digits != [] && forall i :: 0 <= i < |digits| ==> IsHex(digits[i])
    ensures Spells(digits, HexValue(digits, 0, |digits|), 16)
    decreases |digits|
  {
    var n := |digits| - 1;
    IsDigitFor(digits[n]);
    if n > 0 {
      var front := digits[..n];
      HexSpells(front);
      assert digits[0..0 + |front|] == front;
      SliceAt(digits, 0, front);
      HexValueAt(digits, 0, front, n);
      SpellsMore(front, HexValue(front, 0, n), digits[n], HexDigit(digits[n]), 16);
      assert digits == front + [digits[n]];
    }
  }

  /** What a reader of size lines must do with this one: read it back, and notice when it is cut off. */
  ghost predicate ReadsLine(read: Reader, s: bytes, i: nat, digits: bytes, ext: bytes, size: nat) {
    var line := Line(digits, ext);
    SizeLine(digits, ext, size) && i <= |s| ==>
      && (At(s, i, line) ==> read(s, i) == Head(true, size, i + |digits| + |ext| + 1, i + |line|))
      && (s[i..] < line ==> read(s, i).nl >= |s|)
  }

  ghost predicate ReadsLines(read: Reader) {
    forall s: bytes, i: nat, digits: bytes, ext: bytes, size: nat :: ReadsLine(read, s, i, digits, ext, size)
  }

  lemma ReadWhole(s: bytes, i: nat, digits: bytes, ext: bytes, size: nat)
    requires SizeLine(digits, ext, size) && At(s, i, Line(digits, ext))
    ensures HeadAt(s, i) == Head(true, size, i + |digits| + |ext| + 1, i + |Line(digits, ext)|)
  {
    var d, nl := i + |digits|, i + |digits| + |ext| + 1;
    HexRead(digits, size);
    AtAppend(s, i, digits, ext + [CR, LF]);
    AtAppend(s, d, ext, [CR, LF]);
    CrLfAt(s, d + |ext|);
    forall k | i <= k < d ensures IsHex(s[k]) { assert Same(s, i, digits, k - i); }
    if ext != [] { AtFirst(s, d, ext); }
    DigitsEndIs(s, i, d);
    HexValueAt(s, i, digits, |digits|);
    forall k | d <= k < nl ensures s[k] != LF {
      if k < d + |ext| { assert Same(s, d, ext, k - d); }
    }
    LineFeedIs(s, d, nl);
  }

  lemma ReadCut(s: bytes, i: nat, digits: bytes, ext: bytes, size: nat)
    requires SizeLine(digits, ext, size) && i <= |s| && s[i..] < Line(digits, ext)
    ensures HeadAt(s, i).nl == |s|
  {
    var line := Line(digits, ext);
    HexRead(digits, size);
    forall k | i <= k < |s| ensures s[k] != LF {
      assert s[k] == s[i..][k - i] == line[k - i];
      if k - i < |digits| { assert IsHex(digits[k - i]); }
      else if k - i < |digits| + |ext| { assert line[k - i] == ext[k - i - |digits|]; }
    }
    LineFeedIs(s, DigitsEnd(s, i), |s|);
  }

  lemma HeadAtReadsLines()
    ensures ReadsLines(HeadAt)
  {
    forall s: bytes, i: nat, digits: bytes, ext: bytes, size: nat ensures ReadsLine(HeadAt, s, i, digits, ext, size) {
      if SizeLine(digits, ext, size) && i <= |s| {
        if At(s, i, Line(digits, ext)) { ReadWhole(s, i, digits, ext, size); }
        if s[i..] < Line(digits, ext) { ReadCut(s, i, digits, ext, size); }
      }
    }
  }

  /** What `read` sees of one chunk. */
  lemma ReadChunk(read: Reader, s: bytes, i: nat, c: Chunk)
    requires ReadsLines(read) && ValidChunk(c) && At(s, i, EncodeChunk(c))
    ensures var h := read(s, i); var n := i + |EncodeChunk(c)|;
            && h.any && h.size == |c.data| > 0 && i <= h.nl < h.data == n - |c.data| - 2 && n <= |s|
            && s[h.data..n - 2] == c.data && LineEnd(s, n - 2) == n
  {
    var line := Line(c.digits, c.ext);
    AtAppend(s, i, line, c.data + [CR, LF]);
    AtAppend(s, i + |line|, c.data, [CR, LF]);
    assert ReadsLine(read, s, i, c.digits, c.ext, |c.data|);
    CrLfAt(s, i + |line| + |c.data|);
    AtSlice(s, i + |line|, c.data);
  }

  /** One chunk is decoded to its data. */
  lemma DechunkStep(read: Reader, s: bytes, i: nat, c: Chunk, payload: bytes)
    requires ReadsLines(read) && ValidChunk(c) && At(s, i, EncodeChunk(c))
    requires Dechunk(read, s, i + |EncodeChunk(c)|) == payload
    ensures Dechunk(read, s, i) == c.data + payload
  {
    ReadChunk(read, s, i, c);
  }

  /** One chunk does not complete the message. */
  lemma CompleteStep(read: Reader, s: bytes, i: nat, c: Chunk)
    requires ReadsLines(read) && ValidChunk(c) && At(s, i, EncodeChunk(c))
    ensures Complete(read, s, i) == Complete(read, s, i + |EncodeChunk(c)|)
  {
    ReadChunk(read, s, i, c);
  }

  lemma LastStep(read: Reader, s: bytes, i: nat, last: Chunk)
    requires ReadsLines(read) && SizeLine(last.digits, last.ext, 0) && At(s, i, EncodeBody([], last))
    ensures Dechunk(read, s, i) == [] && Complete(read, s, i)
  {
    AtAppend(s, i, Line(last.digits, last.ext), [CR, LF]);
    assert ReadsLine(read, s, i, last.digits, last.ext, 0);
  }

  lemma FirstChunkAt(s: bytes, i: nat, cs: seq<Chunk>, last: Chunk)
    requires ValidBody(cs, last) && cs != [] && At(s, i, EncodeBody(cs, last))
    ensures ValidChunk(cs[0]) && At(s, i, EncodeChunk(cs[0]))
    ensures ValidBody(cs[1..], last) && At(s, i + |EncodeChunk(cs[0])|, EncodeBody(cs[1..], last))
  {
    AtAppend(s, i, EncodeChunk(cs[0]), EncodeBody(cs[1..], last));
  }

  /** Decoding inverts the coding, for every list of non-empty chunks and whatever follows. */
  lemma {:induction false} DechunkInverts(read: Reader, s: bytes, i: nat, cs: seq<Chunk>, last: Chunk)
    requires ReadsLines(read) && ValidBody(cs, last) && At(s, i, EncodeBody(cs, last))
    ensures Dechunk(read, s, i) == Payload(cs)
    decreases |cs|
  {
    if cs == [] {
      LastStep(read, s, i, last);
    } else {
      FirstChunkAt(s, i, cs, last);
      DechunkInverts(read, s, i + |EncodeChunk(cs[0])|, cs[1..], last);
      DechunkStep(read, s, i, cs[0], Payload(cs[1..]));
    }
  }

  /** A whole message is complete. */
  lemma {:induction false} MessageComplete(read: Reader, s: bytes, i: nat, cs: seq<Chunk>, last: Chunk)
    requires ReadsLines(read) && ValidBody(cs, last) && At(s, i, EncodeBody(cs, last))
    ensures Complete(read, s, i)
    decreases |cs|
  {
    if cs == [] {
      LastStep(read, s, i, last);
    } else {
      FirstChunkAt(s, i, cs, last);
      MessageComplete(read, s, i + |EncodeChunk(cs[0])|, cs[1..], last);
      CompleteStep(read, s, i, cs[0]);
    }
  }

  /** A text that ends inside a size line, or before the line end after its data, is not complete. */
  lemma CutInside(read: Reader, s: bytes, i: nat, digits: bytes, ext: bytes, size: nat, rest: bytes)
    requires ReadsLines(read) && SizeLine(digits, ext, size)
    requires i <= |s| && s[i..] < Line(digits, ext) + rest && |rest| == size + 2
    ensures !Complete(read, s, i)
  {
    PrefixOfAppend(s, i, Line(digits, ext), rest);
    assert ReadsLine(read, s, i, digits, ext, size);
  }

  /** The completeness test is false on every strict prefix of a trailer-free message. */
  lemma {:induction false} StrictPrefixIncomplete(read: Reader, s: bytes, i: nat, cs: seq<Chunk>, last: Chunk)
    requires ReadsLines(read) && ValidBody(cs, last) && i <= |s| && s[i..] < EncodeBody(cs, last)
    ensures !Complete(read, s, i)
    decreases |cs|
  {
    if cs == [] {
      CutInside(read, s, i, last.digits, last.ext, 0, [CR, LF]);
    } else {
      var c := cs[0];
      PrefixOfAppend(s, i, EncodeChunk(c), EncodeBody(cs[1..], last));
      if |s| < i + |EncodeChunk(c)| {
        CutInside(read, s, i, c.digits, c.ext, |c.data|, c.data + [CR, LF]);
      } else {
        StrictPrefixIncomplete(read, s, i + |EncodeChunk(c)|, cs[1..], last);
        CompleteStep(read, s, i, c);
      }
    }
  }

  lemma PrefixOfAppend(s: bytes, i: nat, a: bytes, b: bytes)
    requires i <= |s| && s[i..] < a + b
    ensures |s| < i + |a| ==> s[i..] < a
    ensures |s| >= i + |a| ==> At(s, i, a) && s[i + |a|..] < b
  {
    var t := s[i..];
    if |s| < i + |a| {
      assert t == (a + b)[..|t|] == a[..|t|];
    } else {
      assert t == (a + b)[..|t|] == a + b[..|t| - |a|];
      AtPrefix(s, i, a);
      assert s[i + |a|..] == t[|a|..] == b[..|t| - |a|];
    }
  }

  // ---- The loops ----

  /** The bytes from p to end are those of s. */
  ghost predicate Holds(body: array<byte>, s: bytes, p: nat)
    reads body
  {
    |s| <= body.Length && forall k :: p <= k < |s| ==> body[k] == s[k]
  }

  /** The hex digits of a size line, from p on. */
  method ScanSize(body: array<byte>, p: nat, end: nat, ghost s: bytes) returns (size: nat, any: bool, q: nat)
    requires p <= end == |s| && Holds(body, s, p)
    ensures q == DigitsEnd(s, p) && any == (q > p) && size == HexValue(s, p, q)
  {
    size, any, q := 0, false, p;
    while q < end && HexDigit(body[q]) < 16
      invariant p <= q <= end && any == (q > p)
      invariant DigitsEnd(s, p) == DigitsEnd(s, q) && size == HexValue(s, p, q)
      decreases end - q
    {
      size := size * 16 + HexDigit(body[q]);
      any := true;
      q := q + 1;
    }
  }

  /** Skip to the line feed, or to the end. */
  method ScanLine(body: array<byte>, p: nat, end: nat, ghost s: bytes) returns (q: nat)
    requires p <= end == |s| && Holds(body, s, p)
    ensures q == LineFeed(s, p)
  {
    q := p;
    while q < end && body[q] != LF
      invariant p <= q <= end && LineFeed(s, p) == LineFeed(s, q)
      decreases end - q
    {
      q := q + 1;
    }
  }

  method SkipLineEnd(body: array<byte>, p: nat, end: nat, ghost s: bytes) returns (q: nat)
    requires p <= end == |s| && Holds(body, s, p)
    ensures q == LineEnd(s, p)
  {
    q := p;
    if q < end && body[q] == CR { q := q + 1; }
    if q < end && body[q] == LF { q := q + 1; }
  }

  method ReadSizeLine(body: array<byte>, p: nat, end: nat, ghost s: bytes) returns (h: Head)
    requires p <= end == |s| && Holds(body, s, p)
    ensures h == HeadAt(s, p)
  {
    var size, any, q := ScanSize(body, p, end, s);
    var nl := ScanLine(body, q, end, s);
    h := Head(any, size, nl, if nl < end then nl + 1 else nl);
  }

  /** memmove to a lower address. */
  method MoveDown(body: array<byte>, dst: nat, src: nat, n: nat)
    requires dst <= src && src + n <= body.Length
    modifies body
    ensures forall k :: 0 <= k < dst ==> body[k] == old(body[k])
    ensures forall k :: dst <= k < dst + n ==> body[k] == old(body[k + (src - dst)])
    ensures forall k :: src + n <= k < body.Length ==> body[k] == old(body[k])
  {
    var i, shift := dst, src - dst;
    while i < dst + n
      invariant dst <= i <= dst + n
      invariant forall k :: dst <= k < i ==> body[k] == old(body[k + shift])
      invariant forall k :: 0 <= k < body.Length && !(dst <= k < i) ==> body[k] == old(body[k])
    {
      body[i] := body[i + shift];
      i := i + 1;
    }
  }

  /** Move one chunk's data down to what is already decoded. */
  method MoveChunk(body: array<byte>, data: nat, n: nat, ghost s: bytes, dst: nat, ghost done: bytes,
                   ghost done': bytes)
    requires |done| == dst <= data && data + n <= |s| && Holds(body, s, data) && Holds(body, done, 0)
    requires done' == done + s[data..data + n]
    modifies body
    ensures Holds(body, done', 0) && Holds(body, s, data + n)
  {
    MoveDown(body, dst, data, n);
    ghost var chunk := s[data..data + n];
    forall k | 0 <= k < dst + n ensures body[k] == done'[k] {
      if k >= dst { assert chunk[k - dst] == s[k + (data - dst)]; }
    }
  }

  lemma DechunkFirst(read: Reader, s: bytes, i: nat, done: bytes, done': bytes)
    requires i <= |s| && !IsLast(s, i, read(s, i)) && done' == done + s[read(s, i).data..DataEnd(s, read(s, i))]
    ensures done + Dechunk(read, s, i) == done' + Dechunk(read, s, LineEnd(s, DataEnd(s, read(s, i))))
  {
  }

  /** One turn of the decoding loop. */
  method DecodeOne(body: array<byte>, src: nat, len: nat, ghost s: bytes, dst: nat, ghost done: bytes)
    returns (stop: bool, src': nat, dst': nat, h: Head, ghost done': bytes)
    requires |done| == dst <= src < len == |s| && Holds(body, s, src) && Holds(body, done, 0)
    modifies body
    ensures h == HeadAt(s, src) && stop == IsLast(s, src, h)
    ensures |done'| == dst' <= src' <= len && Holds(body, s, src') && Holds(body, done', 0)
    ensures if stop then done' == done && src' == src
            else src < src' == LineEnd(s, DataEnd(s, h)) && done' == done + s[h.data..DataEnd(s, h)]
  {
    h := ReadSizeLine(body, src, len, s);
    if !h.any || h.size == 0 { return true, src, dst, h, done; }
    var n := if h.data + h.size > len then len - h.data else h.size;
    done' := done + s[h.data..h.data + n];
    MoveChunk(body, h.data, n, s, dst, done, done');
    dst' := dst + n;
    src' := SkipLineEnd(body, h.data + n, len, s);
    stop := false;
  }

  /** c2m_http_dechunk: in place.  The write cursor never passes the read cursor (`dst <= src` is kept),
      and the terminating zero fits because the buffer is one longer than the body. */
  method DechunkInPlace(body: array<byte>, len: nat) returns (outLen: nat)
    requires len < body.Length
    modifies body
    ensures outLen <= len && body[..outLen] == Decoded(old(body[..len])) && body[outLen] == 0
  {
    ghost var s: bytes, done: bytes := body[..len], [];
    var src, dst, stop := 0, 0, false;
    while src < len && !stop
      invariant |done| == dst <= src <= len && Holds(body, s, src) && Holds(body, done, 0)
      invariant Decoded(s) == if stop then done else done + Dechunk(HeadAt, s, src)
      decreases !stop, len - src
    {
      ghost var src0, done0 := src, done;
      var h;
      stop, src, dst, h, done := DecodeOne(body, src, len, s, dst, done);
      if !stop { DechunkFirst(HeadAt, s, src0, done0, done); }
    }
    body[dst] := 0;
    outLen := dst;
  }

  /** c2m_http_chunked_complete. */
  method ChunkedComplete(body: array<byte>, n: nat) returns (done: bool)
    requires n <= body.Length
    ensures done == IsComplete(body[..n])
  {
    ghost var s := body[..n];
    var p := 0;
    while p < n
      invariant p <= n && IsComplete(s) == Complete(HeadAt, s, p)
      decreases n - p
    {
      var verdict;
      verdict, p := JudgeChunk(body, p, n, s);
      if verdict.Some? { return verdict.value; }
    }
    return false;
  }

  /** The loop body: the verdict on the chunk at p, or where the next one begins. */
  method JudgeChunk(body: array<byte>, p: nat, n: nat, ghost s: bytes) returns (verdict: Option<bool>, next: nat)
    requires p < n == |s| && Holds(body, s, p)
    ensures verdict == Verdict(s, p, HeadAt(s, p))
    ensures verdict == None ==> p < next <= n && next == LineEnd(s, HeadAt(s, p).data + HeadAt(s, p).size)
  {
    var h := ReadSizeLine(body, p, n, s);
    next := p;
    if h.nl >= n { return Some(false), p; }
    if !h.any { return Some(true), p; }
    if h.size == 0 { return Some(n - h.data >= 2), p; }
    if n - h.data < h.size + 2 { return Some(false), p; }
    next := SkipLineEnd(body, h.data + h.size, n, s);
    verdict := None;
  }

  /** A part of the stream is complete exactly when it holds the whole message. */
  lemma CompleteIff(cs: seq<Chunk>, last: Chunk, all: bytes, part: bytes)
    requires ValidBody(cs, last) && EncodeBody(cs, last) <= all && part <= all
    ensures IsComplete(part) <==> EncodeBody(cs, last) <= part
  {
    HeadAtReadsLines();
    var message := EncodeBody(cs, last);
    assert part[0..] == part;
    if |part| < |message| {
      assert part == message[..|part|];
      StrictPrefixIncomplete(HeadAt, part, 0, cs, last);
    } else {
      assert message == part[..|message|];
      AtPrefix(part, 0, message);
      MessageComplete(HeadAt, part, 0, cs, last);
    }
  }

  /** Decoding a whole message yields its payload. */
  lemma DecodedMessage(cs: seq<Chunk>, last: Chunk, s: bytes)
    requires ValidBody(cs, last) && EncodeBody(cs, last) <= s
    ensures Decoded(s) == Payload(cs)
  {
    HeadAtReadsLines();
    assert s[0..] == s;
    AtPrefix(s, 0, EncodeBody(cs, last));
    DechunkInverts(HeadAt, s, 0, cs, last);
  }

  method Store(s: bytes) returns (buf: array<byte>)
    ensures fresh(buf) && buf.Length == |s| + 1 && buf[..|s|] == s
  {
    buf := new byte[|s| + 1](i => if 0 <= i < |s| then s[i] else 0);
  }

  /** The read loop of c2m_http_read_message for a chunked body, given the part of it that arrived with
      the header.  It stops at the first complete part it sees, or when the peer closes. */
  method ReadUntilComplete(conn: Connection, first: bytes) returns (body: bytes, complete: bool)
    modifies conn
    ensures body + conn.incoming == first + old(conn.incoming)
    ensures if complete then IsComplete(body) else conn.incoming == [] && !IsComplete(first + old(conn.incoming))
  {
    ghost var all := first + conn.incoming;
    body := first;
    while true
      invariant body + conn.incoming == all
      decreases |conn.incoming|
    {
      var buf := Store(body);
      complete := ChunkedComplete(buf, |body|);
      if complete { return; }
      ghost var before := body;
      var chunk := conn.Receive(8192);
      if chunk == [] {
        assert body == all;
        return;
      }
      body := body + chunk;
      assert body + conn.incoming == before + (chunk + conn.incoming);
    }
  }

  /** Reading and then decoding a message that arrives in full: however the network splits it, the loop
      stops with all of it, without surplus bytes at exactly the message, and its payload is decoded. */
  method ReadChunked(conn: Connection, first: bytes, ghost cs: seq<Chunk>, ghost last: Chunk)
    returns (body: bytes, payload: bytes)
    requires ValidBody(cs, last) && EncodeBody(cs, last) <= first + conn.incoming
    modifies conn
    ensures body + conn.incoming == first + old(conn.incoming) && EncodeBody(cs, last) <= body
    ensures first + old(conn.incoming) == EncodeBody(cs, last) ==> body == EncodeBody(cs, last)
    ensures payload == Payload(cs)
  {
    ghost var all := first + conn.incoming;
    var complete;
    body, complete := ReadUntilComplete(conn, first);
    CompleteIff(cs, last, all, all);
    CompleteIff(cs, last, all, body);
    var buf := Store(body);
    DecodedMessage(cs, last, body);
    var n := DechunkInPlace(buf, |body|);
    payload := buf[..n];
  }
}
