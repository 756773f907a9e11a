/** Request framing in examples/http-serve-fibers.c: content_length_of, read_request and its accumulator. */
module RequestReader {
  import opened Ascii
  import opened Numerals
  import opened Prelude
  import opened Socket

  // ---- The end of the header ----

  /** "\r\n\r\n" stands at i. */
  predicate BlankLineAt(s: bytes, i: nat) {
    i + 4 <= |s| && s[i] == CR && s[i + 1] == LF && s[i + 2] == CR && s[i + 3] == LF
  }

  lemma BlankLineIsText(s: bytes, i: nat)
    ensures BlankLineAt(s, i) <==> i + 4 <= |s| && s[i..i + 4] == Numerals.Text("\r\n\r\n")
  {
  }

  /** strstr from i on: the text searched ends at the first zero byte. */
  function FindBlankLine(s: bytes, i: nat): Option<nat>
    requires i <= |s|
    decreases |s| - i
  {
    if i == |s| || s[i] == 0 then None
    else if BlankLineAt(s, i) then Some(i)
    else FindBlankLine(s, i + 1)
  }

  /** The header is s[..n]: it ends with the first blank line, and no zero byte comes before that. */
  ghost predicate HeaderEndsAt(s: bytes, n: nat) {
    && 4 <= n <= |s| && BlankLineAt(s, n - 4)
    && (forall k :: 0 <= k < n - 4 ==> !BlankLineAt(s, k) && s[k] != 0)
  }

  lemma {:induction false} BlankLineFound(s: bytes, i: nat)
    requires i <= |s| && forall k :: 0 <= k < i ==> !BlankLineAt(s, k) && s[k] != 0
    ensures match FindBlankLine(s, i)
            case Some(p) => HeaderEndsAt(s, p + 4)
            case None => forall n: nat :: !HeaderEndsAt(s, n)
    decreases |s| - i
  {
    if i < |s| && s[i] != 0 && !BlankLineAt(s, i) {
      BlankLineFound(s, i + 1);
    } else if i == |s| || s[i] == 0 {
      forall n: nat ensures !HeaderEndsAt(s, n) {
        if 4 <= n <= |s| && i < n - 4 { assert s[i] == 0; }
        if 4 <= n <= |s| && n - 4 < i { assert !BlankLineAt(s, n - 4); }
      }
    }
  }

  lemma HeaderEndUnique(s: bytes, m: nat, n: nat)
    requires HeaderEndsAt(s, m) && HeaderEndsAt(s, n)
    ensures m == n
  {
    assert BlankLineAt(s, m - 4) && BlankLineAt(s, n - 4);
  }

  /** Where the header ends is settled by the bytes up to there. */
  lemma HeaderEndInPrefix(s: bytes, p: bytes, n: nat)
    requires p <= s && n <= |p|
    ensures HeaderEndsAt(p, n) == HeaderEndsAt(s, n)
  {
    assert forall k :: 0 <= k < |p| ==> p[k] == s[k];
    forall k: nat | k <= n - 4 ensures BlankLineAt(p, k) == BlankLineAt(s, k) { }
  }

  // ---- Content-Length ----

  function Lower(c: byte): byte {
    if 65 <= c <= 90 then c + 32 else c
  }

  /** "content-length:" */
  const KEY: bytes := [99, 111, 110, 116, 101, 110, 116, 45, 108, 101, 110, 103, 116, 104, 58]

  ghost predicate KeyAt(h: bytes, i: nat) {
    i + 15 <= |h| && forall j :: 0 <= j < 15 ==> Lower(h[i + j]) == KEY[j]
  }

  function SpacesEnd(h: bytes, i: nat): (n: nat)
    requires i <= |h|
    ensures i <= n <= |h|
    decreases |h| - i
  {
    if i == |h| || h[i] != SPACE then i else SpacesEnd(h, i + 1)
  }

  /** The number at i, continuing from v. */
  function Decimal(h: bytes, i: nat, v: nat): nat
    requires i <= |h|
    decreases |h| - i
  {
    if i == |h| || !IsDigit(h[i]) then v else Decimal(h, i + 1, v * 10 + (h[i] as int - 48))
  }

  /** The value of the first content-length header from i on, 0 when there is none. */
  ghost function LengthFrom(h: bytes, i: nat): nat
    requires i <= |h|
    decreases |h| - i
  {
    if i + 15 > |h| then 0
    else if KeyAt(h, i) then Decimal(h, SpacesEnd(h, i + 15), 0)
    else LengthFrom(h, i + 1)
  }

  ghost function ContentLength(h: bytes): nat {
    LengthFrom(h, 0)
  }

  /** The j-th letter of the key, in either case. */
  ghost predicate IsKeyByte(c: byte, j: nat)
    requires j < 15
  {
    c as int == "content-length:"[j] as int || c as int == "CONTENT-LENGTH:"[j] as int
  }

  lemma LowerIsKeyByte(c: byte, j: nat)
    requires j < 15
    ensures Lower(c) == KEY[j] <==> IsKeyByte(c, j)
  {
    assert KEY[j] as int == "content-length:"[j] as int;
    assert "CONTENT-LENGTH:"[j] as int == if j == 7 || j == 14 then KEY[j] as int else KEY[j] as int - 32;
  }

  ghost predicate IsKey(t: bytes) {
    |t| == 15 && forall j :: 0 <= j < 15 ==> IsKeyByte(t[j], j)
  }

  /** What is looked for is the key, in any case. */
  lemma KeyIsText(h: bytes, i: nat)
    ensures KeyAt(h, i) <==> i + 15 <= |h| && IsKey(h[i..i + 15])
  {
    if i + 15 <= |h| {
      var t := h[i..i + 15];
      forall j | 0 <= j < 15 ensures t[j] == h[i + j] && (Lower(t[j]) == KEY[j] <==> IsKeyByte(t[j], j)) {
        LowerIsKeyByte(t[j], j);
      }
      if IsKey(t) {
        forall j | 0 <= j < 15 ensures Lower(h[i + j]) == KEY[j] { assert IsKeyByte(t[j], j); }
      }
    }
  }

  lemma {:induction false} DigitsRead(h: bytes, i: nat, n: nat, v: nat)
    requires i < n <= |h| && Spells(h[i..n], v, 10)
    ensures Decimal(h, i, 0) == Decimal(h, n, v) && IsDigit(h[i])
    decreases n - i
  {
    var t := h[i..n];
    DigitIs(t[n - i - 1], v % 10);
    assert h[n - 1] == t[n - i - 1];
    if n - i > 1 {
      assert h[i..n - 1] == t[..n - i - 1];
      DigitsRead(h, i, n - 1, v / 10);
    }
  }

  /** A header that carries a length yields it: the first match of the key, any spaces, the digits, with or
      without zeros in front. */
  lemma {:induction false} LengthRead(h: bytes, i: nat, key: nat, n: nat, end: nat, v: nat)
    requires i <= key && KeyAt(h, key) && forall k :: i <= k < key ==> !KeyAt(h, k)
    requires key + 15 <= n < end <= |h| && (forall k :: key + 15 <= k < n ==> h[k] == SPACE)
    requires Spells(h[n..end], v, 10) && (end < |h| ==> !IsDigit(h[end]))
    ensures LengthFrom(h, i) == v
    decreases key - i
  {
    if i < key {
      LengthRead(h, i + 1, key, n, end, v);
    } else {
      DigitsRead(h, n, end, v);
      SpacesSkipped(h, key + 15, n);
    }
  }

  /** Without the key, or without a number behind it, the length is 0. */
  lemma {:induction false} NoLength(h: bytes, i: nat, key: nat, n: nat)
    requires i <= key <= |h| && forall k :: i <= k < key ==> !KeyAt(h, k)
    requires key == |h| || (KeyAt(h, key) && key + 15 <= n < |h| && h[n] != SPACE && !IsDigit(h[n])
                            && forall k :: key + 15 <= k < n ==> h[k] == SPACE)
    ensures LengthFrom(h, i) == 0
    decreases key - i
  {
    if i < key {
      if i + 15 <= |h| { NoLength(h, i + 1, key, n); }
    } else if key < |h| {
      SpacesSkipped(h, key + 15, n);
    }
  }

  lemma {:induction false} SpacesSkipped(h: bytes, i: nat, n: nat)
    requires i <= n < |h| && h[n] != SPACE && forall k :: i <= k < n ==> h[k] == SPACE
    ensures SpacesEnd(h, i) == n
    decreases n - i
  {
    if i < n { SpacesSkipped(h, i + 1, n); }
  }

  // ---- Requests ----

  /** A request and the length of its header. */
  datatype Request = Request(text: bytes, headerEnd: nat)

  /** The first request of a stream, once all of it is there: its header, up to the first blank line, and as
      many bytes as that announces. */
  ghost function FirstRequest(s: bytes): (r: Option<Request>)
    ensures r.Some? ==> 0 < r.value.headerEnd <= |r.value.text| && r.value.text <= s
  {
    if exists n: nat :: HeaderEndsAt(s, n) then
      var n: nat :| HeaderEndsAt(s, n);
      var total := n + ContentLength(s[..n]);
      if total <= |s| then Some(Request(s[..total], n)) else None
    else None
  }

  type Framing = bytes -> Option<Request>

  /** Does `first` return a beginning of its argument? */
  ghost predicate Takes(first: Framing) {
    forall s: bytes :: first(s).Some? ==> first(s).value.text != [] && first(s).value.text <= s
  }

  /** The requests of a whole stream. */
  ghost function RequestsBy(first: Framing, s: bytes): seq<Request>
    requires Takes(first)
    decreases |s|
  {
    match first(s)
    case None => []
    case Some(r) => [r] + RequestsBy(first, s[|r.text|..])
  }

  /** What is left over after them. */
  ghost function LeftoverBy(first: Framing, s: bytes): bytes
    requires Takes(first)
    decreases |s|
  {
    match first(s)
    case None => s
    case Some(r) => LeftoverBy(first, s[|r.text|..])
  }

  ghost function Requests(s: bytes): seq<Request> {
    RequestsBy(FirstRequest, s)
  }

  ghost function Leftover(s: bytes): bytes {
    LeftoverBy(FirstRequest, s)
  }

  function Text(r: Request): bytes {
    r.text
  }

  lemma FirstRequestIs(s: bytes, n: nat)
    requires HeaderEndsAt(s, n)
    ensures FirstRequest(s) == if n + ContentLength(s[..n]) <= |s| then Some(Request(s[..n + ContentLength(s[..n])], n))
                               else None
  {
    var m: nat :| HeaderEndsAt(s, m) && FirstRequest(s) == if m + ContentLength(s[..m]) <= |s| then
                                                             Some(Request(s[..m + ContentLength(s[..m])], m))
                                                           else None;
    HeaderEndUnique(s, n, m);
  }

  /** Reading ahead does not matter: a request is the first of every longer stream, and of every part of
      the stream that holds all of it. */
  lemma FirstRequestInPrefix(s: bytes, p: bytes)
    requires p <= s
    ensures FirstRequest(p).Some? ==> FirstRequest(s) == FirstRequest(p)
    ensures FirstRequest(s).Some? && |FirstRequest(s).value.text| <= |p| ==> FirstRequest(p) == FirstRequest(s)
  {
    if n: nat :| HeaderEndsAt(p, n) {
      HeaderEndInPrefix(s, p, n);
      FirstRequestIs(s, n);
      FirstRequestIs(p, n);
      SamePrefix(s, p, n);
    } else if n: nat :| HeaderEndsAt(s, n) {
      FirstRequestIs(s, n);
      if n <= |p| { HeaderEndInPrefix(s, p, n); }
    }
  }

  lemma Settled(s: bytes, p: bytes, r: Option<Request>, rest: bytes, incoming: bytes)
    requires s == p + incoming && r == FirstRequest(p) && r.Some? && rest == p[|r.value.text|..]
    ensures r == FirstRequest(s) && r.value.text + (rest + incoming) == s
  {
    FirstRequestInPrefix(s, p);
    assert r.value.text + rest == p;
  }

  lemma SamePrefix(s: bytes, p: bytes, n: nat)
    requires p <= s && n <= |p|
    ensures p[..n] == s[..n]
    ensures forall m: nat :: m <= |p| ==> p[..m] == s[..m]
  {
  }

  lemma {:induction false} ConserveBy(first: Framing, s: bytes)
    requires Takes(first)
    ensures Flatten(Text, RequestsBy(first, s)) + LeftoverBy(first, s) == s
    decreases |s|
  {
    if first(s).Some? {
      var r := first(s).value;
      var rest := s[|r.text|..];
      ConserveBy(first, rest);
      var texts, left := Flatten(Text, RequestsBy(first, rest)), LeftoverBy(first, rest);
      FlattenCons(Text, r, RequestsBy(first, rest));
      Reassociate(r.text, texts, left);
      assert r.text + rest == s;
    }
  }

  /** Requests and the rest always concatenate to the stream. */
  lemma RequestsConserve(s: bytes)
    ensures Flatten(Text, Requests(s)) + Leftover(s) == s
  {
    ConserveBy(FirstRequest, s);
  }

  ghost predicate WellFormed(r: Request) {
    FirstRequest(r.text) == Some(r)
  }

  /** A header up to its only blank line and a body of the length it announces make a request. */
  lemma HeaderAndBody(h: bytes, body: bytes)
    requires HeaderEndsAt(h, |h|) && ContentLength(h) == |body|
    ensures WellFormed(Request(h + body, |h|))
  {
    var s := h + body;
    HeaderEndInPrefix(s, h, |h|);
    FirstRequestIs(s, |h|);
    assert s[..|h|] == h && s[..|s|] == s;
  }

  /** `first` finds r at the beginning of any stream. */
  ghost predicate Finds(first: Framing, r: Request) {
    r.text != [] && forall rest: bytes :: first(r.text + rest) == Some(r)
  }

  lemma {:induction false} PipelineBy(first: Framing, rs: seq<Request>)
    requires Takes(first) && first([]) == None && forall i :: 0 <= i < |rs| ==> Finds(first, rs[i])
    ensures RequestsBy(first, Flatten(Text, rs)) == rs
  {
    if rs != [] {
      var r, rest := rs[0], Flatten(Text, rs[1..]);
      assert rs == [r] + rs[1..];
      FlattenCons(Text, r, rs[1..]);
      assert Finds(first, rs[0]);
      assert (r.text + rest)[|r.text|..] == rest;
      PipelineBy(first, rs[1..]);
    }
  }

  /** Pipelined requests are told apart again. */
  lemma PipelineRead(rs: seq<Request>)
    requires forall i :: 0 <= i < |rs| ==> WellFormed(rs[i])
    ensures Requests(Flatten(Text, rs)) == rs
  {
    forall i | 0 <= i < |rs| ensures Finds(FirstRequest, rs[i]) {
      assert WellFormed(rs[i]);
      forall rest: bytes ensures FirstRequest(rs[i].text + rest) == Some(rs[i]) {
        FirstRequestInPrefix(rs[i].text + rest, rs[i].text);
      }
    }
    PipelineBy(FirstRequest, rs);
  }

  // ---- The loops ----

  /** strstr(buf, "\r\n\r\n") over the first len bytes, which a zero byte follows. */
  method SearchBlankLine(buf: array<byte>, len: nat, ghost s: bytes) returns (p: Option<nat>)
    requires |s| == len && Wrote(buf, s)
    ensures p == FindBlankLine(s, 0)
  {
    var i := 0;
    while i < len && buf[i] != 0
      invariant i <= len && FindBlankLine(s, 0) == FindBlankLine(s, i)
    {
      if i + 4 <= len && buf[i] == CR && buf[i + 1] == LF && buf[i + 2] == CR && buf[i + 3] == LF { return Some(i); }
      i := i + 1;
    }
    return None;
  }

  method MatchKey(buf: array<byte>, i: nat, ghost h: bytes) returns (found: bool)
    requires Wrote(buf, h) && i + 15 <= |h|
    ensures found == KeyAt(h, i)
  {
    var j := 0;
    while j < 15
      invariant 0 <= j <= 15 && forall k :: 0 <= k < j ==> Lower(h[i + k]) == KEY[k]
    {
      if Lower(buf[i + j]) != KEY[j] {
        assert Lower(h[i + j]) != KEY[j];
        return false;
      }
      j := j + 1;
    }
    return true;
  }

  /** content_length_of. */
  method ContentLengthOf(buf: array<byte>, headerEnd: nat, ghost h: bytes) returns (v: nat)
    requires |h| == headerEnd && Wrote(buf, h)
    ensures v == ContentLength(h)
  {
    var i := 0;
    while i + 15 <= headerEnd
      invariant i <= headerEnd && ContentLength(h) == LengthFrom(h, i)
    {
      var found := MatchKey(buf, i, h);
      if found {
        v := ReadNumber(buf, i + 15, headerEnd, h);
        return;
      }
      i := i + 1;
    }
    v := 0;
  }

  method ReadNumber(buf: array<byte>, i: nat, headerEnd: nat, ghost h: bytes) returns (v: nat)
    requires i <= headerEnd == |h| && Wrote(buf, h)
    ensures v == Decimal(h, SpacesEnd(h, i), 0)
  {
    var k := i;
    while k < headerEnd && buf[k] == SPACE
      invariant i <= k <= headerEnd && SpacesEnd(h, i) == SpacesEnd(h, k)
    {
      k := k + 1;
    }
    v := 0;
    while k < headerEnd && 48 <= buf[k] <= 57
      invariant i <= k <= headerEnd && Decimal(h, SpacesEnd(h, i), 0) == Decimal(h, k, v)
    {
      v := v * 10 + (buf[k] as int - 48);
      k := k + 1;
    }
  }

  /** conn_io: the bytes received and not yet consumed, and a zero byte after them. */
  class Accumulator {
    var buf: array<byte>
    var len: nat

    ghost predicate Valid()
      reads this, buf
    {
      if buf.Length == 0 then len == 0 else len < buf.Length && buf[len] == 0
    }

    ghost function Pending(): bytes
      requires Valid()
      reads this, buf
    {
      buf[..len]
    }

    constructor ()
      ensures Valid() && fresh(buf) && Pending() == []
    {
      buf := new byte[0];
      len := 0;
    }

    /** Take the first request out of the buffer when all of it is there. */
    method TakeRequest() returns (r: Option<Request>)
      requires Valid()
      modifies this`len, buf
      ensures Valid()
      ensures r == FirstRequest(old(Pending()))
      ensures Pending() == if r.Some? then old(Pending())[|r.value.text|..] else old(Pending())
    {
      ghost var s := Pending();
      if len == 0 { return None; }
      var p := SearchBlankLine(buf, len, s);
      BlankLineFound(s, 0);
      if p == None { return None; }
      FirstRequestIs(s, p.value + 4);
      var headerEnd := p.value + 4;
      var contentLen := ContentLengthOf(buf, headerEnd, s[..headerEnd]);
      var total := headerEnd + contentLen;
      if len < total { return None; }
      assert buf[..total] == s[..total];
      r := Some(Request(buf[..total], headerEnd));
      Discard(total);
    }

    /** memmove the remainder to the front. */
    method Discard(n: nat)
      requires Valid() && 0 < n <= len
      modifies this`len, buf
      ensures Valid() && Pending() == old(Pending())[n..]
    {
      var i := 0;
      while i < len - n
        invariant 0 <= i <= len - n && len == old(len)
        invariant forall k :: 0 <= k < i ==> buf[k] == old(buf[k + n])
        invariant forall k :: i <= k < buf.Length ==> buf[k] == old(buf[k])
      {
        buf[i] := buf[i + n];
        i := i + 1;
      }
      len := len - n;
      buf[len] := 0;
    }

    /** realloc when fewer than 4096 bytes are free: 8192 at first, then doubled until they are. */
    method Reserve()
      requires Valid()
      modifies this`buf
      ensures Valid() && Pending() == old(Pending()) && len + 4096 + 1 <= buf.Length
      ensures buf == old(buf) || fresh(buf)
    {
      if len + 4096 + 1 > buf.Length {
        var cap := if buf.Length > 0 then buf.Length * 2 else 8192;
        while cap < len + 4096 + 1
          invariant cap > 0 && cap > len
          decreases len + 4096 + 1 - cap
        {
          cap := cap * 2;
        }
        var from, n := buf, len;
        buf := new byte[cap](i reads this, from => if 0 <= i < n < from.Length then from[i] else 0);
        assert buf[..n] == from[..n];
      }
    }

    /** Store what was received. */
    method Extend(chunk: bytes)
      requires Valid() && len + |chunk| < buf.Length
      modifies this`len, buf
      ensures Valid() && Pending() == old(Pending()) + chunk
    {
      var i := 0;
      while i < |chunk|
        invariant 0 <= i <= |chunk|
        invariant len == old(len) && forall k :: 0 <= k < len ==> buf[k] == old(buf[k])
        invariant forall k :: 0 <= k < i ==> buf[len + k] == chunk[k]
      {
        buf[len + i] := chunk[i];
        i := i + 1;
      }
      len := len + |chunk|;
      buf[len] := 0;
    }

    /** Receive into the free part of the buffer; false when the peer has closed. */
    method ReceiveMore(conn: Connection) returns (more: bool)
      requires Valid()
      modifies this, buf, conn
      ensures Valid() && (buf == old(buf) || fresh(buf))
      ensures Pending() + conn.incoming == old(Pending()) + old(conn.incoming)
      ensures if more then |conn.incoming| < |old(conn.incoming)|
              else old(conn.incoming) == [] == conn.incoming && Pending() == old(Pending())
    {
      ghost var p := Pending();
      Reserve();
      var chunk := conn.Receive(buf.Length - len - 1);
      if chunk == [] { return false; }
      Extend(chunk);
      assert p + (chunk + conn.incoming) == (p + chunk) + conn.incoming;
      more := true;
    }

    /** read_request: the result and what is left depend only on the stream, not on how it arrives. */
    method ReadRequest(conn: Connection) returns (r: Option<Request>)
      requires Valid()
      modifies this, buf, conn
      ensures Valid() && (buf == old(buf) || fresh(buf))
      ensures var s := old(Pending()) + old(conn.incoming);
              && r == FirstRequest(s)
              && (r.Some? ==> r.value.text + (Pending() + conn.incoming) == s)
              && (r.None? ==> Pending() == s && conn.incoming == [])
    {
      ghost var s := Pending() + conn.incoming;
      while true
        invariant Valid() && (buf == old(buf) || fresh(buf))
        invariant Pending() + conn.incoming == s
        decreases |conn.incoming|
      {
        ghost var p := Pending();
        r := TakeRequest();
        if r.Some? {
          Settled(s, p, r, Pending(), conn.incoming);
          return;
        }
        var more := ReceiveMore(conn);
        if !more {
          assert p == s;
          return;
        }
      }
    }

    /** Reading until the peer closes: the requests of the whole stream, however it was split. */
    method ReadAllRequests(conn: Connection) returns (rs: seq<Request>)
      requires Valid()
      modifies this, buf, conn
      ensures var s := old(Pending()) + old(conn.incoming);
              rs == Requests(s) && Valid() && Pending() == Leftover(s) && conn.incoming == []
    {
      ghost var s := Pending() + conn.incoming;
      ghost var rest := s;
      rs := [];
      while true
        invariant Valid() && (buf == old(buf) || fresh(buf))
        invariant rest == Pending() + conn.incoming
        invariant Requests(s) == rs + Requests(rest) && Leftover(s) == Leftover(rest)
        decreases |rest|
      {
        var r := ReadRequest(conn);
        if r == None { return; }
        assert rest[|r.value.text|..] == Pending() + conn.incoming;
        rs := rs + [r.value];
        rest := rest[|r.value.text|..];
      }
    }
  }
}
