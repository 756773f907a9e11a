/** Printing into a bounded buffer, and the driver that retries with a larger one. */
module JsonPrinter {
  import opened Ascii
  import opened Prelude
  import opened Json
  import opened JsonTree
  import opened Modular

  /** A buffer with a write cursor and the room left after it. */
  class Printer {
    const buf: array<byte>
    var cursor: nat
    var remaining: nat

    ghost predicate Valid()
      reads this
    {
      cursor + remaining == buf.Length
    }

    /** What is written so far. */
    ghost predicate Holds(done: bytes)
      reads this, buf
    {
      Valid() && cursor == |done| && Wrote(buf, done)
    }

    constructor (buf: array<byte>)
      ensures this.buf == buf && Holds([])
    {
      this.buf, cursor, remaining := buf, 0, buf.Length;
    }

    /** The outcome of appending a text: it is all there, or it does not fit with room to spare. */
    ghost predicate Appended(ok: bool, done: bytes, text: bytes)
      reads this, buf
    {
      Valid() && if ok then Holds(done + text) else |done + text| >= buf.Length
    }

    /** dict_append_char. */
    method AppendChar(c: byte, ghost done: bytes) returns (ok: bool)
      requires Holds(done)
      modifies this, buf
      ensures Appended(ok, done, [c])
    {
      if remaining < 1 { return false; }
      buf[cursor] := c;
      cursor := cursor + 1;
      remaining := remaining - 1;
      ok := true;
    }

    /** dict_append_to_buffer: refuses a text that would fill the buffer. */
    method AppendText(s: bytes, ghost done: bytes) returns (ok: bool)
      requires Holds(done)
      modifies this, buf
      ensures Appended(ok, done, s)
    {
      if |s| >= remaining { return false; }
      CopyIn(s, done);
      cursor := cursor + |s|;
      remaining := remaining - |s|;
      ok := true;
    }

    method CopyIn(s: bytes, ghost done: bytes)
      requires Holds(done) && cursor + |s| <= buf.Length
      modifies buf
      ensures Wrote(buf, done + s)
    {
      var i := 0;
      while i < |s|
        invariant 0 <= i <= |s| && Wrote(buf, done) && forall k :: 0 <= k < i ==> buf[cursor + k] == s[k]
      {
        buf[cursor + i] := s[i];
        i := i + 1;
      }
      forall k | 0 <= k < |done + s| ensures buf[k] == (done + s)[k] {
        if k >= cursor { assert buf[cursor + (k - cursor)] == s[k - cursor]; }
      }
    }

    /** One byte of dict_append_escaped_string. */
    method AppendEscapedByte(c: byte, ghost done: bytes) returns (ok: bool)
      requires Holds(done)
      modifies this, buf
      ensures Appended(ok, done, EscapeByte(c))
    {
      if c == QUOTE || c == BACKSLASH {
        ok := AppendChar(BACKSLASH, done);
        if ok {
          ok := AppendChar(c, done + [BACKSLASH]);
          assert done + [BACKSLASH] + [c] == done + [BACKSLASH, c];
        }
      } else if c >= 32 {
        ok := AppendChar(c, done);
      } else {
        ok := AppendText(EscapeByte(c), done);
      }
    }

    /** dict_append_escaped_string. */
    method AppendEscaped(s: bytes, ghost done: bytes) returns (ok: bool)
      requires Holds(done)
      modifies this, buf
      ensures Appended(ok, done, Quoted(s))
    {
      ok := AppendChar(QUOTE, done);
      if !ok { return; }
      ghost var now := done + [QUOTE];
      var i := 0;
      while i < |s|
        invariant 0 <= i <= |s| && Holds(now) && done + Quoted(s) == now + (Escape(s[i..]) + [QUOTE])
      {
        EscapeNext(s, i, now);
        ok := AppendEscapedByte(s[i], now);
        if !ok { return; }
        now := now + EscapeByte(s[i]);
        i := i + 1;
      }
      assert s[i..] == [] && Escape([]) + [QUOTE] == [QUOTE];
      ok := AppendChar(QUOTE, now);
    }

    /** A line break and the indentation. */
    method AppendNewLine(indent: nat, pretty: bool, ghost done: bytes) returns (ok: bool)
      requires Holds(done)
      modifies this, buf
      ensures Appended(ok, done, NewLine(indent, pretty))
    {
      if !pretty {
        assert done + [] == done;
        return true;
      }
      ok := AppendChar(LF, done);
      if !ok { return; }
      var i := 0;
      assert [LF] + Spaces(0) == [LF];
      while i < indent
        invariant i <= indent && Holds(done + ([LF] + Spaces(2 * i)))
      {
        ok := AppendText([SPACE, SPACE], done + ([LF] + Spaces(2 * i)));
        assert done + ([LF] + Spaces(2 * i)) + [SPACE, SPACE] == done + ([LF] + Spaces(2 * (i + 1)));
        if !ok { return; }
        i := i + 1;
      }
      ok := true;
    }

    /** dict_serialize_value_pretty. */
    method PrintValue(show: Shower, v: Value, indent: nat, pretty: bool, ghost done: bytes) returns (ok: bool)
      requires Holds(done)
      modifies this, buf
      ensures Appended(ok, done, Print(JsonWriter(show), v, indent, pretty))
      decreases v, 0
    {
      match v
      case Null => ok := AppendText(NULL, done);
      case Bool(b) => ok := AppendText(if b then TRUE else FALSE, done);
      case Number(bits) => ok := AppendText(show(bits), done);
      case Int(n) => ok := AppendText(Decimal(n), done);
      case Str(s) => ok := AppendEscaped(s, done);
      case Arr(items) => ok := PrintArray(show, items, indent, pretty, done);
      case Obj(pairs) => ok := PrintObject(show, pairs, indent, pretty, done);
    }

    method PrintArray(show: Shower, items: seq<Value>, indent: nat, pretty: bool, ghost done: bytes) returns (ok: bool)
      requires Holds(done)
      modifies this, buf
      ensures Appended(ok, done, Print(JsonWriter(show), Arr(items), indent, pretty))
      decreases items, |items| + 1
    {
      ghost var w := JsonWriter(show);
      ghost var text := done + Print(w, Arr(items), indent, pretty);
      ok := AppendChar(OPEN_BRACKET, done);
      if !ok { return; }
      ghost var now := done + [OPEN_BRACKET];
      assert text == now + ItemsLeft(w, items, 0, indent, pretty);
      var i := 0;
      while i < |items|
        invariant 0 <= i <= |items| && Holds(now) && text == now + ItemsLeft(w, items, i, indent, pretty)
      {
        ItemsLeftStep(w, items, i, indent, pretty, now);
        ok := PrintItemLine(show, items, i, indent, pretty, now);
        if !ok { return; }
        now := now + ItemLine(w, items, i, indent, pretty);
        i := i + 1;
      }
      ok := CloseWith(CLOSE_BRACKET, |items|, indent, pretty, now);
    }

    /** One turn of the loop over the items: the comma, the line, the item. */
    method PrintItemLine(show: Shower, items: seq<Value>, i: nat, indent: nat, pretty: bool, ghost done: bytes)
      returns (ok: bool)
      requires Holds(done) && i < |items|
      modifies this, buf
      ensures Appended(ok, done, ItemLine(JsonWriter(show), items, i, indent, pretty))
      decreases items, |items| - i
    {
      ghost var lead := Comma(i) + NewLine(indent, pretty);
      ghost var text := Print(JsonWriter(show), items[i], indent + 1, pretty);
      assert done + lead + text == done + ItemLine(JsonWriter(show), items, i, indent, pretty);
      ok := CommaAndLine(i, indent, pretty, done);
      if !ok { return; }
      ok := PrintValue(show, items[i], indent + 1, pretty, done + lead);
    }

    method CommaAndLine(i: nat, indent: nat, pretty: bool, ghost done: bytes) returns (ok: bool)
      requires Holds(done)
      modifies this, buf
      ensures Appended(ok, done, Comma(i) + NewLine(indent, pretty))
    {
      if i > 0 {
        ok := AppendChar(COMMA, done);
        if !ok { return; }
      }
      assert i == 0 ==> done + Comma(i) == done;
      ok := AppendNewLine(indent, pretty, done + Comma(i));
      assert done + Comma(i) + NewLine(indent, pretty) == done + (Comma(i) + NewLine(indent, pretty));
    }

    /** The closing line, or just the bracket of an empty container. */
    method CloseWith(bracket: byte, n: nat, indent: nat, pretty: bool, ghost done: bytes) returns (ok: bool)
      requires Holds(done)
      modifies this, buf
      ensures Appended(ok, done, Closing(bracket, n, indent, pretty))
    {
      ghost var line := if n > 0 then NewLine(indent, pretty) else [];
      if pretty && n > 0 {
        ok := AppendNewLine(indent, pretty, done);
        if !ok { return; }
      }
      assert !(pretty && n > 0) ==> done + line == done;
      ok := AppendChar(bracket, done + line);
      assert done + line + [bracket] == done + (line + [bracket]);
    }

    method PrintObject(show: Shower, pairs: seq<Pair>, indent: nat, pretty: bool, ghost done: bytes) returns (ok: bool)
      requires Holds(done)
      modifies this, buf
      ensures Appended(ok, done, Print(JsonWriter(show), Obj(pairs), indent, pretty))
      decreases pairs, |pairs| + 1
    {
      ghost var w := JsonWriter(show);
      ghost var text := done + Print(w, Obj(pairs), indent, pretty);
      ok := AppendChar(OPEN_BRACE, done);
      if !ok { return; }
      ghost var now := done + [OPEN_BRACE];
      PairsLeftAll(w, pairs, indent, pretty, done);
      var i := 0;
      while i < |pairs|
        invariant 0 <= i <= |pairs| && Holds(now) && text == now + PairsLeft(w, pairs, i, indent, pretty)
      {
        PairsLeftStep(w, pairs, i, indent, pretty, now);
        ok := PrintPairLine(show, pairs, i, indent, pretty, now);
        if !ok { return; }
        now := now + PairLine(w, pairs, i, indent, pretty);
        i := i + 1;
      }
      ok := CloseWith(CLOSE_BRACE, |pairs|, indent, pretty, now);
    }

    /** One turn of the loop over the pairs: the comma, the line, the key, the colon, the value. */
    method PrintPairLine(show: Shower, pairs: seq<Pair>, i: nat, indent: nat, pretty: bool, ghost done: bytes)
      returns (ok: bool)
      requires Holds(done) && i < |pairs|
      modifies this, buf
      ensures Appended(ok, done, PairLine(JsonWriter(show), pairs, i, indent, pretty))
      decreases pairs, |pairs| - i
    {
      ghost var lead := Comma(i) + NewLine(indent, pretty);
      ghost var key, colon := Quoted(pairs[i].key), Colon(pretty);
      ghost var text := Print(JsonWriter(show), pairs[i].value, indent + 1, pretty);
      assert done + lead + key + colon + text == done + PairLine(JsonWriter(show), pairs, i, indent, pretty);
      ok := CommaAndLine(i, indent, pretty, done);
      if !ok { return; }
      ok := AppendEscaped(pairs[i].key, done + lead);
      if !ok { return; }
      ok := AppendText(if pretty then [COLON, SPACE] else [COLON], done + lead + key);
      if !ok { return; }
      ok := PrintValue(show, pairs[i].value, indent + 1, pretty, done + lead + key + colon);
    }
  }

  // ---- What is still to be printed ----

  function Comma(i: nat): bytes {
    if i > 0 then [COMMA] else []
  }

  function Closing(bracket: byte, n: nat, indent: nat, pretty: bool): bytes {
    (if n > 0 then NewLine(indent, pretty) else []) + [bracket]
  }

  function ItemLine(w: Writer, items: seq<Value>, i: nat, indent: nat, pretty: bool): bytes
    requires i < |items|
  {
    Comma(i) + NewLine(indent, pretty) + Print(w, items[i], indent + 1, pretty)
  }

  /** The text of an array after its first i items. */
  function ItemsLeft(w: Writer, items: seq<Value>, i: nat, indent: nat, pretty: bool): bytes
    requires i <= |items|
  {
    if i == |items| then Closing(CLOSE_BRACKET, i, indent, pretty)
    else Comma(i) + PrintItems(w, items, i, indent, pretty)
  }

  lemma ItemsLeftStep(w: Writer, items: seq<Value>, i: nat, indent: nat, pretty: bool, now: bytes)
    requires i < |items|
    ensures now + ItemsLeft(w, items, i, indent, pretty)
         == (now + ItemLine(w, items, i, indent, pretty)) + ItemsLeft(w, items, i + 1, indent, pretty)
  {
    var c, line, text := Comma(i), NewLine(indent, pretty), Print(w, items[i], indent + 1, pretty);
    var rest := ItemsLeft(w, items, i + 1, indent, pretty);
    assert AfterItem(w, items, i, indent, pretty) == rest;
    assert c + (line + (text + rest)) == (c + line + text) + rest;
  }

  function PairLine(w: Writer, pairs: seq<Pair>, i: nat, indent: nat, pretty: bool): bytes
    requires i < |pairs|
  {
    Comma(i) + NewLine(indent, pretty) + w.key(pairs[i].key) + Colon(pretty)
    + Print(w, pairs[i].value, indent + 1, pretty)
  }

  /** The text of an object after its first i pairs. */
  function PairsLeft(w: Writer, pairs: seq<Pair>, i: nat, indent: nat, pretty: bool): bytes
    requires i <= |pairs|
  {
    if i == |pairs| then Closing(CLOSE_BRACE, i, indent, pretty)
    else Comma(i) + PrintPairs(w, pairs, i, indent, pretty)
  }

  lemma PairsLeftAll(w: Writer, pairs: seq<Pair>, indent: nat, pretty: bool, done: bytes)
    ensures done + Print(w, Obj(pairs), indent, pretty)
         == (done + [OPEN_BRACE]) + PairsLeft(w, pairs, 0, indent, pretty)
  {
    assert Print(w, Obj(pairs), indent, pretty) == [OPEN_BRACE] + PairsLeft(w, pairs, 0, indent, pretty);
    Reassociate(done, [OPEN_BRACE], PairsLeft(w, pairs, 0, indent, pretty));
  }

  lemma PairsLeftStep(w: Writer, pairs: seq<Pair>, i: nat, indent: nat, pretty: bool, now: bytes)
    requires i < |pairs|
    ensures now + PairsLeft(w, pairs, i, indent, pretty)
         == (now + PairLine(w, pairs, i, indent, pretty)) + PairsLeft(w, pairs, i + 1, indent, pretty)
  {
    var c, line, key, colon := Comma(i), NewLine(indent, pretty), w.key(pairs[i].key), Colon(pretty);
    var text, rest := Print(w, pairs[i].value, indent + 1, pretty), PairsLeft(w, pairs, i + 1, indent, pretty);
    assert AfterPair(w, pairs, i, indent, pretty) == rest;
    Regroup(c, line, key, colon, text, rest);
  }

  lemma Regroup(a: bytes, b: bytes, c: bytes, d: bytes, e: bytes, f: bytes)
    ensures a + (b + (c + (d + (e + f)))) == (a + b + c + d + e) + f
  {
  }

  lemma EscapeNext(s: bytes, i: nat, now: bytes)
    requires i < |s|
    ensures now + (Escape(s[i..]) + [QUOTE]) == (now + EscapeByte(s[i])) + (Escape(s[i + 1..]) + [QUOTE])
  {
    assert s[i..][1..] == s[i + 1..];
  }

  // ---- The drivers ----

  /** dict_serialize_json: the buffer gets the whole text and a terminator when the text is shorter than the
      buffer, and is emptied when it is not. */
  method SerializeInto(show: Shower, v: Value, buffer: array<byte>, pretty: bool) returns (ok: bool)
    modifies buffer
    ensures ok == (|Serialize(show, v, pretty)| < buffer.Length)
    ensures ok ==> Wrote(buffer, Serialize(show, v, pretty)) && buffer[|Serialize(show, v, pretty)|] == 0
    ensures !ok && buffer.Length > 0 ==> buffer[0] == 0
  {
    if buffer.Length == 0 { return false; }
    var p := new Printer(buffer);
    ok := p.PrintValue(show, v, 0, pretty, []);
    assert [] + Serialize(show, v, pretty) == Serialize(show, v, pretty);
    if !ok || p.remaining == 0 {
      buffer[0] := 0;
      return false;
    }
    buffer[p.cursor] := 0;
  }

  /** dict_serialize_json_heap: doubled from 256 bytes while it is at most 2^30.  The result is the printed
      text if that is shorter than 2^30 bytes, and the buffer is at most twice as large as it needs to be. */
  method SerializeHeap(show: Shower, v: Value, pretty: bool) returns (buf: array?<byte>)
    ensures var text := Serialize(show, v, pretty);
            if buf == null then |text| >= 0x4000_0000
            else |text| < 0x4000_0000 && fresh(buf) && |text| < buf.Length && Wrote(buf, text) && buf[|text|] == 0
                 && (buf.Length == 256 || buf.Length <= 2 * |text|)
  {
    ghost var text := Serialize(show, v, pretty);
    var cap := 256;
    ghost var power := 8;
    while cap <= 0x4000_0000
      invariant 8 <= power <= 31 && cap == Pow2(power) && (cap == 256 || cap <= 2 * |text|)
      decreases 31 - power
    {
      PowersOfTwo(power);
      buf := new byte[cap];
      var p := new Printer(buf);
      var ok := p.PrintValue(show, v, 0, pretty, []);
      assert [] + text == text;
      if ok && p.remaining > 0 {
        buf[p.cursor] := 0;
        return;
      }
      cap := cap * 2;
      power := power + 1;
    }
    PowersOfTwo(power);
    buf := null;
  }

  /** Only 2^30 and smaller powers pass the driver's limit. */
  lemma PowersOfTwo(power: nat)
    requires 8 <= power <= 31
    ensures Pow2(power) <= 0x4000_0000 <==> power <= 30
    ensures power == 31 ==> Pow2(power) == 0x8000_0000
  {
    assert Pow2(8) == 256;
    assert Pow2(16) == 65536;
    assert Pow2(24) == 0x100_0000;
    assert Pow2(30) == 0x4000_0000;
    Pow2Monotone(power, if power <= 30 then 30 else 31);
  }
}
