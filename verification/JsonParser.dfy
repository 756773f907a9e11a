/** The recursive-descent parser of include/dict.h over a text in a buffer. */
module JsonParser {
  import opened Ascii
  import opened Prelude
  import opened Json
  import opened JsonTree

  lemma PrependTwice(a: bytes, b: bytes, r: Parsed<bytes>)
    ensures Prepend(a, Prepend(b, r)) == Prepend(a + b, r)
  {
    if r.Done? { assert a + (b + r.value) == (a + b) + r.value; }
  }

  lemma PrependNone(r: Parsed<bytes>)
    ensures Prepend([], r) == r
  {
    if r.Done? { assert [] + r.value == r.value; }
  }

  /** The array has these items, and then those found from i on. */
  ghost predicate InArray(all: Parsed<Value>, items: seq<Value>, rd: Reader, s: bytes, i: nat) {
    i <= |s|
    && match ItemsAt(rd, s, i)
       case Fail => all == Fail
       case Done(rest, next) => all == Done(Arr(items + rest), next)
  }

  lemma ArrayStarts(rd: Reader, s: bytes, i: nat)
    requires i < |s| && !Sees(s, SkipSpace(s, i + 1), CLOSE_BRACKET)
    ensures InArray(ArrayAt(rd, s, i), [], rd, s, SkipSpace(s, i + 1))
  {
    var rest := ItemsAt(rd, s, SkipSpace(s, i + 1));
    if rest.Done? { assert [] + rest.value == rest.value; }
  }

  lemma ItemThen(all: Parsed<Value>, items: seq<Value>, rd: Reader, s: bytes, i: nat, v: Value, j: nat)
    requires InArray(all, items, rd, s, i) && ValueAt(rd, s, i) == Done(v, j)
    ensures Sees(s, SkipSpace(s, j), COMMA) ==> InArray(all, items + [v], rd, s, SkipSpace(s, SkipSpace(s, j) + 1))
    ensures Sees(s, SkipSpace(s, j), CLOSE_BRACKET) ==> all == Done(Arr(items + [v]), SkipSpace(s, j) + 1)
    ensures !Sees(s, SkipSpace(s, j), COMMA) && !Sees(s, SkipSpace(s, j), CLOSE_BRACKET) ==> all == Fail
  {
    var m := SkipSpace(s, j);
    if Sees(s, m, COMMA) {
      var rest := ItemsAt(rd, s, SkipSpace(s, m + 1));
      if rest.Done? { assert items + ([v] + rest.value) == (items + [v]) + rest.value; }
    }
  }

  lemma ItemFails(all: Parsed<Value>, items: seq<Value>, rd: Reader, s: bytes, i: nat)
    requires InArray(all, items, rd, s, i) && ValueAt(rd, s, i) == Fail
    ensures all == Fail
  {
  }

  function WithKey(key: bytes, v: Parsed<Value>): Parsed<Pair> {
    if v.Fail? then Fail else Done(Pair(key, v.value), v.next)
  }

  lemma PairFrom(read: NumberReader, s: bytes, i: nat)
    requires i <= |s|
    ensures match KeyAt(s, SkipSpace(s, i))
            case Fail => PairAt(JsonReader(read), s, i) == Fail
            case Done(key, j) =>
              var m := SkipSpace(s, j);
              PairAt(JsonReader(read), s, i)
              == if Sees(s, m, COLON) then WithKey(key, ValueAt(JsonReader(read), s, m + 1)) else Fail
  {
  }

  /** The object has what follows these pairs from i on. */
  ghost predicate InObject(all: Parsed<Value>, pairs: seq<Pair>, rd: Reader, s: bytes, i: nat) {
    i <= |s|
    && match PairsAt(rd, s, i, pairs)
       case Fail => all == Fail
       case Done(whole, next) => all == Done(Obj(whole), next)
  }

  lemma ObjectStarts(rd: Reader, s: bytes, i: nat)
    requires i < |s| && !Sees(s, SkipSpace(s, i + 1), CLOSE_BRACE)
    ensures InObject(ObjectAt(rd, s, i), [], rd, s, SkipSpace(s, i + 1))
  {
  }

  lemma PairThen(all: Parsed<Value>, before: seq<Pair>, pairs: seq<Pair>, rd: Reader, s: bytes, i: nat, p: Pair, j: nat)
    requires InObject(all, before, rd, s, i) && PairAt(rd, s, i) == Done(p, j)
    requires SetPair(before, p.key, p.value) == Some(pairs)
    ensures Sees(s, SkipSpace(s, j), COMMA) ==> InObject(all, pairs, rd, s, SkipSpace(s, j) + 1)
    ensures Sees(s, SkipSpace(s, j), CLOSE_BRACE) ==> all == Done(Obj(pairs), SkipSpace(s, j) + 1)
    ensures !Sees(s, SkipSpace(s, j), COMMA) && !Sees(s, SkipSpace(s, j), CLOSE_BRACE) ==> all == Fail
  {
  }

  lemma PairFails(all: Parsed<Value>, pairs: seq<Pair>, rd: Reader, s: bytes, i: nat)
    requires InObject(all, pairs, rd, s, i)
    requires PairAt(rd, s, i).Done? ==> SetPair(pairs, PairAt(rd, s, i).value.key, PairAt(rd, s, i).value.value) == None
    ensures all == Fail
  {
  }

  class Parser {
    const buffer: array<byte>
    const len: nat
    var pos: nat
    ghost const s: bytes

    ghost predicate Valid()
      reads this, buffer
    {
      Wrote(buffer, s) && |s| == len && pos <= len
    }

    /** The result of a parsing step: what the grammar finds, and then the position after it. */
    ghost predicate Found<T>(r: Option<T>, p: Parsed<T>)
      reads this, buffer
    {
      Valid() && if p.Fail? then r == None else r == Some(p.value) && pos == p.next
    }

    constructor (buffer: array<byte>, len: nat)
      requires len <= buffer.Length
      ensures this.buffer == buffer && this.len == len && s == buffer[..len] && pos == 0 && Valid()
    {
      this.buffer, this.len, pos := buffer, len, 0;
      s := buffer[..len];
    }

    /** dict_parser_skip_whitespace. */
    method Skip()
      requires Valid()
      modifies this`pos
      ensures Valid() && pos == SkipSpace(s, old(pos))
    {
      while pos < len && (buffer[pos] == 32 || buffer[pos] == 9 || buffer[pos] == 10 || buffer[pos] == 13)
        invariant Valid() && SkipSpace(s, old(pos)) == SkipSpace(s, pos)
      {
        pos := pos + 1;
      }
    }

    /** dict_parser_peek: 0 at the end. */
    method Peek() returns (c: byte)
      requires Valid()
      ensures c == if pos < len then s[pos] else 0
    {
      c := if pos >= len then 0 else buffer[pos];
    }

    /** dict_parser_consume. */
    method Consume(expected: byte) returns (ok: bool)
      requires Valid() && expected != 0
      modifies this`pos
      ensures Valid() && ok == Sees(s, old(pos), expected) && pos == if ok then old(pos) + 1 else old(pos)
    {
      var c := Peek();
      ok := c == expected;
      if ok { pos := pos + 1; }
    }

    /** After an item or a pair: white space, then a comma or the closing bracket. */
    method CommaOr(close: byte) returns (more: bool, closed: bool)
      requires Valid() && close != 0
      modifies this`pos
      ensures var j := SkipSpace(s, old(pos));
              && Valid() && more == Sees(s, j, COMMA) && closed == (!more && Sees(s, j, close))
              && pos == if more || closed then j + 1 else j
    {
      Skip();
      closed := false;
      more := Consume(COMMA);
      if !more { closed := Consume(close); }
    }

    /** dict_parse_literal. */
    method Literal(lit: bytes) returns (ok: bool)
      requires Valid()
      modifies this`pos
      ensures Valid() && ok == LiteralAt(s, old(pos), lit) && pos == if ok then old(pos) + |lit| else old(pos)
    {
      if pos + |lit| > len { return false; }
      var k := 0;
      while k < |lit|
        invariant 0 <= k <= |lit| && forall j :: 0 <= j < k ==> s[pos..pos + |lit|][j] == lit[j]
      {
        assert s[pos..pos + |lit|][k] == s[pos + k];
        if buffer[pos + k] != lit[k] { return false; }
        k := k + 1;
      }
      pos := pos + |lit|;
      ok := true;
    }

    /** The four digits of a unicode escape. */
    method UnicodeEscape() returns (r: Option<nat>)
      requires Valid()
      modifies this`pos
      ensures Valid() && pos >= old(pos) && r == Hex4(s, old(pos)) && (r.Some? ==> pos == old(pos) + 4)
    {
      var codepoint, i := 0, 0;
      while i < 4
        invariant 0 <= i <= 4 && Valid() && pos == old(pos) + i
        invariant i >= 1 ==> HexDigit(s[old(pos)]) < 16
        invariant i >= 2 ==> HexDigit(s[old(pos) + 1]) < 16
        invariant i >= 3 ==> HexDigit(s[old(pos) + 2]) < 16
        invariant i >= 4 ==> HexDigit(s[old(pos) + 3]) < 16
        invariant i == 0 ==> codepoint == 0
        invariant i == 1 ==> codepoint == HexDigit(s[old(pos)])
        invariant i == 2 ==> codepoint == HexDigit(s[old(pos)]) * 16 + HexDigit(s[old(pos) + 1])
        invariant i == 3 ==>
          codepoint == (HexDigit(s[old(pos)]) * 16 + HexDigit(s[old(pos) + 1])) * 16 + HexDigit(s[old(pos) + 2])
        invariant i == 4 ==> codepoint == ((HexDigit(s[old(pos)]) * 16 + HexDigit(s[old(pos) + 1])) * 16
                                           + HexDigit(s[old(pos) + 2])) * 16 + HexDigit(s[old(pos) + 3])
      {
        if pos >= len { return None; }
        var h := buffer[pos];
        if HexDigit(h) == 16 { return None; }
        pos := pos + 1;
        codepoint := codepoint * 16 + HexDigit(h);
        i := i + 1;
      }
      r := Some(codepoint);
    }

    /** What follows a backslash. */
    method EscapeSequence() returns (r: Option<bytes>)
      requires Valid()
      modifies this`pos
      ensures Found(r, EscapeAt(s, old(pos))) && (r.Some? ==> pos > old(pos))
    {
      if pos >= len { return None; }
      var esc := buffer[pos];
      pos := pos + 1;
      if esc == QUOTE || esc == BACKSLASH || esc == 47 { return Some([esc]); }
      if esc == 98 { return Some([8]); }
      if esc == 102 { return Some([12]); }
      if esc == 110 { return Some([10]); }
      if esc == 114 { return Some([13]); }
      if esc == 116 { return Some([9]); }
      if esc != 117 { return None; }
      var codepoint := UnicodeEscape();
      if codepoint == None { return None; }
      r := Some(Utf8(codepoint.value));
    }

    /** dict_parse_json_string. */
    method JsonString() returns (r: Option<bytes>)
      requires Valid()
      modifies this`pos
      ensures Found(r, StringAt(s, old(pos))) && (r.Some? ==> pos > old(pos))
    {
      var ok := Consume(QUOTE);
      if !ok { return None; }
      var out: bytes := [];
      PrependNone(CharsAt(s, pos));
      while pos < len
        invariant Valid() && pos > old(pos) && StringAt(s, old(pos)) == Prepend(out, CharsAt(s, pos))
        decreases len - pos
      {
        ghost var at := pos;
        var c := buffer[pos];
        pos := pos + 1;
        if c == QUOTE {
          assert out + [] == out;
          return Some(out);
        }
        if c == BACKSLASH {
          var decoded := EscapeSequence();
          if decoded == None { return None; }
          PrependTwice(out, decoded.value, CharsAt(s, pos));
          out := out + decoded.value;
        } else {
          PrependTwice(out, [c], CharsAt(s, pos));
          out := out + [c];
        }
      }
      r := None;
    }

    /** dict_parse_number, and the choice of an integer value. */
    method NumberValue(read: NumberReader) returns (r: Option<Value>)
      requires Valid() && pos < len
      modifies this`pos
      ensures Found(r, NumberAt(read, s, old(pos)))
    {
      var start := pos;
      if buffer[pos] == MINUS { pos := pos + 1; }
      ghost var from := pos;
      while pos < len && IsNumberChar(buffer[pos])
        invariant Valid() && from <= pos && NumberEnd(s, from) == NumberEnd(s, pos)
      {
        pos := pos + 1;
      }
      var n := pos - start;
      if n == 0 || n >= 128 { return None; }
      assert buffer[start..pos] == s[start..pos];
      r := read(buffer[start..pos]);
    }

    /** dict_parse_value. */
    method ParseValue(read: NumberReader) returns (r: Option<Value>)
      requires Valid()
      modifies this`pos
      ensures Found(r, ValueAt(JsonReader(read), s, old(pos))) && (r.Some? ==> pos > old(pos))
      decreases len - pos, 2
    {
      Skip();
      if pos >= len { return None; }
      var c := Peek();
      if c == QUOTE {
        r := StringValue(read);
      } else if c == OPEN_BRACE {
        r := ParseObject(read);
      } else if c == OPEN_BRACKET {
        r := ParseArray(read);
      } else {
        r := NumberOrWord(read);
      }
    }

    method StringValue(read: NumberReader) returns (r: Option<Value>)
      requires Valid() && Sees(s, pos, QUOTE)
      modifies this`pos
      ensures Found(r, ScalarAt(read, s, old(pos))) && (r.Some? ==> pos > old(pos))
    {
      var str := JsonString();
      if str == None { return None; }
      var text := CText(str.value);
      if |text| >= MAX_VALUE_LEN { return None; }
      r := Some(Str(text));
    }

    method NumberOrWord(read: NumberReader) returns (r: Option<Value>)
      requires Valid() && pos < len && s[pos] != QUOTE
      modifies this`pos
      ensures Found(r, ScalarAt(read, s, old(pos))) && (r.Some? ==> pos > old(pos))
    {
      var c := Peek();
      if c == MINUS || 48 <= c <= 57 {
        r := NumberValue(read);
        return;
      }
      var ok := Literal(TRUE);
      if ok { return Some(Bool(true)); }
      ok := Literal(FALSE);
      if ok { return Some(Bool(false)); }
      ok := Literal(NULL);
      r := if ok then Some(Null) else None;
    }

    /** dict_parse_array. */
    method ParseArray(read: NumberReader) returns (r: Option<Value>)
      requires Valid() && Sees(s, pos, OPEN_BRACKET)
      modifies this`pos
      ensures Found(r, ArrayAt(JsonReader(read), s, old(pos))) && (r.Some? ==> pos > old(pos))
      decreases len - pos, 1
    {
      ghost var rd, start := JsonReader(read), pos;
      var ok := Consume(OPEN_BRACKET);
      Skip();
      ok := Consume(CLOSE_BRACKET);
      if ok { return Some(Arr([])); }
      ArrayStarts(rd, s, start);
      r := ParseItems(read, ArrayAt(rd, s, start));
    }

    /** The loop over the items. */
    method ParseItems(read: NumberReader, ghost all: Parsed<Value>) returns (r: Option<Value>)
      requires Valid() && InArray(all, [], JsonReader(read), s, pos)
      modifies this`pos
      ensures Found(r, all) && (r.Some? ==> pos > old(pos))
      decreases len - pos, 4
    {
      var items: seq<Value> := [];
      while true
        invariant Valid() && pos >= old(pos) && InArray(all, items, JsonReader(read), s, pos)
        decreases len - pos
      {
        var now, more := ParseItem(read, all, items);
        if now == None { return None; }
        items := now.value;
        if !more { return Some(Arr(items)); }
      }
    }

    /** The loop body: one more item, and whether others follow. */
    method ParseItem(read: NumberReader, ghost all: Parsed<Value>, items: seq<Value>)
      returns (now: Option<seq<Value>>, more: bool)
      requires Valid() && InArray(all, items, JsonReader(read), s, pos)
      modifies this`pos
      ensures Valid() && match now
              case None => all == Fail
              case Some(items') =>
                pos > old(pos) &&
                if more then InArray(all, items', JsonReader(read), s, pos) else all == Done(Arr(items'), pos)
      decreases len - pos, 3
    {
      ghost var at := pos;
      var item := ParseValue(read);
      if item == None {
        ItemFails(all, items, JsonReader(read), s, at);
        return None, false;
      }
      ItemThen(all, items, JsonReader(read), s, at, item.value, pos);
      var closed;
      more, closed := CommaOr(CLOSE_BRACKET);
      if !more { return if closed then Some(items + [item.value]) else None, false; }
      Skip();
      now := Some(items + [item.value]);
    }

    /** dict_parse_object. */
    method ParseObject(read: NumberReader) returns (r: Option<Value>)
      requires Valid() && Sees(s, pos, OPEN_BRACE)
      modifies this`pos
      ensures Found(r, ObjectAt(JsonReader(read), s, old(pos))) && (r.Some? ==> pos > old(pos))
      decreases len - pos, 1
    {
      ghost var rd, start := JsonReader(read), pos;
      var ok := Consume(OPEN_BRACE);
      Skip();
      ok := Consume(CLOSE_BRACE);
      if ok { return Some(Obj([])); }
      ObjectStarts(rd, s, start);
      r := ParsePairs(read, ObjectAt(rd, s, start));
    }

    /** The loop over the pairs. */
    method ParsePairs(read: NumberReader, ghost all: Parsed<Value>) returns (r: Option<Value>)
      requires Valid() && InObject(all, [], JsonReader(read), s, pos)
      modifies this`pos
      ensures Found(r, all) && (r.Some? ==> pos > old(pos))
      decreases len - pos, 5
    {
      var pairs: seq<Pair> := [];
      while true
        invariant Valid() && pos >= old(pos) && InObject(all, pairs, JsonReader(read), s, pos)
        decreases len - pos
      {
        var now, more := ParseNextPair(read, all, pairs);
        if now == None { return None; }
        pairs := now.value;
        if !more { return Some(Obj(pairs)); }
      }
    }

    /** The loop body: one more pair, and whether others follow. */
    method ParseNextPair(read: NumberReader, ghost all: Parsed<Value>, pairs: seq<Pair>)
      returns (now: Option<seq<Pair>>, more: bool)
      requires Valid() && InObject(all, pairs, JsonReader(read), s, pos)
      modifies this`pos
      ensures Valid() && match now
              case None => all == Fail
              case Some(pairs') =>
                pos > old(pos) &&
                if more then InObject(all, pairs', JsonReader(read), s, pos) else all == Done(Obj(pairs'), pos)
      decreases len - pos, 4
    {
      ghost var at := pos;
      var pair := ParsePair(read);
      now := if pair == None then None else SetPair(pairs, pair.value.key, pair.value.value);
      if now == None {
        PairFails(all, pairs, JsonReader(read), s, at);
        return None, false;
      }
      PairThen(all, pairs, now.value, JsonReader(read), s, at, pair.value, pos);
      var closed;
      more, closed := CommaOr(CLOSE_BRACE);
      if !more && !closed { now := None; }
    }

    method ParseKey() returns (r: Option<bytes>)
      requires Valid()
      modifies this`pos
      ensures Found(r, KeyAt(s, SkipSpace(s, old(pos)))) && (r.Some? ==> pos > old(pos))
    {
      Skip();
      var key := JsonString();
      r := if key == None then None else Some(CText(key.value));
    }

    /** The key, the colon and the value. */
    method ParsePair(read: NumberReader) returns (r: Option<Pair>)
      requires Valid()
      modifies this`pos
      ensures Found(r, PairAt(JsonReader(read), s, old(pos))) && (r.Some? ==> pos > old(pos))
      decreases len - pos, 3
    {
      var key := ParseKey();
      PairFrom(read, s, old(pos));
      if key == None { return None; }
      Skip();
      var ok := Consume(COLON);
      if !ok { return None; }
      var value := ParseValue(read);
      r := if value == None then None else Some(Pair(key.value, value.value));
    }
  }

  /** dict_deserialize_json_len. */
  method DeserializeJson(read: NumberReader, json: array<byte>, len: nat) returns (r: Option<Value>)
    requires len <= json.Length
    ensures r == Deserialize(read, json[..len])
  {
    if len == 0 { return Some(Obj([])); }
    var parser := new Parser(json, len);
    r := parser.ParseValue(read);
    if r == None { return; }
    parser.Skip();
    if parser.pos != len { r := None; }
  }
}
