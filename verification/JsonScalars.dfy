/** Reading back what is printed for strings, numbers and words. */
module JsonScalars {
  import opened Ascii
  import opened Prelude
  import opened Json
  import opened Numerals
  import opened Placement

  const MAX_EXACT: int := 9007199254740992

  /** t spells n in decimal digits, after a minus sign when n is negative. */
  ghost predicate IsDecimal(t: bytes, n: int) {
    if n < 0 then t != [] && t[0] as char == '-' && Spells(t[1..], -n, 10) else Spells(t, n, 10)
  }

  /** What the C library must do with decimal integers up to 2^53: a double holds them exactly, so reading
      one gives it back, as an integer. */
  ghost predicate ReadsIntegers(read: NumberReader) {
    forall t, n :: -MAX_EXACT <= n <= MAX_EXACT && IsDecimal(t, n) ==> read(t) == Some(Int(n))
  }

  /** An integer is printed in decimal digits, without zeros in front. */
  lemma DecimalSpells(n: int)
    ensures IsDecimal(Decimal(n), n)
    ensures var t := if n < 0 then Decimal(n)[1..] else Decimal(n); |t| > 1 ==> t[0] as char != '0'
  {
    DigitsSpell(if n < 0 then -n else n);
    if n < 0 { assert Decimal(n)[1..] == Digits(-n); }
  }

  // ---- Strings ----

  lemma HexBack(d: nat)
    requires d < 16
    ensures HexDigit(Hex(d)) == d
  {
  }

  lemma HexEscape(s: bytes, i: nat, c: byte)
    requires c < 32 && At(s, i, [BACKSLASH, 117, 48, 48, Hex(c as nat / 16), Hex(c as nat % 16)])
    ensures EscapeAt(s, i + 1) == Done([c], i + 6)
  {
    var h, l := Hex(c as nat / 16), Hex(c as nat % 16);
    var t: bytes := [BACKSLASH, 117, 48, 48, h, l];
    assert Same(s, i, t, 1) && Same(s, i, t, 2) && Same(s, i, t, 3) && Same(s, i, t, 4) && Same(s, i, t, 5);
    HexBack(c as nat / 16);
    HexBack(c as nat % 16);
  }

  /** One escaped byte is read back. */
  lemma EscapeByteBack(s: bytes, i: nat, c: byte)
    requires c != 0 && At(s, i, EscapeByte(c))
    ensures CharsAt(s, i) == Prepend([c], CharsAt(s, i + |EscapeByte(c)|))
  {
    var t := EscapeByte(c);
    AtFirst(s, i, t);
    if |t| == 6 {
      HexEscape(s, i, c);
    } else if |t| == 2 {
      assert Same(s, i, t, 1);
    }
  }

  lemma EscapeCons(b: bytes)
    requires b != []
    ensures Escape(b) + [QUOTE] == EscapeByte(b[0]) + (Escape(b[1..]) + [QUOTE])
    ensures |Escape(b)| == |EscapeByte(b[0])| + |Escape(b[1..])|
  {
  }

  /** An escaped byte before characters that are read back. */
  lemma ByteThen(s: bytes, i: nat, b: bytes, n: nat)
    requires b != [] && b[0] != 0 && At(s, i, EscapeByte(b[0]))
    requires CharsAt(s, i + |EscapeByte(b[0])|) == Done(b[1..], n)
    ensures CharsAt(s, i) == Done(b, n)
  {
    EscapeByteBack(s, i, b[0]);
    assert b == [b[0]] + b[1..];
  }

  lemma NoneLeft(s: bytes, i: nat)
    requires At(s, i, Escape([]) + [QUOTE])
    ensures CharsAt(s, i) == Done([], i + 1)
  {
    assert Escape([]) + [QUOTE] == [QUOTE];
    AtFirst(s, i, [QUOTE]);
  }

  /** Unescaping inverts escaping, over all bytes but zero. */
  lemma {:induction false} EscapeBack(s: bytes, i: nat, b: bytes)
    requires NulFree(b) && At(s, i, Escape(b) + [QUOTE])
    ensures CharsAt(s, i) == Done(b, i + |Escape(b)| + 1)
    decreases |b|
  {
    if b == [] {
      NoneLeft(s, i);
    } else {
      EscapeCons(b);
      AtAppend(s, i, EscapeByte(b[0]), Escape(b[1..]) + [QUOTE]);
      EscapeBack(s, i + |EscapeByte(b[0])|, b[1..]);
      ByteThen(s, i, b, i + |Escape(b)| + 1);
    }
  }

  lemma QuotedBack(s: bytes, i: nat, b: bytes)
    requires NulFree(b) && At(s, i, Quoted(b))
    ensures StringAt(s, i) == Done(b, i + |Quoted(b)|)
  {
    AtByte(s, i, QUOTE, Escape(b) + [QUOTE]);
    EscapeBack(s, i + 1, b);
  }

  lemma {:induction false} CTextWhole(b: bytes)
    requires NulFree(b)
    ensures CText(b) == b
  {
    if b != [] {
      CTextWhole(b[1..]);
      assert b == [b[0]] + b[1..];
    }
  }

  // ---- Numbers ----

  /** A text of digits, after an optional minus sign. */
  ghost predicate IsInteger(t: bytes) {
    t != [] && (t[0] == MINUS || IsDigit(t[0])) && forall k :: 0 < k < |t| ==> IsDigit(t[k])
  }

  lemma DecimalIsInteger(n: int)
    ensures IsInteger(Decimal(n))
  {
    DigitsAreDigits(if n < 0 then -n else n);
  }

  lemma DecimalLength(n: int)
    requires -MAX_EXACT <= n <= MAX_EXACT
    ensures |Decimal(n)| <= 17
  {
    assert Pow10(4) == 10000;
    assert Pow10(8) == 100000000;
    assert Pow10(12) == 1000000000000;
    assert Pow10(16) == 10000000000000000;
    DigitsLength(if n < 0 then -n else n, 16);
  }

  lemma {:induction false} NumberEndIs(s: bytes, i: nat, j: nat)
    requires i <= j <= |s| && (forall k :: i <= k < j ==> IsNumberChar(s[k])) && (j < |s| ==> !IsNumberChar(s[j]))
    ensures NumberEnd(s, i) == j
    decreases j - i
  {
    if i < j { NumberEndIs(s, i + 1, j); }
  }

  lemma IntegerBack(read: NumberReader, s: bytes, i: nat, t: bytes, v: Value)
    requires IsInteger(t) && |t| < 128 && read(t) == Some(v) && At(s, i, t)
    requires i + |t| < |s| ==> !IsNumberChar(s[i + |t|])
    ensures NumberAt(read, s, i) == Done(v, i + |t|)
  {
    forall k | i <= k < i + |t| ensures s[k] == t[k - i] { assert Same(s, i, t, k - i); }
    AtSlice(s, i, t);
    NumberEndIs(s, i, i + |t|);
    NumberEndIs(s, i + 1, i + |t|);
  }

  // ---- Space ----

  lemma {:induction false} SkipSpaceIs(s: bytes, i: nat, j: nat)
    requires i <= j <= |s| && (forall k :: i <= k < j ==> IsSpace(s[k])) && (j < |s| ==> !IsSpace(s[j]))
    ensures SkipSpace(s, i) == j
    decreases j - i
  {
    if i < j { SkipSpaceIs(s, i + 1, j); }
  }

  // ---- Values without parts ----

  /** Strings within their limit, integers a double can hold, no doubles. */
  ghost predicate StorableScalar(v: Value) {
    match v
    case Int(n) => -MAX_EXACT <= n <= MAX_EXACT
    case Str(s) => NulFree(s) && |s| < MAX_VALUE_LEN
    case Null => true
    case Bool(_) => true
    case _ => false
  }

  ghost predicate StorableKey(key: bytes) {
    NulFree(key) && 0 < |key| < MAX_KEY_LEN
  }

  /** Nothing that could continue a number follows. */
  ghost predicate Ends(s: bytes, j: nat) {
    j < |s| ==> !IsNumberChar(s[j])
  }

  /** A byte that begins a value without parts. */
  predicate Begins(c: byte) {
    !IsSpace(c) && c != CLOSE_BRACKET && c != CLOSE_BRACE && c != COMMA && c != OPEN_BRACKET && c != OPEN_BRACE
  }

  lemma ScalarBegins(show: Shower, v: Value)
    requires StorableScalar(v)
    ensures ScalarText(show, v) != [] && Begins(ScalarText(show, v)[0])
  {
    if v.Int? { DecimalIsInteger(v.n); }
  }

  lemma WordBack(s: bytes, i: nat, v: Value, t: bytes)
    requires (v == Bool(true) && t == TRUE) || (v == Bool(false) && t == FALSE) || (v == Null && t == NULL)
    requires At(s, i, t)
    ensures WordAt(s, i) == Done(v, i + |t|) && s[i] == t[0]
  {
    AtFirst(s, i, t);
    AtSlice(s, i, t);
    assert LiteralAt(s, i, TRUE) ==> s[i] == TRUE[0] by { if LiteralAt(s, i, TRUE) { assert s[i..i + 4][0] == s[i]; } }
    assert LiteralAt(s, i, FALSE) ==> s[i] == FALSE[0] by {
      if LiteralAt(s, i, FALSE) { assert s[i..i + 5][0] == s[i]; }
    }
  }

  lemma IntBack(read: NumberReader, s: bytes, i: nat, n: int)
    requires ReadsIntegers(read) && -MAX_EXACT <= n <= MAX_EXACT && At(s, i, Decimal(n)) && Ends(s, i + |Decimal(n)|)
    ensures ScalarAt(read, s, i) == Done(Int(n), i + |Decimal(n)|)
  {
    DecimalIsInteger(n);
    DecimalSpells(n);
    DecimalLength(n);
    AtFirst(s, i, Decimal(n));
    IntegerBack(read, s, i, Decimal(n), Int(n));
  }

  /** The text of a value without parts is read back, as long as no number runs on after it. */
  lemma ScalarBack(show: Shower, read: NumberReader, s: bytes, i: nat, v: Value)
    requires ReadsIntegers(read) && StorableScalar(v) && At(s, i, ScalarText(show, v))
    requires Ends(s, i + |ScalarText(show, v)|)
    ensures ScalarAt(read, s, i) == Done(v, i + |ScalarText(show, v)|)
  {
    match v
    case Null => WordBack(s, i, v, NULL);
    case Bool(b) => WordBack(s, i, v, if b then TRUE else FALSE);
    case Int(n) => IntBack(read, s, i, n);
    case Str(b) =>
      AtFirst(s, i, Quoted(b));
      QuotedBack(s, i, b);
      CTextWhole(b);
  }

  lemma KeyBack(s: bytes, i: nat, key: bytes)
    requires StorableKey(key) && At(s, i, Quoted(key))
    ensures KeyAt(s, i) == Done(key, i + |Quoted(key)|) && s[i] == QUOTE
  {
    AtFirst(s, i, Quoted(key));
    QuotedBack(s, i, key);
    CTextWhole(key);
  }
}
