/** Dict values, and how include/dict.h prints and reads those without parts. */
module Json {
  import opened Ascii
  import opened Prelude

  /** A dict value.  Strings and keys are C strings.  A double is its bit pattern: printing and reading one
      is left to the C library. */
  datatype Value =
    | Null
    | Bool(b: bool)
    | Number(bits: nat)
    | Int(n: int)
    | Str(s: bytes)
    | Arr(items: seq<Value>)
    | Obj(pairs: seq<Pair>)

  datatype Pair = Pair(key: bytes, value: Value)

  const MAX_KEY_LEN: nat := 65536
  const MAX_VALUE_LEN: nat := 20000000

  const QUOTE: byte := 34
  const COMMA: byte := 44
  const MINUS: byte := 45
  const COLON: byte := 58
  const OPEN_BRACKET: byte := 91
  const BACKSLASH: byte := 92
  const CLOSE_BRACKET: byte := 93
  const OPEN_BRACE: byte := 123
  const CLOSE_BRACE: byte := 125

  const TRUE: bytes := [116, 114, 117, 101]
  const FALSE: bytes := [102, 97, 108, 115, 101]
  const NULL: bytes := [110, 117, 108, 108]

  // ---- Printing ----

  /** A lower-case hex digit. */
  function Hex(d: nat): byte
    requires d < 16
  {
    if d < 10 then (48 + d) as byte else (87 + d) as byte
  }

  function EscapeByte(c: byte): (t: bytes)
    ensures t != []
  {
    if c == QUOTE || c == BACKSLASH then [BACKSLASH, c]
    else if c == 8 then [BACKSLASH, 98]
    else if c == 12 then [BACKSLASH, 102]
    else if c == 10 then [BACKSLASH, 110]
    else if c == 13 then [BACKSLASH, 114]
    else if c == 9 then [BACKSLASH, 116]
    else if c < 32 then [BACKSLASH, 117, 48, 48, Hex(c as nat / 16), Hex(c as nat % 16)]
    else [c]
  }

  function Escape(s: bytes): bytes {
    if s == [] then [] else EscapeByte(s[0]) + Escape(s[1..])
  }

  function Quoted(s: bytes): bytes {
    [QUOTE] + (Escape(s) + [QUOTE])
  }

  function Decimal(n: int): bytes {
    if n < 0 then [MINUS] + Digits(-n) else Digits(n)
  }

  function Spaces(n: nat): (t: bytes)
    ensures |t| == n && forall k :: 0 <= k < n ==> t[k] == SPACE
  {
    seq(n, _ => SPACE)
  }

  type Shower = nat -> bytes

  /** The text of a value without parts. */
  function ScalarText(show: Shower, v: Value): bytes {
    match v
    case Null => NULL
    case Bool(b) => if b then TRUE else FALSE
    case Number(bits) => show(bits)
    case Int(n) => Decimal(n)
    case Str(s) => Quoted(s)
    case _ => []
  }

  // ---- Parsing ----

  /** What a parser function finds at a position, and where it stops. */
  datatype Parsed<T> = Fail | Done(value: T, next: nat)

  predicate IsSpace(c: byte) {
    c == 32 || c == 9 || c == 10 || c == 13
  }

  function SkipSpace(s: bytes, i: nat): (n: nat)
    requires i <= |s|
    ensures i <= n <= |s|
    decreases |s| - i
  {
    if i == |s| || !IsSpace(s[i]) then i else SkipSpace(s, i + 1)
  }

  predicate Sees(s: bytes, i: nat, c: byte) {
    i < |s| && s[i] == c
  }

  /** The four hex digits of a unicode escape. */
  function Hex4(s: bytes, i: nat): (r: Option<nat>)
    ensures r.Some? ==> i + 4 <= |s| && r.value < 65536
  {
    if i + 4 > |s| then None
    else
      var a, b, c, d := HexDigit(s[i]), HexDigit(s[i + 1]), HexDigit(s[i + 2]), HexDigit(s[i + 3]);
      if a == 16 || b == 16 || c == 16 || d == 16 then None else Some(((a * 16 + b) * 16 + c) * 16 + d)
  }

  /** UTF-8 in one, two or three bytes; surrogates are not paired. */
  function Utf8(cp: nat): bytes
    requires cp < 65536
  {
    if cp <= 0x7F then [cp as byte]
    else if cp <= 0x7FF then [(0xC0 + cp / 64) as byte, (0x80 + cp % 64) as byte]
    else [(0xE0 + cp / 4096) as byte, (0x80 + cp / 64 % 64) as byte, (0x80 + cp % 64) as byte]
  }

  /** What follows a backslash. */
  function EscapeAt(s: bytes, i: nat): (r: Parsed<bytes>)
    ensures r.Done? ==> i < r.next <= |s|
  {
    if i >= |s| then Fail
    else
      var e := s[i];
      if e == QUOTE || e == BACKSLASH || e == 47 then Done([e], i + 1)
      else if e == 98 then Done([8], i + 1)
      else if e == 102 then Done([12], i + 1)
      else if e == 110 then Done([10], i + 1)
      else if e == 114 then Done([13], i + 1)
      else if e == 116 then Done([9], i + 1)
      else if e == 117 then
        match Hex4(s, i + 1)
        case None => Fail
        case Some(cp) => Done(Utf8(cp), i + 5)
      else Fail
  }

  function Prepend(b: bytes, r: Parsed<bytes>): Parsed<bytes> {
    if r.Fail? then Fail else Done(b + r.value, r.next)
  }

  /** The characters of a string up to its closing quote. */
  function CharsAt(s: bytes, i: nat): (r: Parsed<bytes>)
    ensures r.Done? ==> i < r.next <= |s|
    decreases |s| - i
  {
    if i >= |s| then Fail
    else if s[i] == QUOTE then Done([], i + 1)
    else if s[i] == BACKSLASH then
      match EscapeAt(s, i + 1)
      case Fail => Fail
      case Done(b, next) => Prepend(b, CharsAt(s, next))
    else Prepend([s[i]], CharsAt(s, i + 1))
  }

  function StringAt(s: bytes, i: nat): (r: Parsed<bytes>)
    ensures r.Done? ==> i < r.next <= |s|
  {
    if Sees(s, i, QUOTE) then CharsAt(s, i + 1) else Fail
  }

  /** The C string in a buffer: up to the first zero byte. */
  function CText(b: bytes): (t: bytes)
    ensures |t| <= |b|
  {
    if b == [] || b[0] == 0 then [] else [b[0]] + CText(b[1..])
  }

  /** Digits, '.', 'e', 'E', '+' and '-'. */
  predicate IsNumberChar(c: byte) {
    IsDigit(c) || c == 46 || c == 101 || c == 69 || c == 43 || c == MINUS
  }

  function NumberEnd(s: bytes, i: nat): (n: nat)
    requires i <= |s|
    ensures i <= n <= |s|
    decreases |s| - i
  {
    if i == |s| || !IsNumberChar(s[i]) then i else NumberEnd(s, i + 1)
  }

  /** strtod on a whole token, and the choice of an integer when the double is one. */
  type NumberReader = bytes -> Option<Value>

  function NumberAt(read: NumberReader, s: bytes, i: nat): (r: Parsed<Value>)
    requires i < |s|
    ensures r.Done? ==> i < r.next <= |s|
  {
    var j := NumberEnd(s, if s[i] == MINUS then i + 1 else i);
    if j == i || j - i >= 128 then Fail
    else
      match read(s[i..j])
      case None => Fail
      case Some(v) => Done(v, j)
  }

  predicate LiteralAt(s: bytes, i: nat, lit: bytes) {
    i + |lit| <= |s| && s[i..i + |lit|] == lit
  }

  function StringValueAt(s: bytes, i: nat): (r: Parsed<Value>)
    ensures r.Done? ==> i < r.next <= |s|
  {
    match StringAt(s, i)
    case Fail => Fail
    case Done(b, next) => if |CText(b)| >= MAX_VALUE_LEN then Fail else Done(Str(CText(b)), next)
  }

  function WordAt(s: bytes, i: nat): (r: Parsed<Value>)
    ensures r.Done? ==> i < r.next <= |s|
  {
    if LiteralAt(s, i, TRUE) then Done(Bool(true), i + 4)
    else if LiteralAt(s, i, FALSE) then Done(Bool(false), i + 5)
    else if LiteralAt(s, i, NULL) then Done(Null, i + 4)
    else Fail
  }

  /** dict_parse_value at a byte that opens neither an object nor an array. */
  function ScalarAt(read: NumberReader, s: bytes, i: nat): (r: Parsed<Value>)
    ensures r.Done? ==> i < r.next <= |s|
  {
    if i >= |s| then Fail
    else if s[i] == QUOTE then StringValueAt(s, i)
    else if s[i] == MINUS || IsDigit(s[i]) then NumberAt(read, s, i)
    else WordAt(s, i)
  }

  /** A key is the C string of what stands between quotes. */
  function KeyAt(s: bytes, i: nat): (r: Parsed<bytes>)
    ensures r.Done? ==> i < r.next <= |s|
  {
    match StringAt(s, i)
    case Fail => Fail
    case Done(b, next) => Done(CText(b), next)
  }
}
