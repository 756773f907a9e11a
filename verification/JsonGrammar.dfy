/** JSON texts by the grammar of RFC 8259, with white space anywhere between tokens, strings written with any
    mixture of escapes, and numbers left to the C library: the parser gives each of them its meaning. */
module JsonGrammar {
  import opened Numerals
  import opened Prelude
  import opened Json
  import opened JsonScalars
  import opened JsonTree
  import opened JsonRoundTrip
  import opened Placement
  import CodePoints

  // ---- Strings (section 7) ----

  const ESCAPED := "\"\\/bfnrt"
  const CONTROLS: bytes := [0x22, 0x5C, 0x2F, 0x08, 0x0C, 0x0A, 0x0D, 0x09]

  /** A byte as it is, a two-character escape, or a unicode escape with its four hex digits. */
  datatype Piece = Plain(c: byte) | Short(k: nat) | Unicode(cp: nat, digits: bytes)

  ghost predicate GoodPiece(p: Piece) {
    match p
    case Plain(c) => c as char != '\"' && c as char != '\\'
    case Short(k) => k < 8
    case Unicode(cp, digits) => |digits| == 4 && Spells(digits, cp, 16)
  }

  function PieceText(p: Piece): bytes {
    match p
    case Plain(c) => [c]
    case Short(k) => Text("\\") + Text(if k < 8 then [ESCAPED[k]] else "")
    case Unicode(_, digits) => Text("\\u") + digits
  }

  function PieceMeaning(p: Piece): bytes {
    match p
    case Plain(c) => [c]
    case Short(k) => if k < 8 then [CONTROLS[k]] else []
    case Unicode(cp, _) => if cp < 0x10000 then CodePoints.Encode(cp) else []
  }

  function StringText(ps: seq<Piece>): bytes {
    [QUOTE] + (Flatten(PieceText, ps) + [QUOTE])
  }

  function StringMeaning(ps: seq<Piece>): bytes {
    Flatten(PieceMeaning, ps)
  }

  /** What is kept of it: a C string ends at its first zero byte. */
  function StringKept(ps: seq<Piece>): bytes {
    CText(StringMeaning(ps))
  }

  /** The tokens of the printer, of the parser and of the texts below are those of the grammar. */
  lemma Tokens()
    ensures [QUOTE] == Text("\"") && [BACKSLASH] == Text("\\") && [BACKSLASH, 117] == Text("\\u")
    ensures [MINUS] == Text("-")
    ensures [OPEN_BRACKET] == Text("[") && [CLOSE_BRACKET] == Text("]") && [COMMA] == Text(",")
    ensures [OPEN_BRACE] == Text("{") && [CLOSE_BRACE] == Text("}") && [COLON] == Text(":")
    ensures TRUE == Text("true") && FALSE == Text("false") && NULL == Text("null")
  {
  }

  lemma ShortRead(s: bytes, i: nat, k: nat)
    requires k < 8 && At(s, i, PieceText(Short(k)))
    ensures EscapeAt(s, i + 1) == Done([CONTROLS[k]], i + 2) && s[i] == BACKSLASH
  {
    Tokens();
    var t := PieceText(Short(k));
    assert Same(s, i, t, 0) && Same(s, i, t, 1);
    assert t[1] as int == ESCAPED[k] as int;
  }

  lemma {:induction false} FourDigits(t: bytes, cp: nat)
    requires |t| == 4 && Spells(t, cp, 16)
    ensures cp < 65536 && Hex4(t, 0) == Some(cp)
  {
    var t3, t2, t1 := t[..3], t[..3][..2], t[..3][..2][..1];
    assert Spells(t3, cp / 16, 16);
    assert Spells(t2, cp / 16 / 16, 16);
    assert Spells(t1, cp / 16 / 16 / 16, 16);
    DigitIs(t[3], cp % 16);
    DigitIs(t3[2], cp / 16 % 16);
    DigitIs(t2[1], cp / 16 / 16 % 16);
    DigitIs(t1[0], cp / 16 / 16 / 16 % 16);
  }

  lemma UnicodeRead(s: bytes, i: nat, cp: nat, digits: bytes)
    requires GoodPiece(Unicode(cp, digits)) && At(s, i, PieceText(Unicode(cp, digits)))
    ensures cp < 65536 && EscapeAt(s, i + 1) == Done(CodePoints.Encode(cp), i + 6) && s[i] == BACKSLASH
  {
    Tokens();
    var t := PieceText(Unicode(cp, digits));
    assert Same(s, i, t, 0) && Same(s, i, t, 1) && Same(s, i, t, 2) && Same(s, i, t, 3) && Same(s, i, t, 4);
    assert Same(s, i, t, 5);
    FourDigits(digits, cp);
  }

  lemma PieceRead(s: bytes, i: nat, p: Piece)
    requires GoodPiece(p) && At(s, i, PieceText(p))
    ensures CharsAt(s, i) == Prepend(PieceMeaning(p), CharsAt(s, i + |PieceText(p)|))
  {
    Tokens();
    AtFirst(s, i, PieceText(p));
    match p
    case Plain(c) =>
    case Short(k) => ShortRead(s, i, k);
    case Unicode(cp, digits) => UnicodeRead(s, i, cp, digits);
  }

  lemma FirstPieceAt(s: bytes, i: nat, p: Piece, rest: seq<Piece>)
    requires At(s, i, Flatten(PieceText, [p] + rest) + [QUOTE])
    ensures At(s, i, PieceText(p)) && At(s, i + |PieceText(p)|, Flatten(PieceText, rest) + [QUOTE])
    ensures |Flatten(PieceText, [p] + rest)| == |PieceText(p)| + |Flatten(PieceText, rest)|
    ensures StringMeaning([p] + rest) == PieceMeaning(p) + StringMeaning(rest)
  {
    FlattenCons(PieceText, p, rest);
    FlattenCons(PieceMeaning, p, rest);
    Reassociate(PieceText(p), Flatten(PieceText, rest), [QUOTE]);
    AtAppend(s, i, PieceText(p), Flatten(PieceText, rest) + [QUOTE]);
  }

  /** The pieces of a string are read as what they mean, up to the closing quote. */
  lemma {:induction false} CharsRead(s: bytes, i: nat, ps: seq<Piece>)
    requires (forall k :: 0 <= k < |ps| ==> GoodPiece(ps[k])) && At(s, i, Flatten(PieceText, ps) + [QUOTE])
    ensures CharsAt(s, i) == Done(StringMeaning(ps), i + |Flatten(PieceText, ps)| + 1)
    decreases |ps|
  {
    if ps == [] {
      assert Flatten(PieceText, ps) + [QUOTE] == [QUOTE];
      AtFirst(s, i, [QUOTE]);
    } else {
      var p, rest := ps[0], ps[1..];
      assert ps == [p] + rest;
      FirstPieceAt(s, i, p, rest);
      PieceRead(s, i, p);
      CharsRead(s, i + |PieceText(p)|, rest);
    }
  }

  ghost predicate GoodPieces(ps: seq<Piece>) {
    forall k :: 0 <= k < |ps| ==> GoodPiece(ps[k])
  }

  lemma StringRead(s: bytes, i: nat, ps: seq<Piece>)
    requires GoodPieces(ps) && At(s, i, StringText(ps))
    ensures StringAt(s, i) == Done(StringMeaning(ps), i + |StringText(ps)|) && Sees(s, i, QUOTE)
  {
    AtByte(s, i, QUOTE, Flatten(PieceText, ps) + [QUOTE]);
    CharsRead(s, i + 1, ps);
  }

  /** Four hex digits for a byte, in lower case. */
  function LowerHex(c: byte): bytes {
    Text("00") + [Numeral(c as nat / 16, 'a'), Numeral(c as nat % 16, 'a')]
  }

  /** How the printer writes a byte: the two-character escapes except for the slash, "\\u00" with lower-case
      digits for the other control characters, and every other byte as it is. */
  function PieceFor(c: byte): Piece {
    var k := IndexIn(CONTROLS, c, 0);
    if k < 8 && k != 2 then Short(k)
    else if c < 0x20 then Unicode(c as nat, LowerHex(c))
    else Plain(c)
  }

  function IndexIn(t: bytes, c: byte, i: nat): (k: nat)
    requires i <= |t|
    ensures i <= k <= |t| && (k < |t| ==> t[k] == c) && forall j :: i <= j < k ==> t[j] != c
    decreases |t| - i
  {
    if i == |t| || t[i] == c then i else IndexIn(t, c, i + 1)
  }

  function PiecesFor(b: bytes): (ps: seq<Piece>)
    ensures |ps| == |b|
  {
    seq(|b|, k requires 0 <= k < |b| => PieceFor(b[k]))
  }

  lemma ByteWritten(c: byte)
    ensures EscapeByte(c) == PieceText(PieceFor(c))
  {
    Tokens();
    assert CONTROLS[0] == QUOTE && CONTROLS[1] == BACKSLASH && CONTROLS[3] == 8 && CONTROLS[4] == 12;
    assert CONTROLS[5] == 10 && CONTROLS[6] == 13 && CONTROLS[7] == 9 && CONTROLS[2] == 47;
    assert ESCAPED[0] == '\"' && ESCAPED[1] == '\\' && ESCAPED[3] == 'b' && ESCAPED[4] == 'f' && ESCAPED[5] == 'n';
    assert ESCAPED[6] == 'r' && ESCAPED[7] == 't';
  }

  lemma TwoDigits(c: byte)
    requires c < 0x20
    ensures Spells(LowerHex(c), c as nat, 16)
  {
    var t := LowerHex(c);
    var t3, t2, t1 := t[..3], t[..3][..2], t[..3][..2][..1];
    assert Spells(t1, 0, 16);
    assert Spells(t2, 0, 16);
    assert c as nat / 16 % 16 == c as nat / 16;
    assert Spells(t3, c as nat / 16, 16);
  }

  /** The printer's strings are texts of the grammar, with the right meaning and no raw control characters. */
  lemma {:induction false} StringWritten(b: bytes)
    ensures Escape(b) == Flatten(PieceText, PiecesFor(b)) && StringMeaning(PiecesFor(b)) == b
    ensures forall k :: 0 <= k < |b| ==>
              GoodPiece(PiecesFor(b)[k]) && (PiecesFor(b)[k].Plain? ==> PiecesFor(b)[k].c >= 0x20)
  {
    EscapeIsPieces(b);
    forall k | 0 <= k < |b|
      ensures GoodPiece(PiecesFor(b)[k]) && (PiecesFor(b)[k].Plain? ==> PiecesFor(b)[k].c >= 0x20)
    {
      ByteMeant(b[k]);
    }
  }

  lemma {:induction false} EscapeIsPieces(b: bytes)
    ensures Escape(b) == Flatten(PieceText, PiecesFor(b)) && StringMeaning(PiecesFor(b)) == b
  {
    if b != [] {
      var rest := b[1..];
      assert PiecesFor(b) == [PieceFor(b[0])] + PiecesFor(rest);
      EscapeIsPieces(rest);
      ByteWritten(b[0]);
      ByteMeant(b[0]);
      FlattenCons(PieceText, PieceFor(b[0]), PiecesFor(rest));
      FlattenCons(PieceMeaning, PieceFor(b[0]), PiecesFor(rest));
    }
  }

  lemma ByteMeant(c: byte)
    ensures PieceMeaning(PieceFor(c)) == [c] && GoodPiece(PieceFor(c)) && (PieceFor(c).Plain? ==> c >= 0x20)
  {
    Tokens();
    assert CONTROLS[0] as char == '\"' && CONTROLS[1] as char == '\\';
    if c < 0x20 { TwoDigits(c); }
  }

  // ---- Values (sections 2 to 6) ----

  /** A text with its meaning: a word, a number token, a string, or a container whose parts have white space
      around them. */
  datatype Doc =
    | Word(v: Value)
    | NumberToken(token: bytes, v: Value)
    | Quote(ps: seq<Piece>)
    | List(gap: bytes, items: seq<Item>)
    | Dict(gap: bytes, members: seq<Member>)

  datatype Item = Item(before: bytes, doc: Doc, after: bytes)
  datatype Member = Member(before: bytes, key: seq<Piece>, mid: bytes, space: bytes, doc: Doc, after: bytes)

  /** Space, horizontal tab, line feed or carriage return. */
  ghost predicate White(t: bytes) {
    forall k :: 0 <= k < |t| ==>
      t[k] as char == ' ' || t[k] as char == '\t' || t[k] as char == '\n' || t[k] as char == '\r'
  }

  function Render(d: Doc): bytes
    decreases d, 0
  {
    match d
    case Word(v) => if v == Bool(true) then TRUE else if v == Bool(false) then FALSE else NULL
    case NumberToken(token, _) => token
    case Quote(ps) => StringText(ps)
    case List(gap, items) =>
      [OPEN_BRACKET] + (if items == [] then gap + [CLOSE_BRACKET] else Listing(ItemTexts(items), CLOSE_BRACKET))
    case Dict(gap, members) =>
      [OPEN_BRACE] + (if members == [] then gap + [CLOSE_BRACE] else Listing(MemberTexts(members), CLOSE_BRACE))
  }

  /** The texts with commas between them and a closing byte behind. */
  function Listing(texts: seq<bytes>, close: byte): bytes
    requires texts != []
  {
    (texts[0] + [Separator(|texts|, close)]) + (if |texts| == 1 then [] else Listing(texts[1..], close))
  }

  function Separator(left: nat, close: byte): byte {
    if left == 1 then close else COMMA
  }

  function ItemTexts(items: seq<Item>): (ts: seq<bytes>)
    ensures |ts| == |items| && forall k :: 0 <= k < |items| ==> ts[k] == ItemText(items[k])
    decreases items, 1
  {
    seq(|items|, k requires 0 <= k < |items| => ItemText(items[k]))
  }

  function ItemText(x: Item): bytes
    decreases x, 1
  {
    x.before + (Render(x.doc) + x.after)
  }

  function MemberTexts(members: seq<Member>): (ts: seq<bytes>)
    ensures |ts| == |members| && forall k :: 0 <= k < |members| ==> ts[k] == MemberText(members[k])
    decreases members, 1
  {
    seq(|members|, k requires 0 <= k < |members| => MemberText(members[k]))
  }

  function MemberText(x: Member): bytes
    decreases x, 1
  {
    x.before + ((StringText(x.key) + (x.mid + [COLON])) + (x.space + (Render(x.doc) + x.after)))
  }

  function Meaning(d: Doc): Value
    decreases d, 0
  {
    match d
    case Word(v) => v
    case NumberToken(_, v) => v
    case Quote(ps) => Str(StringKept(ps))
    case List(_, items) => Arr(ItemMeanings(items))
    case Dict(_, members) => Obj(Merged([], MemberMeanings(members)))
  }

  function ItemMeanings(items: seq<Item>): (vs: seq<Value>)
    ensures |vs| == |items| && forall k :: 0 <= k < |items| ==> vs[k] == ItemMeaning(items[k])
    decreases items, 1
  {
    seq(|items|, k requires 0 <= k < |items| => ItemMeaning(items[k]))
  }

  function ItemMeaning(x: Item): Value
    decreases x, 1
  {
    Meaning(x.doc)
  }

  function MemberMeanings(members: seq<Member>): (ps: seq<Pair>)
    ensures |ps| == |members| && forall k :: 0 <= k < |members| ==> ps[k] == MemberMeaning(members[k])
    decreases members, 1
  {
    seq(|members|, k requires 0 <= k < |members| => MemberMeaning(members[k]))
  }

  function MemberMeaning(x: Member): Pair
    decreases x, 1
  {
    Pair(StringKept(x.key), Meaning(x.doc))
  }

  /** An object's pairs with one more: a key that is there keeps its place and gets the new value. */
  function Put(pairs: seq<Pair>, p: Pair): (r: seq<Pair>) {
    if exists k :: 0 <= k < |pairs| && pairs[k].key == p.key then
      seq(|pairs|, k requires 0 <= k < |pairs| => if pairs[k].key == p.key then p else pairs[k])
    else pairs + [p]
  }

  function Merged(before: seq<Pair>, ps: seq<Pair>): seq<Pair>
    decreases |ps|
  {
    if ps == [] then before else Merged(Put(before, ps[0]), ps[1..])
  }

  predicate NumberByte(c: char) {
    '0' <= c <= '9' || c == '.' || c == 'e' || c == 'E' || c == '+' || c == '-'
  }

  /** A token that the C library reads as v. */
  ghost predicate GoodNumber(read: NumberReader, token: bytes, v: Value) {
    && 0 < |token| < 128 && (token[0] as char == '-' || '0' <= token[0] as char <= '9')
    && (forall k :: 0 < k < |token| ==> NumberByte(token[k] as char)) && read(token) == Some(v)
  }

  ghost predicate Good(read: NumberReader, d: Doc)
    decreases d, 0
  {
    match d
    case Word(v) => v == Null || v.Bool?
    case NumberToken(token, v) => GoodNumber(read, token, v)
    case Quote(ps) => GoodPieces(ps) && |StringKept(ps)| < 20000000
    case List(gap, items) => White(gap) && forall k :: 0 <= k < |items| ==> GoodItem(read, items[k])
    case Dict(gap, members) => White(gap) && forall k :: 0 <= k < |members| ==> GoodMember(read, members[k])
  }

  ghost predicate GoodItem(read: NumberReader, x: Item)
    decreases x, 0
  {
    White(x.before) && Good(read, x.doc) && White(x.after)
  }

  ghost predicate GoodMember(read: NumberReader, x: Member)
    decreases x, 0
  {
    && White(x.before) && White(x.mid) && White(x.space) && White(x.after) && Good(read, x.doc)
    && GoodPieces(x.key) && 0 < |StringKept(x.key)| < 65536
  }

  // ---- Reading ----

  /** White space before a byte that is none. */
  lemma Skipped(s: bytes, i: nat, space: bytes, rest: bytes)
    requires White(space) && At(s, i, space + rest) && rest != [] && !IsSpace(rest[0])
    ensures SkipSpace(s, i) == i + |space| < |s| && s[i + |space|] == rest[0] && At(s, i + |space|, rest)
  {
    AtAppend(s, i, space, rest);
    AtFirst(s, i + |space|, rest);
    forall k | i <= k < i + |space| ensures IsSpace(s[k]) { assert Same(s, i, space, k - i); }
    SkipSpaceIs(s, i, i + |space|);
  }

  /** What follows a value: white space and a comma or closing bracket. */
  lemma AfterValue(s: bytes, j: nat, after: bytes, rest: bytes)
    requires White(after) && At(s, j, after + rest)
    requires rest != [] && (rest[0] == COMMA || rest[0] == CLOSE_BRACKET || rest[0] == CLOSE_BRACE)
    ensures Ends(s, j) && Sees(s, SkipSpace(s, j), rest[0]) && SkipSpace(s, j) == j + |after|
    ensures At(s, j + |after|, rest)
  {
    Skipped(s, j, after, rest);
    AtFirst(s, j, after + rest);
  }

  lemma RenderBegins(read: NumberReader, d: Doc)
    requires Good(read, d)
    ensures Render(d) != [] && BeginsValue(Render(d)[0])
  {
  }

  lemma NumberRead(read: NumberReader, s: bytes, i: nat, token: bytes, v: Value)
    requires GoodNumber(read, token, v) && At(s, i, token) && Ends(s, i + |token|)
    ensures ScalarAt(read, s, i) == Done(v, i + |token|)
  {
    AtFirst(s, i, token);
    forall k | i < k < i + |token| ensures IsNumberChar(s[k]) { assert Same(s, i, token, k - i); }
    AtSlice(s, i, token);
    NumberEndIs(s, i, i + |token|);
    NumberEndIs(s, i + 1, i + |token|);
  }

  predicate IsScalar(d: Doc) {
    d.Word? || d.NumberToken? || d.Quote?
  }

  lemma ScalarRead(read: NumberReader, s: bytes, i: nat, d: Doc)
    requires IsScalar(d) && Good(read, d) && At(s, i, Render(d)) && Ends(s, i + |Render(d)|)
    ensures ScalarAt(read, s, i) == Done(Meaning(d), i + |Render(d)|)
  {
    match d
    case Word(v) => WordBack(s, i, v, Render(d));
    case NumberToken(token, v) => NumberRead(read, s, i, token, v);
    case Quote(ps) => StringRead(s, i, ps);
  }

  // What is asked of a reader of values without parts and of keys.

  ghost predicate ReadsScalarAt(read: NumberReader, rd: Reader, s: bytes, i: nat, d: Doc) {
    IsScalar(d) && Good(read, d) && At(s, i, Render(d)) && Ends(s, i + |Render(d)|) ==>
      rd.scalar(s, i) == Done(Meaning(d), i + |Render(d)|)
  }

  ghost predicate ReadsKeyAt(rd: Reader, s: bytes, i: nat, ps: seq<Piece>) {
    GoodPieces(ps) && At(s, i, StringText(ps)) ==> rd.key(s, i) == Done(StringKept(ps), i + |StringText(ps)|)
  }

  ghost predicate ReadsKeys(rd: Reader) {
    forall s: bytes, i: nat, ps: seq<Piece> :: ReadsKeyAt(rd, s, i, ps)
  }

  ghost predicate ReadsDocs(read: NumberReader, rd: Reader) {
    ReadsKeys(rd) && forall s: bytes, i: nat, d: Doc :: ReadsScalarAt(read, rd, s, i, d)
  }

  lemma JsonReadsDocs(read: NumberReader)
    ensures ReadsDocs(read, JsonReader(read))
  {
    var rd := JsonReader(read);
    forall s: bytes, i: nat, d: Doc ensures ReadsScalarAt(read, rd, s, i, d) {
      if IsScalar(d) && Good(read, d) && At(s, i, Render(d)) && Ends(s, i + |Render(d)|) { ScalarRead(read, s, i, d); }
    }
    forall s: bytes, i: nat, ps: seq<Piece> ensures ReadsKeyAt(rd, s, i, ps) {
      if GoodPieces(ps) && At(s, i, StringText(ps)) { StringRead(s, i, ps); }
    }
  }

  lemma ScalarValueRead(read: NumberReader, rd: Reader, s: bytes, i: nat, d: Doc)
    requires ReadsDocs(read, rd) && IsScalar(d) && Good(read, d) && At(s, i, Render(d)) && Ends(s, i + |Render(d)|)
    ensures ValueAt(rd, s, i) == Done(Meaning(d), i + |Render(d)|)
  {
    assert ReadsScalarAt(read, rd, s, i, d);
    AtFirst(s, i, Render(d));
    RenderBegins(read, d);
    assert Begins(Render(d)[0]);
    NoSpace(s, i);
  }

  // ---- Lists ----

  /** Where the k-th text of a listing at i stands. */
  function Offset(texts: seq<bytes>, i: nat, k: nat): nat
    requires k <= |texts|
  {
    if k == 0 then i else Offset(texts, i, k - 1) + |texts[k - 1]| + 1
  }

  lemma {:induction false} OffsetTail(texts: seq<bytes>, i: nat, k: nat)
    requires 0 < k <= |texts|
    ensures Offset(texts, i, k) == Offset(texts[1..], i + |texts[0]| + 1, k - 1)
  {
    if k > 1 { OffsetTail(texts, i, k - 1); }
  }

  /** Each text of a listing stands at its offset, with its separator. */
  lemma {:induction false} ListingAt(s: bytes, i: nat, texts: seq<bytes>, close: byte, k: nat)
    requires k < |texts| && At(s, i, Listing(texts, close))
    ensures At(s, Offset(texts, i, k), texts[k] + [Separator(|texts| - k, close)])
    ensures Offset(texts, i, |texts|) == i + |Listing(texts, close)|
    decreases |texts|
  {
    var first := texts[0] + [Separator(|texts|, close)];
    var rest := if |texts| == 1 then [] else Listing(texts[1..], close);
    AtAppend(s, i, first, rest);
    OffsetTail(texts, i, |texts|);
    if |texts| > 1 {
      ListingAt(s, i + |first|, texts[1..], close, if k == 0 then 0 else k - 1);
      if k > 0 { OffsetTail(texts, i, k); }
    }
  }

  /** White space, a text that is none, white space, and a separator. */
  lemma Parts(s: bytes, i: nat, before: bytes, text: bytes, after: bytes, c: byte)
    requires White(before) && White(after) && At(s, i, (before + (text + after)) + [c])
    requires text != [] && BeginsValue(text[0]) && (c == COMMA || c == CLOSE_BRACKET || c == CLOSE_BRACE)
    ensures var m := i + |before|; var j := m + |text|;
            && SkipSpace(s, i) == m < |s| && s[m] == text[0] && At(s, m, text) && Ends(s, j)
            && Sees(s, SkipSpace(s, j), c) && SkipSpace(s, j) == j + |after|
  {
    assert (before + (text + after)) + [c] == before + (text + (after + [c]));
    var m := i + |before|;
    assert (text + (after + [c]))[0] == text[0];
    Skipped(s, i, before, text + (after + [c]));
    AtAppend(s, m, text, after + [c]);
    AfterValue(s, m + |text|, after, [c]);
  }

  /** A value stands at i, and after it the separator c, before `next`. */
  ghost predicate ItemThere(rd: Reader, s: bytes, i: nat, v: Value, c: byte, next: nat) {
    i <= |s| && !Sees(s, SkipSpace(s, i), CLOSE_BRACKET) && ValueAt(rd, s, i).Done? && ValueAt(rd, s, i).value == v
    && var m := SkipSpace(s, ValueAt(rd, s, i).next); Sees(s, m, c) && next == m + 1
  }

  lemma {:induction false} ItemRead(read: NumberReader, rd: Reader, s: bytes, i: nat, x: Item, c: byte)
    requires ReadsDocs(read, rd) && GoodItem(read, x) && At(s, i, ItemText(x) + [c])
    requires c == COMMA || c == CLOSE_BRACKET
    ensures ItemThere(rd, s, i, ItemMeaning(x), c, i + |ItemText(x)| + 1)
    decreases x, 1
  {
    RenderBegins(read, x.doc);
    Parts(s, i, x.before, Render(x.doc), x.after, c);
    ValueRead(read, rd, s, i + |x.before|, x.doc);
    ValueSkip(rd, s, i);
  }

  /** The items stand at these places. */
  ghost predicate ItemsThere(rd: Reader, s: bytes, places: seq<nat>, vs: seq<Value>) {
    |places| == |vs| + 1 && forall k :: 0 <= k < |vs| ==>
      ItemThere(rd, s, places[k], vs[k], Separator(|vs| - k, CLOSE_BRACKET), places[k + 1])
  }

  lemma ItemsSkip(rd: Reader, s: bytes, i: nat)
    requires i <= |s|
    ensures ItemsAt(rd, s, SkipSpace(s, i)) == ItemsAt(rd, s, i)
  {
    ValueSkip(rd, s, i);
  }

  lemma OneItem(rd: Reader, s: bytes, i: nat, v: Value, next: nat)
    requires ItemThere(rd, s, i, v, CLOSE_BRACKET, next)
    ensures ItemsAt(rd, s, i) == Done([v], next)
  {
  }

  lemma ItemAndMore(rd: Reader, s: bytes, i: nat, v: Value, next: nat, vs: seq<Value>, end: nat)
    requires ItemThere(rd, s, i, v, COMMA, next) && next <= |s| && ItemsAt(rd, s, next) == Done(vs, end)
    ensures ItemsAt(rd, s, i) == Done([v] + vs, end)
  {
    ItemsSkip(rd, s, next);
  }

  lemma FromHere(vs: seq<Value>, k: nat)
    requires k < |vs|
    ensures vs[k..] == [vs[k]] + vs[k + 1..] && (k + 1 == |vs| ==> vs[k..] == [vs[k]])
  {
  }

  lemma {:induction false} ItemsParse(rd: Reader, s: bytes, places: seq<nat>, vs: seq<Value>, k: nat)
    requires k < |vs| && ItemsThere(rd, s, places, vs)
    ensures places[k] <= |s| && ItemsAt(rd, s, places[k]) == Done(vs[k..], places[|vs|])
    decreases |vs| - k
  {
    assert ItemThere(rd, s, places[k], vs[k], Separator(|vs| - k, CLOSE_BRACKET), places[k + 1]);
    if k + 1 == |vs| {
      OneItem(rd, s, places[k], vs[k], places[k + 1]);
    } else {
      ItemsParse(rd, s, places, vs, k + 1);
      ItemAndMore(rd, s, places[k], vs[k], places[k + 1], vs[k + 1..], places[|vs|]);
    }
    FromHere(vs, k);
  }

  function Places(texts: seq<bytes>, i: nat): (ps: seq<nat>)
    ensures |ps| == |texts| + 1 && forall k :: 0 <= k <= |texts| ==> ps[k] == Offset(texts, i, k)
  {
    seq(|texts| + 1, k requires 0 <= k <= |texts| => Offset(texts, i, k))
  }

  lemma {:induction false} ItemsRead(read: NumberReader, rd: Reader, s: bytes, i: nat, items: seq<Item>)
    requires ReadsDocs(read, rd) && items != [] && forall k :: 0 <= k < |items| ==> GoodItem(read, items[k])
    requires At(s, i, Listing(ItemTexts(items), CLOSE_BRACKET))
    ensures ItemsThere(rd, s, Places(ItemTexts(items), i), ItemMeanings(items))
    decreases items, 0
  {
    var texts, vs := ItemTexts(items), ItemMeanings(items);
    var places := Places(texts, i);
    forall k | 0 <= k < |vs|
      ensures ItemThere(rd, s, places[k], vs[k], Separator(|vs| - k, CLOSE_BRACKET), places[k + 1])
    {
      ListingAt(s, i, texts, CLOSE_BRACKET, k);
      ItemRead(read, rd, s, places[k], items[k], Separator(|vs| - k, CLOSE_BRACKET));
    }
  }

  lemma GapRead(s: bytes, i: nat, open: byte, gap: bytes, close: byte)
    requires White(gap) && At(s, i, [open] + (gap + [close])) && !IsSpace(open) && !IsSpace(close)
    ensures Sees(s, i, open) && SkipSpace(s, i) == i && Sees(s, SkipSpace(s, i + 1), close)
    ensures SkipSpace(s, i + 1) == i + 1 + |gap|
  {
    AtByte(s, i, open, gap + [close]);
    Skipped(s, i + 1, gap, [close]);
    NoSpace(s, i);
  }

  lemma {:induction false} ListRead(read: NumberReader, rd: Reader, s: bytes, i: nat, gap: bytes, items: seq<Item>)
    requires ReadsDocs(read, rd) && Good(read, List(gap, items)) && At(s, i, Render(List(gap, items)))
    ensures ValueAt(rd, s, i) == Done(Meaning(List(gap, items)), i + |Render(List(gap, items))|)
    decreases items, 1
  {
    if items == [] {
      GapRead(s, i, OPEN_BRACKET, gap, CLOSE_BRACKET);
      assert ItemMeanings(items) == [];
    } else {
      AtByte(s, i, OPEN_BRACKET, Listing(ItemTexts(items), CLOSE_BRACKET));
      ItemsRead(read, rd, s, i + 1, items);
      ItemsEnd(rd, s, i, ItemTexts(items), ItemMeanings(items));
    }
  }

  lemma ItemsEnd(rd: Reader, s: bytes, i: nat, texts: seq<bytes>, vs: seq<Value>)
    requires texts != [] && Sees(s, i, OPEN_BRACKET) && At(s, i + 1, Listing(texts, CLOSE_BRACKET))
    requires ItemsThere(rd, s, Places(texts, i + 1), vs) && |texts| == |vs|
    ensures ValueAt(rd, s, i) == Done(Arr(vs), i + 1 + |Listing(texts, CLOSE_BRACKET)|)
  {
    ListingAt(s, i + 1, texts, CLOSE_BRACKET, 0);
    ItemsClose(rd, s, i, Places(texts, i + 1), vs);
  }

  lemma ItemsClose(rd: Reader, s: bytes, i: nat, places: seq<nat>, vs: seq<Value>)
    requires Sees(s, i, OPEN_BRACKET) && vs != [] && ItemsThere(rd, s, places, vs) && places[0] == i + 1
    ensures ValueAt(rd, s, i) == Done(Arr(vs), places[|vs|])
  {
    assert ItemThere(rd, s, places[0], vs[0], Separator(|vs|, CLOSE_BRACKET), places[1]);
    ItemsParse(rd, s, places, vs, 0);
    assert vs[0..] == vs;
    ItemsSkip(rd, s, i + 1);
    ArrayIs(rd, s, i, vs, places[|vs|]);
  }

  lemma {:induction false} ValueRead(read: NumberReader, rd: Reader, s: bytes, i: nat, d: Doc)
    requires ReadsDocs(read, rd) && Good(read, d) && At(s, i, Render(d)) && Ends(s, i + |Render(d)|)
    ensures ValueAt(rd, s, i) == Done(Meaning(d), i + |Render(d)|)
    decreases d, 0
  {
    match d
    case List(gap, items) => ListRead(read, rd, s, i, gap, items);
    case Dict(gap, members) => DictRead(read, rd, s, i, gap, members);
    case _ => ScalarValueRead(read, rd, s, i, d);
  }

  // ---- Objects ----

  lemma PairRegrouped(before: bytes, key: bytes, mid: bytes, space: bytes, rest: bytes, c: byte)
    ensures (before + ((key + (mid + [COLON])) + (space + rest))) + [c]
         == before + (key + ((mid + [COLON]) + ((space + rest) + [c])))
  {
  }

  /** White space, a key and its colon, and a value with white space around it, and a separator. */
  lemma PairParts(s: bytes, i: nat, before: bytes, key: bytes, mid: bytes, space: bytes, text: bytes, after: bytes,
                  c: byte)
    requires At(s, i, (before + ((key + (mid + [COLON])) + (space + (text + after)))) + [c])
    requires White(before) && White(mid) && White(space) && White(after)
    requires key != [] && key[0] == QUOTE && text != [] && BeginsValue(text[0]) && (c == COMMA || c == CLOSE_BRACE)
    ensures var m := i + |before|; var k := m + |key|; var n := k + |mid| + 1; var j := n + |space| + |text|;
            && SkipSpace(s, i) == m < k && At(s, m, key) && Sees(s, SkipSpace(s, k), COLON) && SkipSpace(s, k) + 1 == n
            && SkipSpace(s, n) == n + |space| && At(s, n + |space|, text) && Ends(s, j)
            && Sees(s, SkipSpace(s, j), c) && SkipSpace(s, j) == j + |after|
  {
    var colon, value := mid + [COLON], (space + (text + after)) + [c];
    PairRegrouped(before, key, mid, space, text + after, c);
    var m, k := i + |before|, i + |before| + |key|;
    assert (key + (colon + value))[0] == QUOTE;
    Skipped(s, i, before, key + (colon + value));
    AtAppend(s, m, key, colon + value);
    Reassociate(mid, [COLON], value);
    Skipped(s, k, mid, [COLON] + value);
    AtByte(s, k + |mid|, COLON, value);
    Parts(s, k + |mid| + 1, space, text, after, c);
  }

  /** A pair stands at i, and after it the separator c, before `next`. */
  ghost predicate PairThere(rd: Reader, s: bytes, i: nat, p: Pair, c: byte, next: nat) {
    i <= |s| && !Sees(s, SkipSpace(s, i), CLOSE_BRACE) && PairAt(rd, s, i).Done? && PairAt(rd, s, i).value == p
    && var m := SkipSpace(s, PairAt(rd, s, i).next); Sees(s, m, c) && next == m + 1
  }

  lemma PairJoined(rd: Reader, s: bytes, i: nat, key: bytes, k: nat, v: Value, j: nat)
    requires i <= |s| && SkipSpace(s, i) < k <= |s| && rd.key(s, SkipSpace(s, i)) == Done(key, k)
    requires Sees(s, SkipSpace(s, k), COLON) && ValueAt(rd, s, SkipSpace(s, SkipSpace(s, k) + 1)) == Done(v, j)
    ensures PairAt(rd, s, i) == Done(Pair(key, v), j)
  {
    ValueSkip(rd, s, SkipSpace(s, k) + 1);
  }

  ghost predicate PairSpaces(before: bytes, key: bytes, mid: bytes, space: bytes, text: bytes, after: bytes, c: byte) {
    && White(before) && White(mid) && White(space) && White(after)
    && key != [] && key[0] == QUOTE && text != [] && BeginsValue(text[0]) && (c == COMMA || c == CLOSE_BRACE)
  }

  lemma PairPlaces(s: bytes, i: nat, before: bytes, key: bytes, mid: bytes, space: bytes, text: bytes, after: bytes,
                   c: byte)
    requires At(s, i, (before + ((key + (mid + [COLON])) + (space + (text + after)))) + [c])
    requires PairSpaces(before, key, mid, space, text, after, c)
    ensures var m := i + |before|; var n := m + |key| + |mid| + 1 + |space|;
            At(s, m, key) && At(s, n, text) && Ends(s, n + |text|)
  {
    PairParts(s, i, before, key, mid, space, text, after, c);
  }

  /** A pair is read when its key and its value are. */
  lemma PairTextRead(rd: Reader, s: bytes, i: nat, before: bytes, key: bytes, mid: bytes, space: bytes, text: bytes,
                     after: bytes, c: byte, name: bytes, v: Value)
    requires At(s, i, (before + ((key + (mid + [COLON])) + (space + (text + after)))) + [c])
    requires PairSpaces(before, key, mid, space, text, after, c)
    requires rd.key(s, i + |before|) == Done(name, i + |before| + |key|)
    requires var n := i + |before| + |key| + |mid| + 1 + |space|; n <= |s| && ValueAt(rd, s, n) == Done(v, n + |text|)
    ensures PairThere(rd, s, i, Pair(name, v), c, i + |before| + |key| + |mid| + 1 + |space| + |text| + |after| + 1)
  {
    var k, j := PairPieces(s, i, before, key, mid, space, text, after, c);
    PairJoined(rd, s, i, name, k, v, j);
    PairIsThere(rd, s, i, Pair(name, v), c, j);
  }

  lemma PairPieces(s: bytes, i: nat, before: bytes, key: bytes, mid: bytes, space: bytes, text: bytes, after: bytes,
                   c: byte) returns (k: nat, j: nat)
    requires At(s, i, (before + ((key + (mid + [COLON])) + (space + (text + after)))) + [c])
    requires PairSpaces(before, key, mid, space, text, after, c)
    ensures k == i + |before| + |key| <= |s| && j == k + |mid| + 1 + |space| + |text| <= |s|
    ensures i <= |s| && SkipSpace(s, i) == i + |before| < k && !Sees(s, SkipSpace(s, i), CLOSE_BRACE)
    ensures Sees(s, SkipSpace(s, k), COLON) && SkipSpace(s, SkipSpace(s, k) + 1) == k + |mid| + 1 + |space|
    ensures Sees(s, SkipSpace(s, j), c) && SkipSpace(s, j) == j + |after|
  {
    PairParts(s, i, before, key, mid, space, text, after, c);
    k := i + |before| + |key|;
    j := k + |mid| + 1 + |space| + |text|;
    AtFirst(s, i + |before|, key);
  }

  lemma PairIsThere(rd: Reader, s: bytes, i: nat, p: Pair, c: byte, j: nat)
    requires i <= |s| && !Sees(s, SkipSpace(s, i), CLOSE_BRACE) && PairAt(rd, s, i) == Done(p, j)
    requires Sees(s, SkipSpace(s, j), c)
    ensures PairThere(rd, s, i, p, c, SkipSpace(s, j) + 1)
  {
  }

  lemma MemberSpaces(read: NumberReader, x: Member, c: byte)
    requires GoodMember(read, x) && (c == COMMA || c == CLOSE_BRACE)
    ensures PairSpaces(x.before, StringText(x.key), x.mid, x.space, Render(x.doc), x.after, c)
    ensures Good(read, x.doc) && GoodPieces(x.key)
  {
    RenderBegins(read, x.doc);
  }

  /** Where the value of a pair at i stands. */
  function DocPlace(x: Member, i: nat): nat {
    i + |x.before| + |StringText(x.key)| + |x.mid| + 1 + |x.space|
  }

  lemma MemberPlaces(read: NumberReader, s: bytes, i: nat, x: Member, c: byte)
    requires GoodMember(read, x) && At(s, i, MemberText(x) + [c]) && (c == COMMA || c == CLOSE_BRACE)
    ensures At(s, i + |x.before|, StringText(x.key)) && GoodPieces(x.key) && Good(read, x.doc)
    ensures At(s, DocPlace(x, i), Render(x.doc)) && Ends(s, DocPlace(x, i) + |Render(x.doc)|)
  {
    MemberSpaces(read, x, c);
    PairPlaces(s, i, x.before, StringText(x.key), x.mid, x.space, Render(x.doc), x.after, c);
  }

  lemma MemberThere(read: NumberReader, rd: Reader, s: bytes, i: nat, x: Member, c: byte)
    requires GoodMember(read, x) && At(s, i, MemberText(x) + [c]) && (c == COMMA || c == CLOSE_BRACE)
    requires rd.key(s, i + |x.before|) == Done(StringKept(x.key), i + |x.before| + |StringText(x.key)|)
    requires DocPlace(x, i) <= |s|
             && ValueAt(rd, s, DocPlace(x, i)) == Done(Meaning(x.doc), DocPlace(x, i) + |Render(x.doc)|)
    ensures PairThere(rd, s, i, MemberMeaning(x), c, i + |MemberText(x)| + 1)
  {
    MemberSpaces(read, x, c);
    PairTextRead(rd, s, i, x.before, StringText(x.key), x.mid, x.space, Render(x.doc), x.after, c, StringKept(x.key),
                 Meaning(x.doc));
  }

  lemma {:induction false} MemberRead(read: NumberReader, rd: Reader, s: bytes, i: nat, x: Member, c: byte)
    requires ReadsDocs(read, rd) && GoodMember(read, x) && At(s, i, MemberText(x) + [c])
    requires c == COMMA || c == CLOSE_BRACE
    ensures PairThere(rd, s, i, MemberMeaning(x), c, i + |MemberText(x)| + 1)
    decreases x, 1
  {
    MemberPlaces(read, s, i, x, c);
    KeyRead(read, rd, s, i + |x.before|, x.key);
    ValueRead(read, rd, s, DocPlace(x, i), x.doc);
    MemberThere(read, rd, s, i, x, c);
  }

  lemma KeyRead(read: NumberReader, rd: Reader, s: bytes, i: nat, ps: seq<Piece>)
    requires ReadsDocs(read, rd) && GoodPieces(ps) && At(s, i, StringText(ps))
    ensures rd.key(s, i) == Done(StringKept(ps), i + |StringText(ps)|)
  {
    assert ReadsKeyAt(rd, s, i, ps);
  }

  ghost predicate PairsThere(rd: Reader, s: bytes, places: seq<nat>, ps: seq<Pair>) {
    |places| == |ps| + 1 && forall k :: 0 <= k < |ps| ==>
      PairThere(rd, s, places[k], ps[k], Separator(|ps| - k, CLOSE_BRACE), places[k + 1])
  }

  lemma OnePair(rd: Reader, s: bytes, i: nat, p: Pair, next: nat, before: seq<Pair>, ps: seq<Pair>)
    requires PairThere(rd, s, i, p, CLOSE_BRACE, next) && SetPair(before, p.key, p.value) == Some(ps)
    ensures PairsAt(rd, s, i, before) == Done(ps, next)
  {
  }

  lemma PairAndMore(rd: Reader, s: bytes, i: nat, p: Pair, next: nat, before: seq<Pair>, ps: seq<Pair>)
    requires PairThere(rd, s, i, p, COMMA, next) && next <= |s| && SetPair(before, p.key, p.value) == Some(ps)
    ensures PairsAt(rd, s, i, before) == PairsAt(rd, s, next, ps)
  {
  }

  lemma PutIsSet(pairs: seq<Pair>, p: Pair)
    requires DistinctKeys(pairs)
    ensures DistinctKeys(Put(pairs, p))
    ensures 0 < |p.key| < MAX_KEY_LEN ==> SetPair(pairs, p.key, p.value) == Some(Put(pairs, p))
  {
    var k, after := KeyIndex(pairs, p.key, 0), Put(pairs, p);
    if k < |pairs| {
      assert pairs[k].key == p.key;
      assert forall j :: 0 <= j < |pairs| && j != k ==> pairs[j].key != p.key;
      assert after == pairs[k := p];
    }
  }

  lemma {:induction false} PairsParse(rd: Reader, s: bytes, places: seq<nat>, ps: seq<Pair>, k: nat, before: seq<Pair>)
    requires k < |ps| && PairsThere(rd, s, places, ps) && DistinctKeys(before)
    requires forall j :: 0 <= j < |ps| ==> 0 < |ps[j].key| < MAX_KEY_LEN
    ensures places[k] <= |s| && PairsAt(rd, s, places[k], before) == Done(Merged(before, ps[k..]), places[|ps|])
    decreases |ps| - k
  {
    assert PairThere(rd, s, places[k], ps[k], Separator(|ps| - k, CLOSE_BRACE), places[k + 1]);
    var after := Put(before, ps[k]);
    PutIsSet(before, ps[k]);
    assert ps[k..][1..] == ps[k + 1..];
    if k + 1 == |ps| {
      OnePair(rd, s, places[k], ps[k], places[k + 1], before, after);
    } else {
      PairsParse(rd, s, places, ps, k + 1, after);
      PairAndMore(rd, s, places[k], ps[k], places[k + 1], before, after);
    }
  }

  lemma {:induction false} MembersRead(read: NumberReader, rd: Reader, s: bytes, i: nat, members: seq<Member>)
    requires ReadsDocs(read, rd) && members != [] && forall k :: 0 <= k < |members| ==> GoodMember(read, members[k])
    requires At(s, i, Listing(MemberTexts(members), CLOSE_BRACE))
    ensures PairsThere(rd, s, Places(MemberTexts(members), i), MemberMeanings(members))
    decreases members, 0
  {
    var texts, ps := MemberTexts(members), MemberMeanings(members);
    var places := Places(texts, i);
    forall k | 0 <= k < |ps|
      ensures PairThere(rd, s, places[k], ps[k], Separator(|ps| - k, CLOSE_BRACE), places[k + 1])
    {
      ListingAt(s, i, texts, CLOSE_BRACE, k);
      MemberRead(read, rd, s, places[k], members[k], Separator(|ps| - k, CLOSE_BRACE));
    }
  }

  lemma {:induction false} DictRead(read: NumberReader, rd: Reader, s: bytes, i: nat, gap: bytes, members: seq<Member>)
    requires ReadsDocs(read, rd) && Good(read, Dict(gap, members)) && At(s, i, Render(Dict(gap, members)))
    ensures ValueAt(rd, s, i) == Done(Meaning(Dict(gap, members)), i + |Render(Dict(gap, members))|)
    decreases members, 1
  {
    if members == [] {
      GapRead(s, i, OPEN_BRACE, gap, CLOSE_BRACE);
      assert MemberMeanings(members) == [];
    } else {
      AtByte(s, i, OPEN_BRACE, Listing(MemberTexts(members), CLOSE_BRACE));
      MembersRead(read, rd, s, i + 1, members);
      DictEnds(read, rd, s, i, members);
    }
  }

  lemma KeysFit(read: NumberReader, members: seq<Member>)
    requires forall k :: 0 <= k < |members| ==> GoodMember(read, members[k])
    ensures forall k :: 0 <= k < |members| ==> 0 < |MemberMeanings(members)[k].key| < MAX_KEY_LEN
  {
    forall k | 0 <= k < |members| ensures 0 < |MemberMeanings(members)[k].key| < MAX_KEY_LEN {
      assert GoodMember(read, members[k]) && MemberMeanings(members)[k] == MemberMeaning(members[k]);
    }
  }

  lemma DictEnds(read: NumberReader, rd: Reader, s: bytes, i: nat, members: seq<Member>)
    requires members != [] && (forall k :: 0 <= k < |members| ==> GoodMember(read, members[k]))
    requires Sees(s, i, OPEN_BRACE) && At(s, i + 1, Listing(MemberTexts(members), CLOSE_BRACE))
    requires PairsThere(rd, s, Places(MemberTexts(members), i + 1), MemberMeanings(members))
    ensures ValueAt(rd, s, i)
         == Done(Obj(Merged([], MemberMeanings(members))), i + 1 + |Listing(MemberTexts(members), CLOSE_BRACE)|)
  {
    KeysFit(read, members);
    PairsEnd(rd, s, i, MemberTexts(members), MemberMeanings(members));
  }

  lemma PairsEnd(rd: Reader, s: bytes, i: nat, texts: seq<bytes>, ps: seq<Pair>)
    requires texts != [] && Sees(s, i, OPEN_BRACE) && At(s, i + 1, Listing(texts, CLOSE_BRACE))
    requires PairsThere(rd, s, Places(texts, i + 1), ps) && |texts| == |ps|
    requires forall k :: 0 <= k < |ps| ==> 0 < |ps[k].key| < MAX_KEY_LEN
    ensures ValueAt(rd, s, i) == Done(Obj(Merged([], ps)), i + 1 + |Listing(texts, CLOSE_BRACE)|)
  {
    ListingAt(s, i + 1, texts, CLOSE_BRACE, 0);
    PairsClose(rd, s, i, Places(texts, i + 1), ps);
  }

  lemma PairsClose(rd: Reader, s: bytes, i: nat, places: seq<nat>, ps: seq<Pair>)
    requires Sees(s, i, OPEN_BRACE) && ps != [] && PairsThere(rd, s, places, ps) && places[0] == i + 1
    requires forall k :: 0 <= k < |ps| ==> 0 < |ps[k].key| < MAX_KEY_LEN
    ensures ValueAt(rd, s, i) == Done(Obj(Merged([], ps)), places[|ps|])
  {
    assert PairThere(rd, s, places[0], ps[0], Separator(|ps|, CLOSE_BRACE), places[1]);
    PairsParse(rd, s, places, ps, 0, []);
    assert ps[0..] == ps;
    PairsSkip(rd, s, i + 1, []);
    ObjectIs(rd, s, i, Merged([], ps), places[|ps|]);
  }

  // ---- Texts (section 2) ----

  /** A value with white space around it is deserialized to its meaning, and to nothing when anything else
      follows; an empty text is an empty object. */
  lemma TextRead(read: NumberReader, before: bytes, d: Doc, after: bytes)
    requires Good(read, d) && White(before) && White(after)
    ensures Deserialize(read, before + (Render(d) + after)) == Some(Meaning(d))
    ensures Deserialize(read, []) == Some(Obj([]))
  {
    TextThen(read, before, d, after, []);
    assert after + [] == after;
  }

  lemma TrailingTextRefused(read: NumberReader, before: bytes, d: Doc, after: bytes, rest: bytes)
    requires Good(read, d) && White(before) && White(after) && rest != [] && !IsSpace(rest[0])
    requires after == [] ==> !IsNumberChar(rest[0])
    ensures Deserialize(read, before + (Render(d) + (after + rest))) == None
  {
    TextThen(read, before, d, after, rest);
  }

  lemma TextParts(before: bytes, text: bytes, after: bytes, rest: bytes)
    requires White(before) && White(after) && text != [] && BeginsValue(text[0]) && (rest != [] ==> !IsSpace(rest[0]))
    requires after == [] && rest != [] ==> !IsNumberChar(rest[0])
    ensures var s := before + (text + (after + rest)); var m := |before|; var j := m + |text|;
            && SkipSpace(s, 0) == m && At(s, m, text) && Ends(s, j) && SkipSpace(s, j) == j + |after|
            && (j + |after| == |s| <==> rest == [])
  {
    var s := before + (text + (after + rest));
    var m := |before|;
    var j := m + |text|;
    assert s[0..0 + |s|] == s;
    SliceAt(s, 0, s);
    assert (text + (after + rest))[0] == text[0];
    Skipped(s, 0, before, text + (after + rest));
    AtAppend(s, m, text, after + rest);
    AtAppend(s, j, after, rest);
    if after + rest != [] { AtFirst(s, j, after + rest); }
    if rest != [] { AtFirst(s, j + |after|, rest); }
    forall k | j <= k < j + |after| ensures IsSpace(s[k]) { assert Same(s, j, after, k - j); }
    SkipSpaceIs(s, j, j + |after|);
  }

  lemma TextThen(read: NumberReader, before: bytes, d: Doc, after: bytes, rest: bytes)
    requires Good(read, d) && White(before) && White(after) && (rest != [] ==> !IsSpace(rest[0]))
    requires after == [] && rest != [] ==> !IsNumberChar(rest[0])
    ensures Deserialize(read, before + (Render(d) + (after + rest))) == if rest == [] then Some(Meaning(d)) else None
  {
    var s := before + (Render(d) + (after + rest));
    RenderBegins(read, d);
    TextParts(before, Render(d), after, rest);
    JsonReadsDocs(read);
    ValueRead(read, JsonReader(read), s, |before|, d);
    ValueSkip(JsonReader(read), s, 0);
  }
}
