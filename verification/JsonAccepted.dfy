/** The parser of include/dict.h accepts no other texts than those of JsonGrammar, and gives each its meaning. */
module JsonAccepted {
  import opened Ascii
  import opened Numerals
  import opened Prelude
  import opened Json
  import opened JsonTree
  import opened JsonRoundTrip
  import opened JsonGrammar
  import opened DictObject

  // ---- Pieces of a text ----

  /** The text t stands in s from i to j. */
  ghost predicate Spans(s: bytes, i: nat, j: nat, t: bytes) {
    i <= j <= |s| && s[i..j] == t
  }

  lemma SpansMore(s: bytes, i: nat, j: nat, n: nat, a: bytes, b: bytes)
    requires Spans(s, i, j, a) && Spans(s, j, n, b)
    ensures Spans(s, i, n, a + b)
  {
    assert s[i..n] == s[i..j] + s[j..n];
  }

  lemma SpansByte(s: bytes, i: nat, c: byte)
    requires Sees(s, i, c)
    ensures Spans(s, i, i + 1, [c])
  {
  }

  lemma {:induction false} SpaceRun(s: bytes, i: nat)
    requires i <= |s|
    ensures White(s[i..SkipSpace(s, i)]) && Spans(s, i, SkipSpace(s, i), s[i..SkipSpace(s, i)])
    decreases |s| - i
  {
    var n := SkipSpace(s, i);
    if i < n {
      SpaceRun(s, i + 1);
      var t := s[i + 1..n];
      assert s[i..n] == [s[i]] + t;
      forall k | 0 <= k < n - i ensures IsSpace(s[i..n][k]) { assert k > 0 ==> s[i..n][k] == t[k - 1]; }
    }
  }

  // ---- Strings ----

  /** The value of hex digits, most significant first. */
  function HexValue(t: bytes): nat {
    if t == [] then 0 else HexValue(t[..|t| - 1]) * 16 + HexDigit(t[|t| - 1])
  }

  lemma {:induction false} HexValueSpelled(t: bytes)
    requires t != [] && forall k :: 0 <= k < |t| ==> HexDigit(t[k]) < 16
    ensures Spells(t, HexValue(t), 16)
  {
    var n := |t| - 1;
    IsDigitFor(t[n]);
    if n > 0 {
      HexValueSpelled(t[..n]);
      SpellsMore(t[..n], HexValue(t[..n]), t[n], HexDigit(t[n]), 16);
      assert t == t[..n] + [t[n]];
    }
  }

  lemma FourDigitValue(t: bytes)
    requires |t| == 4
    ensures HexValue(t) == ((HexDigit(t[0]) * 16 + HexDigit(t[1])) * 16 + HexDigit(t[2])) * 16 + HexDigit(t[3])
  {
    var t3, t2, t1 := t[..3], t[..3][..2], t[..3][..2][..1];
    assert t1[..0] == [] && HexValue(t1) == HexDigit(t[0]);
    assert HexValue(t2) == HexValue(t1) * 16 + HexDigit(t[1]) && HexValue(t3) == HexValue(t2) * 16 + HexDigit(t[2]);
  }

  lemma Hex4Shown(s: bytes, i: nat)
    requires Hex4(s, i).Some?
    ensures i + 4 <= |s| && Spells(s[i..i + 4], Hex4(s, i).value, 16)
  {
    FourDigitValue(s[i..i + 4]);
    HexValueSpelled(s[i..i + 4]);
  }

  /** The piece at i. */
  function PieceAt(s: bytes, i: nat): Piece
    requires i < |s|
  {
    if s[i] != BACKSLASH || i + 1 == |s| then Plain(s[i])
    else if s[i + 1] == 117 && i + 6 <= |s| && Hex4(s, i + 2).Some? then Unicode(Hex4(s, i + 2).value, s[i + 2..i + 6])
    else Short(IndexIn(Text(ESCAPED), s[i + 1], 0))
  }

  lemma ShortShown(s: bytes, i: nat)
    requires Sees(s, i, BACKSLASH) && EscapeAt(s, i + 1).Done? && s[i + 1] != 117
    ensures var k := IndexIn(Text(ESCAPED), s[i + 1], 0);
            k < 8 && EscapeAt(s, i + 1) == Done([CONTROLS[k]], i + 2) && Spans(s, i, i + 2, PieceText(Short(k)))
  {
    Tokens();
    var e := Text(ESCAPED);
    assert e[0] == QUOTE && e[1] == BACKSLASH && e[2] == 47 && e[3] == 98 && e[4] == 102 && e[5] == 110;
    assert e[6] == 114 && e[7] == 116;
    var k := IndexIn(e, s[i + 1], 0);
    assert Text([ESCAPED[k]]) == [s[i + 1]];
  }

  lemma EscapeShown(s: bytes, i: nat)
    requires Sees(s, i, BACKSLASH) && EscapeAt(s, i + 1).Done?
    ensures var p := PieceAt(s, i); var r := EscapeAt(s, i + 1);
            GoodPiece(p) && PieceMeaning(p) == r.value && Spans(s, i, r.next, PieceText(p))
  {
    if s[i + 1] == 117 {
      Tokens();
      Hex4Shown(s, i + 2);
    } else {
      ShortShown(s, i);
    }
  }

  /** The pieces from i on, up to the closing quote. */
  lemma {:induction false} CharsShown(s: bytes, i: nat) returns (ps: seq<Piece>)
    requires CharsAt(s, i).Done?
    ensures GoodPieces(ps) && StringMeaning(ps) == CharsAt(s, i).value
    ensures Spans(s, i, CharsAt(s, i).next, Flatten(PieceText, ps) + [QUOTE])
    decreases |s| - i
  {
    if s[i] == QUOTE {
      ps := [];
      assert Flatten(PieceText, ps) + [QUOTE] == [QUOTE];
      SpansByte(s, i, QUOTE);
    } else {
      var p := PieceAt(s, i);
      var j := if s[i] == BACKSLASH then EscapeAt(s, i + 1).next else i + 1;
      if s[i] == BACKSLASH { EscapeShown(s, i); } else { SpansByte(s, i, s[i]); }
      var rest := CharsShown(s, j);
      ps := [p] + rest;
      FlattenCons(PieceText, p, rest);
      FlattenCons(PieceMeaning, p, rest);
      Reassociate(PieceText(p), Flatten(PieceText, rest), [QUOTE]);
      SpansMore(s, i, j, CharsAt(s, i).next, PieceText(p), Flatten(PieceText, rest) + [QUOTE]);
    }
  }

  lemma StringShown(s: bytes, i: nat) returns (ps: seq<Piece>)
    requires StringAt(s, i).Done?
    ensures GoodPieces(ps) && StringMeaning(ps) == StringAt(s, i).value
    ensures Spans(s, i, StringAt(s, i).next, StringText(ps))
  {
    ps := CharsShown(s, i + 1);
    SpansByte(s, i, QUOTE);
    SpansMore(s, i, i + 1, StringAt(s, i).next, [QUOTE], Flatten(PieceText, ps) + [QUOTE]);
  }

  // ---- Values without parts ----

  lemma {:induction false} NumberRun(s: bytes, i: nat)
    requires i <= |s|
    ensures forall k :: i <= k < NumberEnd(s, i) ==> NumberByte(s[k] as char)
    decreases |s| - i
  {
    if i < NumberEnd(s, i) { NumberRun(s, i + 1); }
  }

  /** A text from i to n that means v. */
  ghost predicate Shows(read: NumberReader, s: bytes, i: nat, n: nat, v: Value, d: Doc) {
    Good(read, d) && Meaning(d) == v && Spans(s, i, n, Render(d))
  }

  lemma NumberShown(read: NumberReader, s: bytes, i: nat)
    requires i < |s| && (s[i] == MINUS || IsDigit(s[i])) && NumberAt(read, s, i).Done?
    ensures var r := NumberAt(read, s, i); Shows(read, s, i, r.next, r.value, NumberToken(s[i..r.next], r.value))
  {
    var r := NumberAt(read, s, i);
    NumberRun(s, if s[i] == MINUS then i + 1 else i);
    assert forall k :: 0 < k < r.next - i ==> s[i..r.next][k] == s[i + k];
  }

  lemma ScalarShown(read: NumberReader, s: bytes, i: nat) returns (d: Doc)
    requires ScalarAt(read, s, i).Done?
    ensures var r := ScalarAt(read, s, i); Shows(read, s, i, r.next, r.value, d)
  {
    var r := ScalarAt(read, s, i);
    if s[i] == QUOTE {
      var ps := StringShown(s, i);
      d := Quote(ps);
    } else if s[i] == MINUS || IsDigit(s[i]) {
      NumberShown(read, s, i);
      d := NumberToken(s[i..r.next], r.value);
    } else {
      d := Word(r.value);
    }
  }

  // What is asked of a reader of values without parts and of keys.

  ghost predicate ScalarMeant(read: NumberReader, rd: Reader, s: bytes, i: nat) {
    var r := rd.scalar(s, i);
    r.Done? ==> exists d :: Shows(read, s, i, r.next, r.value, d)
  }

  ghost predicate KeyMeant(rd: Reader, s: bytes, i: nat) {
    var r := rd.key(s, i);
    r.Done? ==> exists ps :: GoodPieces(ps) && StringKept(ps) == r.value && Spans(s, i, r.next, StringText(ps))
  }

  ghost predicate OnlyDocs(read: NumberReader, rd: Reader, s: bytes) {
    forall i: nat :: ScalarMeant(read, rd, s, i) && KeyMeant(rd, s, i)
  }

  lemma JsonOnlyDocs(read: NumberReader, s: bytes)
    ensures OnlyDocs(read, JsonReader(read), s)
  {
    var rd := JsonReader(read);
    forall i: nat ensures ScalarMeant(read, rd, s, i) && KeyMeant(rd, s, i) {
      if ScalarAt(read, s, i).Done? { var d := ScalarShown(read, s, i); }
      if KeyAt(s, i).Done? {
        var ps := StringShown(s, i);
        assert GoodPieces(ps) && StringKept(ps) == KeyAt(s, i).value;
      }
    }
  }

  // ---- Containers ----

  /** White space, a value, white space and a separator, as they stand in a text. */
  lemma ItemSpans(s: bytes, i: nat, k: nat, j: nat, m: nat, text: bytes, c: byte)
    requires i <= |s| && k == SkipSpace(s, i) && Spans(s, k, j, text) && m == SkipSpace(s, j) && Sees(s, m, c)
    ensures Spans(s, i, m + 1, (s[i..k] + (text + s[j..m])) + [c]) && White(s[i..k]) && White(s[j..m])
  {
    SpaceRun(s, i);
    SpaceRun(s, j);
    SpansMore(s, k, j, m, text, s[j..m]);
    SpansMore(s, i, k, m, s[i..k], text + s[j..m]);
    SpansByte(s, m, c);
    SpansMore(s, i, m, m + 1, s[i..k] + (text + s[j..m]), [c]);
  }

  lemma ListingCons(t: bytes, ts: seq<bytes>, close: byte)
    requires ts != []
    ensures Listing([t] + ts, close) == (t + [COMMA]) + Listing(ts, close)
  {
    assert ([t] + ts)[1..] == ts;
  }

  lemma ItemListing(x: Item, items: seq<Item>, close: byte)
    requires items != []
    ensures Listing(ItemTexts([x] + items), close) == (ItemText(x) + [COMMA]) + Listing(ItemTexts(items), close)
    ensures ItemMeanings([x] + items) == [ItemMeaning(x)] + ItemMeanings(items)
  {
    assert ItemTexts([x] + items) == [ItemText(x)] + ItemTexts(items);
    ListingCons(ItemText(x), ItemTexts(items), close);
  }

  lemma LastListing(x: Item, close: byte)
    ensures Listing(ItemTexts([x]), close) == ItemText(x) + [close] && ItemMeanings([x]) == [ItemMeaning(x)]
  {
  }

  /** What one turn of the item loop found: v, and the separator c before `next`. */
  ghost predicate ItemFound(rd: Reader, s: bytes, i: nat, v: Value, c: byte, next: nat) {
    i <= |s| && ValueAt(rd, s, i).Done? && ValueAt(rd, s, i).value == v
    && var m := SkipSpace(s, ValueAt(rd, s, i).next); Sees(s, m, c) && next == m + 1
  }

  /** What the item loop found, and where. */
  ghost predicate ItemsFound(rd: Reader, s: bytes, places: seq<nat>, vs: seq<Value>) {
    |places| == |vs| + 1 && forall k :: 0 <= k < |vs| ==>
      ItemFound(rd, s, places[k], vs[k], Separator(|vs| - k, CLOSE_BRACKET), places[k + 1])
  }

  lemma MoreFound(rd: Reader, s: bytes, i: nat, v: Value, places: seq<nat>, vs: seq<Value>)
    requires ItemsFound(rd, s, places, vs) && vs != [] && ItemFound(rd, s, i, v, COMMA, places[0])
    ensures ItemsFound(rd, s, [i] + places, [v] + vs)
  {
    var ps, ws := [i] + places, [v] + vs;
    forall k | 0 <= k < |ws|
      ensures ItemFound(rd, s, ps[k], ws[k], Separator(|ws| - k, CLOSE_BRACKET), ps[k + 1])
    {
      if k > 0 { assert ps[k] == places[k - 1] && ps[k + 1] == places[k] && ws[k] == vs[k - 1]; }
    }
  }

  /** One turn of the item loop. */
  lemma ItemsTurn(rd: Reader, s: bytes, i: nat, vs: seq<Value>, n: nat) returns (v: Value, m: nat)
    requires i <= |s| && ItemsAt(rd, s, i) == Done(vs, n)
    ensures vs != [] && v == vs[0] && i < m <= |s|
    ensures (ItemFound(rd, s, i, v, COMMA, m) && ItemsAt(rd, s, m) == Done(vs[1..], n)) ||
            (ItemFound(rd, s, i, v, CLOSE_BRACKET, m) && vs == [v] && n == m)
  {
    v, m := vs[0], SkipSpace(s, ValueAt(rd, s, i).next) + 1;
    if Sees(s, m - 1, COMMA) { ItemsSkip(rd, s, m); }
  }

  lemma {:induction false} FindItems(rd: Reader, s: bytes, i: nat, vs: seq<Value>, n: nat) returns (places: seq<nat>)
    requires i <= |s| && ItemsAt(rd, s, i) == Done(vs, n)
    ensures vs != [] && ItemsFound(rd, s, places, vs) && places[0] == i && places[|vs|] == n
    decreases |s| - i
  {
    var v, m := ItemsTurn(rd, s, i, vs, n);
    if ItemFound(rd, s, i, v, CLOSE_BRACKET, m) && vs == [v] && n == m {
      places := [i, n];
    } else {
      var rest := FindItems(rd, s, m, vs[1..], n);
      places := [i] + rest;
      MoreFound(rd, s, i, v, rest, vs[1..]);
      assert vs == [v] + vs[1..];
    }
  }

  /** The text of x, with the separator c, stands between i and n, and means v. */
  ghost predicate ItemShows(read: NumberReader, s: bytes, i: nat, n: nat, c: byte, v: Value, x: Item) {
    GoodItem(read, x) && ItemMeaning(x) == v && Spans(s, i, n, ItemText(x) + [c])
  }

  lemma {:induction false} ItemShown(read: NumberReader, rd: Reader, s: bytes, i: nat, v: Value, c: byte, n: nat)
    returns (x: Item)
    requires OnlyDocs(read, rd, s) && ItemFound(rd, s, i, v, c, n)
    ensures ItemShows(read, s, i, n, c, v, x)
    decreases |s| - i, 3
  {
    var d := ValueShown(read, rd, s, i);
    var k, j := SkipSpace(s, i), ValueAt(rd, s, i).next;
    x := Item(s[i..k], d, s[j..SkipSpace(s, j)]);
    ItemSpans(s, i, k, j, SkipSpace(s, j), Render(d), c);
  }

  ghost predicate ItemsShow(read: NumberReader, s: bytes, i: nat, n: nat, vs: seq<Value>, items: seq<Item>) {
    && items != [] && (forall k :: 0 <= k < |items| ==> GoodItem(read, items[k]))
    && ItemMeanings(items) == vs && Spans(s, i, n, Listing(ItemTexts(items), CLOSE_BRACKET))
  }

  lemma {:induction false} OneItemShows(read: NumberReader, s: bytes, i: nat, n: nat, v: Value, x: Item)
    returns (items: seq<Item>)
    requires ItemShows(read, s, i, n, CLOSE_BRACKET, v, x)
    ensures ItemsShow(read, s, i, n, [v], items)
  {
    items := [x];
    LastListing(x, CLOSE_BRACKET);
  }

  lemma {:induction false} MoreItemsShow(read: NumberReader, s: bytes, i: nat, m: nat, n: nat, v: Value, vs: seq<Value>,
                                         x: Item, rest: seq<Item>) returns (items: seq<Item>)
    requires ItemShows(read, s, i, m, COMMA, v, x) && ItemsShow(read, s, m, n, vs, rest)
    ensures ItemsShow(read, s, i, n, [v] + vs, items)
  {
    items := [x] + rest;
    ItemListing(x, rest, CLOSE_BRACKET);
    SpansMore(s, i, m, n, ItemText(x) + [COMMA], Listing(ItemTexts(rest), CLOSE_BRACKET));
  }

  lemma {:induction false} ItemsShown(read: NumberReader, rd: Reader, s: bytes, places: seq<nat>, vs: seq<Value>,
                                      k: nat) returns (items: seq<Item>)
    requires OnlyDocs(read, rd, s) && ItemsFound(rd, s, places, vs) && k < |vs| && places[k] <= |s|
    ensures ItemsShow(read, s, places[k], places[|vs|], vs[k..], items)
    decreases |s| - places[k], 4
  {
    FromHere(vs, k);
    assert ItemFound(rd, s, places[k], vs[k], Separator(|vs| - k, CLOSE_BRACKET), places[k + 1]);
    var x := ItemShown(read, rd, s, places[k], vs[k], Separator(|vs| - k, CLOSE_BRACKET), places[k + 1]);
    if k + 1 == |vs| {
      items := OneItemShows(read, s, places[k], places[k + 1], vs[k], x);
    } else {
      var rest := ItemsShown(read, rd, s, places, vs, k + 1);
      items := MoreItemsShow(read, s, places[k], places[k + 1], places[|vs|], vs[k], vs[k + 1..], x, rest);
    }
  }

  lemma ContainerSpans(s: bytes, i: nat, n: nat, open: byte, text: bytes)
    requires Sees(s, i, open) && Spans(s, i + 1, n, text)
    ensures Spans(s, i, n, [open] + text)
  {
    SpansByte(s, i, open);
    SpansMore(s, i, i + 1, n, [open], text);
  }

  lemma GapSpans(s: bytes, i: nat, open: byte, close: byte)
    requires Sees(s, i, open) && Sees(s, SkipSpace(s, i + 1), close)
    ensures var m := SkipSpace(s, i + 1);
            White(s[i + 1..m]) && Spans(s, i, m + 1, [open] + (s[i + 1..m] + [close]))
  {
    var m := SkipSpace(s, i + 1);
    SpaceRun(s, i + 1);
    SpansByte(s, m, close);
    SpansMore(s, i + 1, m, m + 1, s[i + 1..m], [close]);
    ContainerSpans(s, i, m + 1, open, s[i + 1..m] + [close]);
  }

  lemma {:induction false} ArrayShown(read: NumberReader, rd: Reader, s: bytes, i: nat) returns (d: Doc)
    requires OnlyDocs(read, rd, s) && Sees(s, i, OPEN_BRACKET) && ArrayAt(rd, s, i).Done?
    ensures var r := ArrayAt(rd, s, i); Shows(read, s, i, r.next, r.value, d)
    decreases |s| - i, 1
  {
    var m := SkipSpace(s, i + 1);
    if Sees(s, m, CLOSE_BRACKET) {
      GapSpans(s, i, OPEN_BRACKET, CLOSE_BRACKET);
      d := List(s[i + 1..m], []);
    } else {
      ItemsSkip(rd, s, i + 1);
      var r := ItemsAt(rd, s, i + 1);
      var places := FindItems(rd, s, i + 1, r.value, r.next);
      var items := ItemsShown(read, rd, s, places, r.value, 0);
      d := List([], items);
      ContainerSpans(s, i, r.next, OPEN_BRACKET, Listing(ItemTexts(items), CLOSE_BRACKET));
    }
  }

  /** The parts of a pair and its separator, as they stand in a text. */
  lemma MemberSpans(s: bytes, i: nat, k: nat, key: bytes, m: nat, n: nat, text: bytes, j: nat, c: byte)
    requires i <= |s| && Spans(s, SkipSpace(s, i), k, key) && m == SkipSpace(s, k) && Sees(s, m, COLON)
    requires n == SkipSpace(s, m + 1) && Spans(s, n, j, text) && Sees(s, SkipSpace(s, j), c)
    ensures var before, mid, space, after := s[i..SkipSpace(s, i)], s[k..m], s[m + 1..n], s[j..SkipSpace(s, j)];
            && White(before) && White(mid) && White(space) && White(after)
            && Spans(s, i, SkipSpace(s, j) + 1,
                     (before + ((key + (mid + [COLON])) + (space + (text + after)))) + [c])
  {
    var b, e := SkipSpace(s, i), SkipSpace(s, j);
    var before, mid, space, after := s[i..b], s[k..m], s[m + 1..n], s[j..e];
    SpaceRun(s, i);
    SpaceRun(s, k);
    SpaceRun(s, m + 1);
    SpaceRun(s, j);
    SpansMore(s, n, j, e, text, after);
    SpansMore(s, m + 1, n, e, space, text + after);
    SpansByte(s, m, COLON);
    SpansMore(s, k, m, m + 1, mid, [COLON]);
    SpansMore(s, b, k, m + 1, key, mid + [COLON]);
    SpansMore(s, b, m + 1, e, key + (mid + [COLON]), space + (text + after));
    SpansMore(s, i, b, e, before, (key + (mid + [COLON])) + (space + (text + after)));
    SpansByte(s, e, c);
    SpansMore(s, i, e, e + 1, before + ((key + (mid + [COLON])) + (space + (text + after))), [c]);
  }

  lemma MemberListing(x: Member, members: seq<Member>, close: byte)
    requires members != []
    ensures Listing(MemberTexts([x] + members), close)
         == (MemberText(x) + [COMMA]) + Listing(MemberTexts(members), close)
    ensures MemberMeanings([x] + members) == [MemberMeaning(x)] + MemberMeanings(members)
  {
    assert MemberTexts([x] + members) == [MemberText(x)] + MemberTexts(members);
    ListingCons(MemberText(x), MemberTexts(members), close);
  }

  lemma LastMember(x: Member, close: byte)
    ensures Listing(MemberTexts([x]), close) == MemberText(x) + [close] && MemberMeanings([x]) == [MemberMeaning(x)]
  {
  }

  lemma PairRead(rd: Reader, s: bytes, i: nat)
    requires i <= |s| && PairAt(rd, s, i).Done?
    ensures var b := SkipSpace(s, i); var r := rd.key(s, b);
            var m := SkipSpace(s, r.next); var v := ValueAt(rd, s, m + 1);
            && r.Done? && b < r.next <= |s| && Sees(s, m, COLON) && v.Done?
            && PairAt(rd, s, i) == Done(Pair(r.value, v.value), v.next)
  {
  }

  lemma MemberMade(read: NumberReader, x: Member, name: bytes, v: Value)
    requires White(x.before) && White(x.mid) && White(x.space) && White(x.after) && Good(read, x.doc)
    requires GoodPieces(x.key) && StringKept(x.key) == name && 0 < |name| < MAX_KEY_LEN && Meaning(x.doc) == v
    ensures GoodMember(read, x) && MemberMeaning(x) == Pair(name, v)
  {
  }

  lemma KeyShown(rd: Reader, s: bytes, i: nat) returns (ps: seq<Piece>)
    requires KeyMeant(rd, s, i) && rd.key(s, i).Done?
    ensures var r := rd.key(s, i); GoodPieces(ps) && StringKept(ps) == r.value && Spans(s, i, r.next, StringText(ps))
  {
    var r := rd.key(s, i);
    ps :| GoodPieces(ps) && StringKept(ps) == r.value && Spans(s, i, r.next, StringText(ps));
  }

  /** What one turn of the pair loop found: p, and the separator c before `next`. */
  ghost predicate PairFound(rd: Reader, s: bytes, i: nat, p: Pair, c: byte, next: nat) {
    i <= |s| && PairAt(rd, s, i).Done? && PairAt(rd, s, i).value == p && 0 < |p.key| < MAX_KEY_LEN
    && var m := SkipSpace(s, PairAt(rd, s, i).next); Sees(s, m, c) && next == m + 1
  }

  /** What the pair loop found, and where. */
  ghost predicate PairsFound(rd: Reader, s: bytes, places: seq<nat>, ps: seq<Pair>) {
    |places| == |ps| + 1 && forall k :: 0 <= k < |ps| ==>
      PairFound(rd, s, places[k], ps[k], Separator(|ps| - k, CLOSE_BRACE), places[k + 1])
  }

  lemma MorePairsFound(rd: Reader, s: bytes, i: nat, p: Pair, places: seq<nat>, ps: seq<Pair>)
    requires PairsFound(rd, s, places, ps) && ps != [] && PairFound(rd, s, i, p, COMMA, places[0])
    ensures PairsFound(rd, s, [i] + places, [p] + ps)
  {
    var qs, rs := [i] + places, [p] + ps;
    forall k | 0 <= k < |rs|
      ensures PairFound(rd, s, qs[k], rs[k], Separator(|rs| - k, CLOSE_BRACE), qs[k + 1])
    {
      if k > 0 { assert qs[k] == places[k - 1] && qs[k + 1] == places[k] && rs[k] == ps[k - 1]; }
    }
  }

  lemma MergedCons(before: seq<Pair>, p: Pair, ps: seq<Pair>)
    ensures Merged(before, [p] + ps) == Merged(Put(before, p), ps) && Merged(before, [p]) == Put(before, p)
  {
    assert ([p] + ps)[1..] == ps;
  }

  lemma {:induction false} FindPairs(rd: Reader, s: bytes, i: nat, before: seq<Pair>, pairs: seq<Pair>, n: nat)
    returns (places: seq<nat>, ps: seq<Pair>)
    requires i <= |s| && PairsAt(rd, s, i, before) == Done(pairs, n) && DistinctKeys(before)
    ensures ps != [] && PairsFound(rd, s, places, ps) && places[0] == i && places[|ps|] == n
    ensures Merged(before, ps) == pairs
    decreases |s| - i
  {
    var p, m := PairAt(rd, s, i).value, SkipSpace(s, PairAt(rd, s, i).next);
    PutIsSet(before, p);
    if Sees(s, m, COMMA) {
      var rest, more := FindPairs(rd, s, m + 1, Put(before, p), pairs, n);
      places, ps := [i] + rest, [p] + more;
      MorePairsFound(rd, s, i, p, rest, more);
      MergedCons(before, p, more);
    } else {
      places, ps := [i, n], [p];
      MergedCons(before, p, []);
    }
  }

  /** The text of x, with the separator c, stands between i and n, and means p. */
  ghost predicate MemberShows(read: NumberReader, s: bytes, i: nat, n: nat, c: byte, p: Pair, x: Member) {
    GoodMember(read, x) && MemberMeaning(x) == p && Spans(s, i, n, MemberText(x) + [c])
  }

  lemma MemberJoined(read: NumberReader, s: bytes, i: nat, k: nat, ps: seq<Piece>, d: Doc, j: nat, p: Pair, c: byte)
    returns (x: Member)
    requires i <= |s| && Spans(s, SkipSpace(s, i), k, StringText(ps)) && Sees(s, SkipSpace(s, k), COLON)
    requires Shows(read, s, SkipSpace(s, SkipSpace(s, k) + 1), j, p.value, d) && Sees(s, SkipSpace(s, j), c)
    requires GoodPieces(ps) && StringKept(ps) == p.key && 0 < |p.key| < MAX_KEY_LEN
    ensures MemberShows(read, s, i, SkipSpace(s, j) + 1, c, p, x)
  {
    var m := SkipSpace(s, k);
    var n := SkipSpace(s, m + 1);
    x := Member(s[i..SkipSpace(s, i)], ps, s[k..m], s[m + 1..n], d, s[j..SkipSpace(s, j)]);
    MemberSpans(s, i, k, StringText(ps), m, n, Render(d), j, c);
    MemberMade(read, x, p.key, p.value);
  }

  /** The key of a pair that was read, and where it ends. */
  lemma MemberStart(read: NumberReader, rd: Reader, s: bytes, i: nat, p: Pair, j: nat)
    returns (ps: seq<Piece>, k: nat)
    requires OnlyDocs(read, rd, s) && i <= |s| && PairAt(rd, s, i) == Done(p, j)
    ensures SkipSpace(s, i) < k <= |s| && Spans(s, SkipSpace(s, i), k, StringText(ps))
    ensures Sees(s, SkipSpace(s, k), COLON)
    ensures GoodPieces(ps) && StringKept(ps) == p.key && ValueAt(rd, s, SkipSpace(s, k) + 1) == Done(p.value, j)
  {
    PairRead(rd, s, i);
    var b := SkipSpace(s, i);
    assert KeyMeant(rd, s, b);
    ps := KeyShown(rd, s, b);
    k := rd.key(s, b).next;
  }

  lemma {:induction false} MemberShown(read: NumberReader, rd: Reader, s: bytes, i: nat, p: Pair, c: byte, n: nat)
    returns (x: Member)
    requires OnlyDocs(read, rd, s) && PairFound(rd, s, i, p, c, n)
    ensures MemberShows(read, s, i, n, c, p, x)
    decreases |s| - i, 3
  {
    var j := PairAt(rd, s, i).next;
    var ps, k := MemberStart(read, rd, s, i, p, j);
    var d := ValueShown(read, rd, s, SkipSpace(s, k) + 1);
    x := MemberJoined(read, s, i, k, ps, d, j, p, c);
  }

  ghost predicate MembersShow(read: NumberReader, s: bytes, i: nat, n: nat, ps: seq<Pair>, members: seq<Member>) {
    && members != [] && (forall k :: 0 <= k < |members| ==> GoodMember(read, members[k]))
    && MemberMeanings(members) == ps && Spans(s, i, n, Listing(MemberTexts(members), CLOSE_BRACE))
  }

  lemma {:induction false} OneMemberShows(read: NumberReader, s: bytes, i: nat, n: nat, p: Pair, x: Member)
    returns (members: seq<Member>)
    requires MemberShows(read, s, i, n, CLOSE_BRACE, p, x)
    ensures MembersShow(read, s, i, n, [p], members)
  {
    members := [x];
    LastMember(x, CLOSE_BRACE);
  }

  lemma {:induction false} MoreMembersShow(read: NumberReader, s: bytes, i: nat, m: nat, n: nat, p: Pair, ps: seq<Pair>,
                                           x: Member, rest: seq<Member>) returns (members: seq<Member>)
    requires MemberShows(read, s, i, m, COMMA, p, x) && MembersShow(read, s, m, n, ps, rest)
    ensures MembersShow(read, s, i, n, [p] + ps, members)
  {
    members := [x] + rest;
    MemberListing(x, rest, CLOSE_BRACE);
    SpansMore(s, i, m, n, MemberText(x) + [COMMA], Listing(MemberTexts(rest), CLOSE_BRACE));
  }

  lemma PairsFromHere(ps: seq<Pair>, k: nat)
    requires k < |ps|
    ensures ps[k..] == [ps[k]] + ps[k + 1..] && (k + 1 == |ps| ==> ps[k..] == [ps[k]])
  {
  }

  lemma {:induction false} MembersShown(read: NumberReader, rd: Reader, s: bytes, places: seq<nat>, ps: seq<Pair>,
                                        k: nat) returns (members: seq<Member>)
    requires OnlyDocs(read, rd, s) && PairsFound(rd, s, places, ps) && k < |ps| && places[k] <= |s|
    ensures MembersShow(read, s, places[k], places[|ps|], ps[k..], members)
    decreases |s| - places[k], 4
  {
    PairsFromHere(ps, k);
    assert PairFound(rd, s, places[k], ps[k], Separator(|ps| - k, CLOSE_BRACE), places[k + 1]);
    var x := MemberShown(read, rd, s, places[k], ps[k], Separator(|ps| - k, CLOSE_BRACE), places[k + 1]);
    if k + 1 == |ps| {
      members := OneMemberShows(read, s, places[k], places[k + 1], ps[k], x);
    } else {
      var rest := MembersShown(read, rd, s, places, ps, k + 1);
      members := MoreMembersShow(read, s, places[k], places[k + 1], places[|ps|], ps[k], ps[k + 1..], x, rest);
    }
  }

  lemma {:induction false} ObjectShown(read: NumberReader, rd: Reader, s: bytes, i: nat) returns (d: Doc)
    requires OnlyDocs(read, rd, s) && Sees(s, i, OPEN_BRACE) && ObjectAt(rd, s, i).Done?
    ensures var r := ObjectAt(rd, s, i); Shows(read, s, i, r.next, r.value, d)
    decreases |s| - i, 1
  {
    var m := SkipSpace(s, i + 1);
    if Sees(s, m, CLOSE_BRACE) {
      GapSpans(s, i, OPEN_BRACE, CLOSE_BRACE);
      d := Dict(s[i + 1..m], []);
    } else {
      PairsSkip(rd, s, i + 1, []);
      var r := PairsAt(rd, s, i + 1, []);
      var places, ps := FindPairs(rd, s, i + 1, [], r.value, r.next);
      var members := MembersShown(read, rd, s, places, ps, 0);
      d := Dict([], members);
      ContainerSpans(s, i, r.next, OPEN_BRACE, Listing(MemberTexts(members), CLOSE_BRACE));
    }
  }

  /** A value that is read is the meaning of a text of the grammar that stands there, after white space. */
  lemma {:induction false} ValueShown(read: NumberReader, rd: Reader, s: bytes, i: nat) returns (d: Doc)
    requires OnlyDocs(read, rd, s) && i <= |s| && ValueAt(rd, s, i).Done?
    ensures var r := ValueAt(rd, s, i); Shows(read, s, SkipSpace(s, i), r.next, r.value, d)
    decreases |s| - i, 2
  {
    var k := SkipSpace(s, i);
    if Sees(s, k, OPEN_BRACE) {
      d := ObjectShown(read, rd, s, k);
    } else if Sees(s, k, OPEN_BRACKET) {
      d := ArrayShown(read, rd, s, k);
    } else {
      assert ScalarMeant(read, rd, s, k);
      var r := rd.scalar(s, k);
      d :| Shows(read, s, k, r.next, r.value, d);
    }
  }

  // ---- Repeated keys ----

  /** The last value that is given for a key. */
  function LastValue(ps: seq<Pair>, key: bytes): Option<Value> {
    if ps == [] then None
    else
      match LastValue(ps[1..], key)
      case Some(v) => Some(v)
      case None => if ps[0].key == key then Some(ps[0].value) else None
  }

  lemma PutLookup(pairs: seq<Pair>, p: Pair, key: bytes)
    requires DistinctKeys(pairs)
    ensures Lookup(Put(pairs, p), key) == if key == p.key then Some(p.value) else Lookup(pairs, key)
  {
    var after := Put(pairs, p);
    PutIsSet(pairs, p);
    forall k | 0 <= k < |pairs| ensures after[k].key == pairs[k].key { }
    if k :| 0 <= k < |after| && after[k].key == key {
      LookupIs(after, k);
      if key != p.key { LookupIs(pairs, k); }
    } else {
      var n := KeyIndex(pairs, p.key, 0);
      assert after[if n < |pairs| then n else |pairs|].key == p.key;
      LookupNone(after, key);
      forall k | 0 <= k < |pairs| ensures pairs[k].key != key { assert after[k].key == pairs[k].key; }
      LookupNone(pairs, key);
    }
  }

  /** When a key is repeated, the last value wins. */
  lemma {:induction false} LastWins(before: seq<Pair>, ps: seq<Pair>, key: bytes)
    requires DistinctKeys(before)
    ensures DistinctKeys(Merged(before, ps))
    ensures Lookup(Merged(before, ps), key)
         == if LastValue(ps, key).Some? then LastValue(ps, key) else Lookup(before, key)
    decreases |ps|
  {
    if ps != [] {
      PutIsSet(before, ps[0]);
      PutLookup(before, ps[0], key);
      LastWins(Put(before, ps[0]), ps[1..], key);
    }
  }

  /** Pairs whose keys all differ stay as they are. */
  lemma {:induction false} KeptAsTheyAre(before: seq<Pair>, ps: seq<Pair>)
    requires DistinctKeys(before + ps)
    ensures Merged(before, ps) == before + ps
    decreases |ps|
  {
    if ps == [] {
      assert before + ps == before;
    } else {
      assert (before + ps)[|before|] == ps[0];
      forall k | 0 <= k < |before| ensures before[k].key != ps[0].key { assert (before + ps)[k] == before[k]; }
      assert before + [ps[0]] + ps[1..] == before + ps;
      KeptAsTheyAre(before + [ps[0]], ps[1..]);
    }
  }

  // ---- Texts ----

  ghost predicate TextOf(read: NumberReader, s: bytes, v: Value, before: bytes, d: Doc, after: bytes) {
    White(before) && White(after) && Good(read, d) && s == before + (Render(d) + after) && Meaning(d) == v
  }

  lemma TextSpans(read: NumberReader, s: bytes, k: nat, j: nat, v: Value, d: Doc)
    requires k == SkipSpace(s, 0) && Shows(read, s, k, j, v, d) && SkipSpace(s, j) == |s|
    ensures TextOf(read, s, v, s[..k], d, s[j..])
  {
    SpaceRun(s, 0);
    SpaceRun(s, j);
    SpansMore(s, k, j, |s|, Render(d), s[j..]);
    SpansMore(s, 0, k, |s|, s[..k], Render(d) + s[j..]);
  }

  lemma ReadsValue(read: NumberReader, s: bytes, v: Value) returns (j: nat)
    requires s != [] && Deserialize(read, s) == Some(v)
    ensures j <= |s| && ValueAt(JsonReader(read), s, 0) == Done(v, j) && SkipSpace(s, j) == |s|
  {
    j := ValueAt(JsonReader(read), s, 0).next;
  }

  lemma TextShown(read: NumberReader, s: bytes, v: Value)
    requires s != [] && Deserialize(read, s) == Some(v)
    ensures exists before, d, after :: TextOf(read, s, v, before, d, after)
  {
    JsonOnlyDocs(read, s);
    var j := ReadsValue(read, s, v);
    var d := ValueShown(read, JsonReader(read), s, 0);
    TextSpans(read, s, SkipSpace(s, 0), j, v, d);
  }

  /** A text is deserialized to v exactly when it is empty and v the empty object, or it is a text of the grammar,
      with white space around it, that means v. */
  lemma DeserializeExactly(read: NumberReader, s: bytes, v: Value)
    ensures Deserialize(read, s) == Some(v) <==>
            (s == [] && v == Obj([])) || exists before, d, after :: TextOf(read, s, v, before, d, after)
  {
    if before, d, after :| TextOf(read, s, v, before, d, after) { TextRead(read, before, d, after); }
    if s != [] && Deserialize(read, s) == Some(v) { TextShown(read, s, v); }
  }
}
