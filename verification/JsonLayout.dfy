/** The layout of printed JSON, compact and pretty, measured against the tokens of the value: a printer that knows
    only the tokens and the number of open brackets puts the same line breaks and spaces between them. */
module JsonLayout {
  import opened Ascii
  import opened Numerals
  import opened Prelude
  import opened Json
  import opened JsonTree

  datatype Token = Open(c: byte) | Close(c: byte) | Between | Names | Leaf(text: bytes)

  function Spelling(t: Token): bytes {
    match t
    case Open(c) => [c]
    case Close(c) => [c]
    case Between => [COMMA]
    case Names => [COLON]
    case Leaf(text) => text
  }

  /** The tokens of a value, in order. */
  function Tokens(w: Writer, v: Value): (ts: seq<Token>)
    ensures ts != []
    decreases v, 0
  {
    match v
    case Arr(items) => [Open(OPEN_BRACKET)] + (if items == [] then [Close(CLOSE_BRACKET)] else ItemTokens(w, items, 0))
    case Obj(pairs) => [Open(OPEN_BRACE)] + (if pairs == [] then [Close(CLOSE_BRACE)] else PairTokens(w, pairs, 0))
    case _ => [Leaf(w.scalar(v))]
  }

  function ItemTokens(w: Writer, items: seq<Value>, k: nat): seq<Token>
    requires k < |items|
    decreases items, |items| - k, 1
  {
    Tokens(w, items[k]) + AfterItemTokens(w, items, k)
  }

  function AfterItemTokens(w: Writer, items: seq<Value>, k: nat): seq<Token>
    requires k < |items|
    decreases items, |items| - k, 0
  {
    if k + 1 == |items| then [Close(CLOSE_BRACKET)] else [Between] + ItemTokens(w, items, k + 1)
  }

  function PairTokens(w: Writer, pairs: seq<Pair>, k: nat): seq<Token>
    requires k < |pairs|
    decreases pairs, |pairs| - k, 1
  {
    [Leaf(w.key(pairs[k].key)), Names] + (Tokens(w, pairs[k].value) + AfterPairTokens(w, pairs, k))
  }

  function AfterPairTokens(w: Writer, pairs: seq<Pair>, k: nat): seq<Token>
    requires k < |pairs|
    decreases pairs, |pairs| - k, 0
  {
    if k + 1 == |pairs| then [Close(CLOSE_BRACE)] else [Between] + PairTokens(w, pairs, k + 1)
  }

  /** What is put between two tokens, inside that many open brackets. */
  type Gap = (Token, Token, int) -> bytes

  /** A line break comes after an opening bracket or a comma and before a closing bracket, unless the brackets
      have nothing between them. */
  predicate Breaks(prev: Token, t: Token) {
    prev.Between? || (prev.Open? && !t.Close?) || (t.Close? && !prev.Open?)
  }

  /** A line is indented by two spaces for every open bracket but the innermost, and a space follows a colon. */
  function PrettyGap(prev: Token, t: Token, depth: int): bytes {
    if Breaks(prev, t) then Text("\n") + seq(if depth > 0 then 2 * (depth - 1) else 0, _ => ' ' as int as byte)
    else if prev.Names? then Text(" ")
    else []
  }

  function NoGap(prev: Token, t: Token, depth: int): bytes {
    []
  }

  function Deeper(t: Token): int {
    if t.Open? then 1 else if t.Close? then -1 else 0
  }

  /** The tokens laid out after prev, inside `depth` open brackets. */
  function Layout(g: Gap, ts: seq<Token>, prev: Token, depth: int): bytes {
    if ts == [] then []
    else (g(prev, ts[0], depth) + Spelling(ts[0])) + Layout(g, ts[1..], ts[0], depth + Deeper(ts[0]))
  }

  function Depth(ts: seq<Token>): int {
    if ts == [] then 0 else Deeper(ts[0]) + Depth(ts[1..])
  }

  function Last(ts: seq<Token>, prev: Token): Token {
    if ts == [] then prev else ts[|ts| - 1]
  }

  lemma LayoutCons(g: Gap, t: Token, ts: seq<Token>, prev: Token, depth: int)
    ensures Layout(g, [t] + ts, prev, depth)
         == (g(prev, t, depth) + Spelling(t)) + Layout(g, ts, t, depth + Deeper(t))
  {
    assert ([t] + ts)[1..] == ts;
  }

  lemma LayoutOne(g: Gap, t: Token, prev: Token, depth: int)
    ensures Layout(g, [t], prev, depth) == g(prev, t, depth) + Spelling(t)
  {
    assert [t][1..] == [];
  }

  lemma {:induction false} DepthAppend(a: seq<Token>, b: seq<Token>)
    ensures Depth(a + b) == Depth(a) + Depth(b)
    decreases |a|
  {
    if a == [] {
      assert a + b == b;
    } else {
      assert (a + b)[1..] == a[1..] + b;
      DepthAppend(a[1..], b);
    }
  }

  lemma {:induction false} LayoutAppend(g: Gap, a: seq<Token>, b: seq<Token>, prev: Token, depth: int)
    ensures Layout(g, a + b, prev, depth) == Layout(g, a, prev, depth) + Layout(g, b, Last(a, prev), depth + Depth(a))
    decreases |a|
  {
    if a == [] {
      assert a + b == b;
    } else {
      var t, rest := a[0], a[1..];
      assert a == [t] + rest && a + b == [t] + (rest + b);
      LayoutAppend(g, rest, b, t, depth + Deeper(t));
      LayoutCons(g, t, rest, prev, depth);
      LayoutCons(g, t, rest + b, prev, depth);
      Reassociate(g(prev, t, depth) + Spelling(t), Layout(g, rest, t, depth + Deeper(t)),
                  Layout(g, b, Last(rest, t), depth + Deeper(t) + Depth(rest)));
    }
  }

  /** A value's tokens leave the depth as it was, and neither of their ends is a separator. */
  ghost predicate Whole(ts: seq<Token>) {
    && ts != [] && Depth(ts) == 0 && (ts[0].Leaf? || ts[0].Open?) && (ts[|ts| - 1].Leaf? || ts[|ts| - 1].Close?)
  }

  /** Laid out, the tokens of v are what is in front of the first, and the printed text of v. */
  ghost predicate Laid(g: Gap, w: Writer, v: Value, prev: Token, indent: nat, pretty: bool) {
    Layout(g, Tokens(w, v), prev, indent) == g(prev, Tokens(w, v)[0], indent) + Print(w, v, indent, pretty)
  }

  /** The gaps inside brackets are those of the printer. */
  ghost predicate FitsAt(g: Gap, pretty: bool, prev: Token, t: Token, indent: nat) {
    g(prev, t, indent + 1) == if Breaks(prev, t) then NewLine(indent, pretty)
                              else if prev.Names? && pretty then [SPACE] else []
  }

  ghost predicate Fits(g: Gap, pretty: bool) {
    forall prev, t, indent: nat :: FitsAt(g, pretty, prev, t, indent)
  }

  lemma GapsFit()
    ensures Fits(PrettyGap, true) && Fits(NoGap, false)
  {
    assert Text("\n") == [LF] && Text(" ") == [SPACE];
    forall prev, t, indent: nat
      ensures FitsAt(PrettyGap, true, prev, t, indent) && FitsAt(NoGap, false, prev, t, indent)
    {
      assert Spaces(2 * indent) == seq(2 * indent, _ => ' ' as int as byte);
    }
  }

  /** The closing bracket of a container that is not empty. */
  lemma ClosingLaid(g: Gap, c: byte, prev: Token, indent: nat, pretty: bool)
    requires Fits(g, pretty) && !prev.Open?
    ensures Layout(g, [Close(c)], prev, indent + 1) == NewLine(indent, pretty) + [c]
  {
    LayoutOne(g, Close(c), prev, indent + 1);
    assert FitsAt(g, pretty, prev, Close(c), indent);
  }

  /** The comma after a value. */
  lemma CommaLaid(g: Gap, ts: seq<Token>, prev: Token, indent: nat, pretty: bool)
    requires Fits(g, pretty) && (prev.Leaf? || prev.Close?)
    ensures Layout(g, [Between] + ts, prev, indent + 1) == [COMMA] + Layout(g, ts, Between, indent + 1)
  {
    LayoutCons(g, Between, ts, prev, indent + 1);
    assert FitsAt(g, pretty, prev, Between, indent);
    assert [] + [COMMA] == [COMMA];
  }

  /** The key of a pair and its colon. */
  lemma KeyLaid(g: Gap, key: bytes, ts: seq<Token>, prev: Token, indent: nat, pretty: bool)
    requires Fits(g, pretty) && (prev.Open? || prev.Between?)
    ensures Layout(g, [Leaf(key), Names] + ts, prev, indent + 1)
         == NewLine(indent, pretty) + (key + ([COLON] + Layout(g, ts, Names, indent + 1)))
  {
    assert [Leaf(key), Names] + ts == [Leaf(key)] + ([Names] + ts);
    LayoutCons(g, Leaf(key), [Names] + ts, prev, indent + 1);
    LayoutCons(g, Names, ts, Leaf(key), indent + 1);
    assert FitsAt(g, pretty, prev, Leaf(key), indent) && FitsAt(g, pretty, Leaf(key), Names, indent);
    assert [] + [COLON] == [COLON];
    Reassociate(NewLine(indent, pretty), key, [COLON] + Layout(g, ts, Names, indent + 1));
  }

  /** A value and what comes after it in its container. */
  lemma ValueThen(g: Gap, w: Writer, v: Value, tail: seq<Token>, prev: Token, depth: nat, pretty: bool)
    requires Whole(Tokens(w, v)) && Laid(g, w, v, prev, depth, pretty)
    ensures Layout(g, Tokens(w, v) + tail, prev, depth)
         == g(prev, Tokens(w, v)[0], depth)
            + (Print(w, v, depth, pretty) + Layout(g, tail, Last(Tokens(w, v), prev), depth))
    ensures Depth(Tokens(w, v) + tail) == Depth(tail)
  {
    LayoutAppend(g, Tokens(w, v), tail, prev, depth);
    DepthAppend(Tokens(w, v), tail);
    Reassociate(g(prev, Tokens(w, v)[0], depth), Print(w, v, depth, pretty),
                Layout(g, tail, Last(Tokens(w, v), prev), depth));
  }

  /** A list of items or pairs, up to its closing bracket. */
  ghost predicate Ends(ts: seq<Token>) {
    ts != [] && Depth(ts) == -1 && ts[|ts| - 1].Close?
  }

  lemma EndsAppend(a: seq<Token>, b: seq<Token>)
    requires Depth(a) == 0 && Ends(b)
    ensures Ends(a + b)
  {
    DepthAppend(a, b);
  }

  lemma {:induction false} AfterItemLaid(g: Gap, w: Writer, items: seq<Value>, k: nat, prev: Token, indent: nat,
                                         pretty: bool)
    requires Fits(g, pretty) && k < |items| && (prev.Leaf? || prev.Close?)
    ensures Layout(g, AfterItemTokens(w, items, k), prev, indent + 1) == AfterItem(w, items, k, indent, pretty)
    ensures Ends(AfterItemTokens(w, items, k))
    decreases items, |items| - k, 0
  {
    if k + 1 == |items| {
      ClosingLaid(g, CLOSE_BRACKET, prev, indent, pretty);
    } else {
      ItemsLaid(g, w, items, k + 1, Between, indent, pretty);
      CommaLaid(g, ItemTokens(w, items, k + 1), prev, indent, pretty);
      EndsAppend([Between], ItemTokens(w, items, k + 1));
    }
  }

  lemma {:induction false} ItemsLaid(g: Gap, w: Writer, items: seq<Value>, k: nat, prev: Token, indent: nat,
                                     pretty: bool)
    requires Fits(g, pretty) && k < |items| && (prev.Open? || prev.Between?)
    ensures Layout(g, ItemTokens(w, items, k), prev, indent + 1) == PrintItems(w, items, k, indent, pretty)
    ensures Ends(ItemTokens(w, items, k))
    decreases items, |items| - k, 1
  {
    var ts, tail := Tokens(w, items[k]), AfterItemTokens(w, items, k);
    ValueLaid(g, w, items[k], prev, indent + 1, pretty);
    AfterItemLaid(g, w, items, k, Last(ts, prev), indent, pretty);
    ValueThen(g, w, items[k], tail, prev, indent + 1, pretty);
    assert FitsAt(g, pretty, prev, ts[0], indent);
    EndsAppend(ts, tail);
  }

  lemma {:induction false} AfterPairLaid(g: Gap, w: Writer, pairs: seq<Pair>, k: nat, prev: Token, indent: nat,
                                         pretty: bool)
    requires Fits(g, pretty) && k < |pairs| && (prev.Leaf? || prev.Close?)
    ensures Layout(g, AfterPairTokens(w, pairs, k), prev, indent + 1) == AfterPair(w, pairs, k, indent, pretty)
    ensures Ends(AfterPairTokens(w, pairs, k))
    decreases pairs, |pairs| - k, 0
  {
    if k + 1 == |pairs| {
      ClosingLaid(g, CLOSE_BRACE, prev, indent, pretty);
    } else {
      PairsLaid(g, w, pairs, k + 1, Between, indent, pretty);
      CommaLaid(g, PairTokens(w, pairs, k + 1), prev, indent, pretty);
      EndsAppend([Between], PairTokens(w, pairs, k + 1));
    }
  }

  lemma {:induction false} PairsLaid(g: Gap, w: Writer, pairs: seq<Pair>, k: nat, prev: Token, indent: nat,
                                     pretty: bool)
    requires Fits(g, pretty) && k < |pairs| && (prev.Open? || prev.Between?)
    ensures Layout(g, PairTokens(w, pairs, k), prev, indent + 1) == PrintPairs(w, pairs, k, indent, pretty)
    ensures Ends(PairTokens(w, pairs, k))
    decreases pairs, |pairs| - k, 1
  {
    var v := pairs[k].value;
    var ts, tail := Tokens(w, v), AfterPairTokens(w, pairs, k);
    ValueLaid(g, w, v, Names, indent + 1, pretty);
    AfterPairLaid(g, w, pairs, k, Last(ts, Names), indent, pretty);
    ValueThen(g, w, v, tail, Names, indent + 1, pretty);
    EndsAppend(ts, tail);
    PairLaid(g, w.key(pairs[k].key), ts + tail, ts[0], prev, indent, pretty,
             Print(w, v, indent + 1, pretty) + AfterPair(w, pairs, k, indent, pretty));
  }

  /** A pair, given how what stands behind its colon is laid out. */
  lemma PairLaid(g: Gap, key: bytes, ts: seq<Token>, t: Token, prev: Token, indent: nat, pretty: bool, rest: bytes)
    requires Fits(g, pretty) && (prev.Open? || prev.Between?) && (t.Leaf? || t.Open?)
    requires Layout(g, ts, Names, indent + 1) == g(Names, t, indent + 1) + rest && Ends(ts)
    ensures Layout(g, [Leaf(key), Names] + ts, prev, indent + 1)
         == NewLine(indent, pretty) + (key + (Colon(pretty) + rest))
    ensures Ends([Leaf(key), Names] + ts)
  {
    assert [Leaf(key), Names][1..] == [Names] && [Names][1..] == [];
    EndsAppend([Leaf(key), Names], ts);
    KeyLaid(g, key, ts, prev, indent, pretty);
    assert FitsAt(g, pretty, Names, t, indent);
    Reassociate([COLON], g(Names, t, indent + 1), rest);
    assert [COLON] + g(Names, t, indent + 1) == Colon(pretty);
  }

  lemma EmptyLaid(g: Gap, open: byte, close: byte, prev: Token, indent: nat, pretty: bool)
    requires Fits(g, pretty)
    ensures Layout(g, [Open(open)] + [Close(close)], prev, indent) == g(prev, Open(open), indent) + ([open] + [close])
    ensures Whole([Open(open)] + [Close(close)])
  {
    LayoutCons(g, Open(open), [Close(close)], prev, indent);
    LayoutOne(g, Close(close), Open(open), indent + 1);
    assert FitsAt(g, pretty, Open(open), Close(close), indent);
    assert [] + [close] == [close];
    DepthAppend([Open(open)], [Close(close)]);
  }

  lemma FullLaid(g: Gap, open: byte, ts: seq<Token>, prev: Token, indent: nat, text: bytes)
    requires Layout(g, ts, Open(open), indent + 1) == text && Ends(ts)
    ensures Layout(g, [Open(open)] + ts, prev, indent) == g(prev, Open(open), indent) + ([open] + text)
    ensures Whole([Open(open)] + ts)
  {
    LayoutCons(g, Open(open), ts, prev, indent);
    DepthAppend([Open(open)], ts);
    Reassociate(g(prev, Open(open), indent), [open], text);
  }

  lemma {:induction false} ValueLaid(g: Gap, w: Writer, v: Value, prev: Token, indent: nat, pretty: bool)
    requires Fits(g, pretty)
    ensures Laid(g, w, v, prev, indent, pretty) && Whole(Tokens(w, v))
    decreases v, 0
  {
    match v
    case Arr(items) =>
      if items == [] {
        EmptyLaid(g, OPEN_BRACKET, CLOSE_BRACKET, prev, indent, pretty);
      } else {
        ItemsLaid(g, w, items, 0, Open(OPEN_BRACKET), indent, pretty);
        FullLaid(g, OPEN_BRACKET, ItemTokens(w, items, 0), prev, indent, PrintItems(w, items, 0, indent, pretty));
      }
    case Obj(pairs) =>
      if pairs == [] {
        EmptyLaid(g, OPEN_BRACE, CLOSE_BRACE, prev, indent, pretty);
      } else {
        PairsLaid(g, w, pairs, 0, Open(OPEN_BRACE), indent, pretty);
        FullLaid(g, OPEN_BRACE, PairTokens(w, pairs, 0), prev, indent, PrintPairs(w, pairs, 0, indent, pretty));
      }
    case _ => LayoutOne(g, Leaf(w.scalar(v)), prev, indent);
  }

  /** The text of a value: its tokens one after another when compact, and laid out as above when pretty. */
  function LaidOut(g: Gap, ts: seq<Token>): bytes
    requires ts != []
  {
    Spelling(ts[0]) + Layout(g, ts[1..], ts[0], Deeper(ts[0]))
  }

  lemma PrintIsLayout(w: Writer, v: Value)
    ensures Print(w, v, 0, true) == LaidOut(PrettyGap, Tokens(w, v))
    ensures Print(w, v, 0, false) == LaidOut(NoGap, Tokens(w, v))
  {
    GapsFit();
    LaidOutIsPrint(PrettyGap, w, v, true);
    LaidOutIsPrint(NoGap, w, v, false);
  }

  lemma LaidOutIsPrint(g: Gap, w: Writer, v: Value, pretty: bool)
    requires Fits(g, pretty)
    ensures Print(w, v, 0, pretty) == LaidOut(g, Tokens(w, v))
  {
    var ts, front := Tokens(w, v), g(Names, Tokens(w, v)[0], 0);
    ValueLaid(g, w, v, Names, 0, pretty);
    Reassociate(front, Spelling(ts[0]), Layout(g, ts[1..], ts[0], Deeper(ts[0])));
    SameRest(front, Print(w, v, 0, pretty), LaidOut(g, ts));
  }

  lemma SameRest(a: bytes, b: bytes, c: bytes)
    requires a + b == a + c
    ensures b == c
  {
    assert b == (a + b)[|a|..] && c == (a + c)[|a|..];
  }
}
