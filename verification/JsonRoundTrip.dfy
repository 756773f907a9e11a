/** Parsing the printed text of a well-formed value gives the value back, compact or pretty, at any nesting. */
module JsonRoundTrip {
  import opened Prelude
  import opened Json
  import opened JsonScalars
  import opened JsonTree
  import opened Placement

  /** Distinct keys within their limits, over values without parts that can be stored. */
  ghost predicate Storable(v: Value)
    decreases v, 0
  {
    match v
    case Arr(items) => forall k :: 0 <= k < |items| ==> Storable(items[k])
    case Obj(pairs) => DistinctKeys(pairs) && forall k :: 0 <= k < |pairs| ==> StorablePair(pairs[k])
    case _ => StorableScalar(v)
  }

  ghost predicate StorablePair(p: Pair)
    decreases p, 0
  {
    StorableKey(p.key) && Storable(p.value)
  }

  ghost predicate DistinctKeys(pairs: seq<Pair>) {
    forall j, k :: 0 <= j < k < |pairs| ==> pairs[j].key != pairs[k].key
  }

  // ---- What is asked of the values without parts ----

  ghost predicate ScalarBackAt(w: Writer, rd: Reader, s: bytes, i: nat, v: Value) {
    StorableScalar(v) ==>
      && w.scalar(v) != [] && Begins(w.scalar(v)[0])
      && (At(s, i, w.scalar(v)) && Ends(s, i + |w.scalar(v)|) ==> rd.scalar(s, i) == Done(v, i + |w.scalar(v)|))
  }

  ghost predicate KeyBackAt(w: Writer, rd: Reader, s: bytes, i: nat, key: bytes) {
    StorableKey(key) ==>
      && w.key(key) != [] && Begins(w.key(key)[0])
      && (At(s, i, w.key(key)) ==> rd.key(s, i) == Done(key, i + |w.key(key)|))
  }

  ghost predicate Inverts(w: Writer, rd: Reader) {
    && (forall s: bytes, i: nat, v: Value :: ScalarBackAt(w, rd, s, i, v))
    && (forall s: bytes, i: nat, key: bytes :: KeyBackAt(w, rd, s, i, key))
  }

  lemma JsonInverts(show: Shower, read: NumberReader)
    requires ReadsIntegers(read)
    ensures Inverts(JsonWriter(show), JsonReader(read))
  {
    var w, rd := JsonWriter(show), JsonReader(read);
    forall s: bytes, i: nat, v: Value ensures ScalarBackAt(w, rd, s, i, v) {
      if StorableScalar(v) {
        ScalarBegins(show, v);
        if At(s, i, ScalarText(show, v)) && Ends(s, i + |ScalarText(show, v)|) { ScalarBack(show, read, s, i, v); }
      }
    }
    forall s: bytes, i: nat, key: bytes ensures KeyBackAt(w, rd, s, i, key) {
      if StorableKey(key) && At(s, i, Quoted(key)) { KeyBack(s, i, key); }
    }
  }

  // ---- Space ----

  /** A line break before something else is skipped. */
  lemma SkipNewLine(s: bytes, i: nat, indent: nat, pretty: bool)
    requires At(s, i, NewLine(indent, pretty))
    requires var j := i + |NewLine(indent, pretty)|; j < |s| && !IsSpace(s[j])
    ensures SkipSpace(s, i) == i + |NewLine(indent, pretty)|
  {
    var t := NewLine(indent, pretty);
    forall k | i <= k < i + |t| ensures IsSpace(s[k]) { assert Same(s, i, t, k - i); }
    SkipSpaceIs(s, i, i + |t|);
  }

  lemma {:induction false} SkipTwice(s: bytes, i: nat)
    requires i <= |s|
    ensures SkipSpace(s, SkipSpace(s, i)) == SkipSpace(s, i)
    decreases |s| - i
  {
    if i < |s| && IsSpace(s[i]) { SkipTwice(s, i + 1); }
  }

  lemma NoSpace(s: bytes, i: nat)
    requires i < |s| && !IsSpace(s[i])
    ensures SkipSpace(s, i) == i
  {
  }

  lemma ValueSkip(rd: Reader, s: bytes, i: nat)
    requires i <= |s|
    ensures ValueAt(rd, s, SkipSpace(s, i)) == ValueAt(rd, s, i)
  {
    SkipTwice(s, i);
  }

  lemma PairSkip(rd: Reader, s: bytes, i: nat)
    requires i <= |s|
    ensures PairAt(rd, s, SkipSpace(s, i)) == PairAt(rd, s, i)
  {
    SkipTwice(s, i);
  }

  lemma PairsSkip(rd: Reader, s: bytes, i: nat, before: seq<Pair>)
    requires i <= |s|
    ensures PairsAt(rd, s, SkipSpace(s, i), before) == PairsAt(rd, s, i, before)
  {
    PairSkip(rd, s, i);
  }

  /** A byte that begins any value. */
  predicate BeginsValue(c: byte) {
    Begins(c) || c == OPEN_BRACKET || c == OPEN_BRACE
  }

  lemma PrintBegins(w: Writer, rd: Reader, v: Value, indent: nat, pretty: bool)
    requires Inverts(w, rd) && Storable(v)
    ensures Print(w, v, indent, pretty) != [] && BeginsValue(Print(w, v, indent, pretty)[0])
  {
    if !v.Arr? && !v.Obj? { assert ScalarBackAt(w, rd, [], 0, v); }
  }

  /** A line that begins with a value's or a key's text. */
  lemma LineParts(s: bytes, i: nat, indent: nat, pretty: bool, text: bytes, after: bytes)
    requires At(s, i, NewLine(indent, pretty) + (text + after)) && text != [] && BeginsValue(text[0])
    ensures var m := i + |NewLine(indent, pretty)|;
            SkipSpace(s, i) == m && m < |s| && s[m] == text[0] && At(s, m, text) && At(s, m + |text|, after)
  {
    var m := i + |NewLine(indent, pretty)|;
    AtAppend(s, i, NewLine(indent, pretty), text + after);
    AtAppend(s, m, text, after);
    AtFirst(s, m, text);
    SkipNewLine(s, i, indent, pretty);
  }

  /** The closing line. */
  lemma CloseBack(s: bytes, i: nat, bracket: byte, indent: nat, pretty: bool)
    requires bracket == CLOSE_BRACKET || bracket == CLOSE_BRACE
    requires At(s, i, NewLine(indent, pretty) + [bracket])
    ensures Sees(s, SkipSpace(s, i), bracket) && SkipSpace(s, i) + 1 == i + |NewLine(indent, pretty) + [bracket]|
    ensures Ends(s, i)
  {
    AtAppend(s, i, NewLine(indent, pretty), [bracket]);
    AtFirst(s, i + |NewLine(indent, pretty)|, [bracket]);
    SkipNewLine(s, i, indent, pretty);
    if pretty { AtFirst(s, i, NewLine(indent, pretty)); }
  }

  // ---- Arrays ----

  /** After item k comes the closing line, or a comma and the next line. */
  lemma AfterItemBack(w: Writer, s: bytes, j: nat, items: seq<Value>, k: nat, indent: nat, pretty: bool)
    requires k < |items| && At(s, j, AfterItem(w, items, k, indent, pretty))
    ensures Ends(s, j)
    ensures if k + 1 == |items| then Sees(s, SkipSpace(s, j), CLOSE_BRACKET)
                                     && SkipSpace(s, j) + 1 == j + |AfterItem(w, items, k, indent, pretty)|
            else Sees(s, j, COMMA) && At(s, j + 1, PrintItems(w, items, k + 1, indent, pretty))
  {
    if k + 1 == |items| {
      CloseBack(s, j, CLOSE_BRACKET, indent, pretty);
    } else {
      AtByte(s, j, COMMA, PrintItems(w, items, k + 1, indent, pretty));
    }
  }

  lemma LastItem(rd: Reader, s: bytes, i: nat, items: seq<Value>, k: nat, j: nat)
    requires i <= |s| && k + 1 == |items| && ValueAt(rd, s, i) == Done(items[k], j)
    requires Sees(s, SkipSpace(s, j), CLOSE_BRACKET)
    ensures ItemsAt(rd, s, i) == Done(items[k..], SkipSpace(s, j) + 1)
  {
    assert items[k..] == [items[k]];
  }

  lemma MoreItems(rd: Reader, s: bytes, i: nat, items: seq<Value>, k: nat, j: nat, n: nat)
    requires i <= |s| && k < |items| && ValueAt(rd, s, i) == Done(items[k], j) && Sees(s, j, COMMA)
    requires ItemsAt(rd, s, SkipSpace(s, j + 1)) == Done(items[k + 1..], n)
    ensures ItemsAt(rd, s, i) == Done(items[k..], n)
  {
    NoSpace(s, j);
    assert items[k..] == [items[k]] + items[k + 1..];
  }

  /** Where item k begins and ends. */
  lemma ItemParts(w: Writer, rd: Reader, s: bytes, i: nat, items: seq<Value>, k: nat, indent: nat, pretty: bool)
    returns (m: nat, j: nat)
    requires Inverts(w, rd) && k < |items| && Storable(items[k]) && At(s, i, PrintItems(w, items, k, indent, pretty))
    ensures m == SkipSpace(s, i) && !Sees(s, m, CLOSE_BRACKET)
    ensures At(s, m, Print(w, items[k], indent + 1, pretty)) && j == m + |Print(w, items[k], indent + 1, pretty)|
    ensures At(s, j, AfterItem(w, items, k, indent, pretty))
    ensures j + |AfterItem(w, items, k, indent, pretty)| == i + |PrintItems(w, items, k, indent, pretty)|
  {
    var text := Print(w, items[k], indent + 1, pretty);
    PrintBegins(w, rd, items[k], indent + 1, pretty);
    LineParts(s, i, indent, pretty, text, AfterItem(w, items, k, indent, pretty));
    m := i + |NewLine(indent, pretty)|;
    j := m + |text|;
  }

  /** Item k is read back, and what follows it is in place. */
  lemma {:induction false} ItemBack(w: Writer, rd: Reader, s: bytes, i: nat, items: seq<Value>, k: nat,
                                    indent: nat, pretty: bool) returns (j: nat)
    requires Inverts(w, rd) && k < |items| && Storable(items[k]) && At(s, i, PrintItems(w, items, k, indent, pretty))
    ensures ValueAt(rd, s, SkipSpace(s, i)) == Done(items[k], j) && !Sees(s, SkipSpace(s, i), CLOSE_BRACKET)
    ensures At(s, j, AfterItem(w, items, k, indent, pretty))
    ensures j + |AfterItem(w, items, k, indent, pretty)| == i + |PrintItems(w, items, k, indent, pretty)|
    decreases items, |items| - k, 0
  {
    var m;
    m, j := ItemParts(w, rd, s, i, items, k, indent, pretty);
    AfterItemBack(w, s, j, items, k, indent, pretty);
    ValueBack(w, rd, s, m, items[k], indent + 1, pretty);
  }

  lemma {:induction false} ItemsBack(w: Writer, rd: Reader, s: bytes, i: nat, items: seq<Value>, k: nat,
                                     indent: nat, pretty: bool)
    requires Inverts(w, rd) && k < |items| && forall j :: 0 <= j < |items| ==> Storable(items[j])
    requires At(s, i, PrintItems(w, items, k, indent, pretty))
    ensures !Sees(s, SkipSpace(s, i), CLOSE_BRACKET)
    ensures ItemsAt(rd, s, SkipSpace(s, i)) == Done(items[k..], i + |PrintItems(w, items, k, indent, pretty)|)
    decreases items, |items| - k, 1
  {
    var j := ItemBack(w, rd, s, i, items, k, indent, pretty);
    AfterItemBack(w, s, j, items, k, indent, pretty);
    if k + 1 == |items| {
      LastItem(rd, s, SkipSpace(s, i), items, k, j);
    } else {
      ItemsBack(w, rd, s, j + 1, items, k + 1, indent, pretty);
      MoreItems(rd, s, SkipSpace(s, i), items, k, j, j + 1 + |PrintItems(w, items, k + 1, indent, pretty)|);
    }
  }

  lemma ArrayIs(rd: Reader, s: bytes, i: nat, items: seq<Value>, n: nat)
    requires Sees(s, i, OPEN_BRACKET) && !Sees(s, SkipSpace(s, i + 1), CLOSE_BRACKET)
    requires ItemsAt(rd, s, SkipSpace(s, i + 1)) == Done(items, n)
    ensures ValueAt(rd, s, i) == Done(Arr(items), n)
  {
    NoSpace(s, i);
  }

  lemma EmptyArray(rd: Reader, s: bytes, i: nat)
    requires At(s, i, [OPEN_BRACKET] + [CLOSE_BRACKET])
    ensures ValueAt(rd, s, i) == Done(Arr([]), i + 2)
  {
    AtByte(s, i, OPEN_BRACKET, [CLOSE_BRACKET]);
    AtFirst(s, i + 1, [CLOSE_BRACKET]);
    NoSpace(s, i);
    NoSpace(s, i + 1);
  }

  lemma {:induction false} ArrayBack(w: Writer, rd: Reader, s: bytes, i: nat, items: seq<Value>, indent: nat,
                                     pretty: bool)
    requires Inverts(w, rd) && Storable(Arr(items)) && At(s, i, Print(w, Arr(items), indent, pretty))
    ensures ValueAt(rd, s, i) == Done(Arr(items), i + |Print(w, Arr(items), indent, pretty)|)
    decreases items, |items| + 1
  {
    if items == [] {
      EmptyArray(rd, s, i);
    } else {
      var body := PrintItems(w, items, 0, indent, pretty);
      AtByte(s, i, OPEN_BRACKET, body);
      ItemsBack(w, rd, s, i + 1, items, 0, indent, pretty);
      assert items[0..] == items;
      ArrayIs(rd, s, i, items, i + 1 + |body|);
    }
  }

  // ---- Objects ----

  lemma AfterPairBack(w: Writer, s: bytes, j: nat, pairs: seq<Pair>, k: nat, indent: nat, pretty: bool)
    requires k < |pairs| && At(s, j, AfterPair(w, pairs, k, indent, pretty))
    ensures Ends(s, j)
    ensures if k + 1 == |pairs| then Sees(s, SkipSpace(s, j), CLOSE_BRACE)
                                     && SkipSpace(s, j) + 1 == j + |AfterPair(w, pairs, k, indent, pretty)|
            else Sees(s, j, COMMA) && At(s, j + 1, PrintPairs(w, pairs, k + 1, indent, pretty))
  {
    if k + 1 == |pairs| {
      CloseBack(s, j, CLOSE_BRACE, indent, pretty);
    } else {
      AtByte(s, j, COMMA, PrintPairs(w, pairs, k + 1, indent, pretty));
    }
  }

  /** After the colon, and its space in pretty mode, comes the value. */
  lemma ColonBack(s: bytes, i: nat, pretty: bool, text: bytes)
    requires At(s, i, Colon(pretty) + text) && text != [] && BeginsValue(text[0])
    ensures Sees(s, i, COLON) && SkipSpace(s, i) == i
    ensures At(s, i + |Colon(pretty)|, text) && SkipSpace(s, i + 1) == i + |Colon(pretty)|
  {
    AtAppend(s, i, Colon(pretty), text);
    AtFirst(s, i, Colon(pretty));
    AtFirst(s, i + |Colon(pretty)|, text);
    NoSpace(s, i);
    NoSpace(s, i + |Colon(pretty)|);
    if pretty { assert Same(s, i, Colon(pretty), 1); }
  }

  lemma PairIs(rd: Reader, s: bytes, i: nat, key: bytes, j: nat, v: Value, n: nat)
    requires i <= |s| && SkipSpace(s, i) < j <= |s| && rd.key(s, SkipSpace(s, i)) == Done(key, j)
    requires SkipSpace(s, j) == j && Sees(s, j, COLON) && ValueAt(rd, s, j + 1) == Done(v, n)
    ensures PairAt(rd, s, i) == Done(Pair(key, v), n)
  {
  }

  /** The line of a pair: where its parts are. */
  lemma PairParts(w: Writer, rd: Reader, s: bytes, i: nat, key: bytes, text: bytes, after: bytes, indent: nat,
                  pretty: bool)
    requires Inverts(w, rd) && StorableKey(key) && text != [] && BeginsValue(text[0])
    requires At(s, i, NewLine(indent, pretty) + (w.key(key) + (Colon(pretty) + (text + after))))
    ensures var m := SkipSpace(s, i); var j := m + |w.key(key)|; var n := j + |Colon(pretty)|;
            && m == i + |NewLine(indent, pretty)| && m < j <= |s| && rd.key(s, m) == Done(key, j)
            && !Sees(s, m, CLOSE_BRACE)
            && SkipSpace(s, j) == j && Sees(s, j, COLON) && SkipSpace(s, j + 1) == n
            && At(s, n, text) && At(s, n + |text|, after)
  {
    assert KeyBackAt(w, rd, s, i + |NewLine(indent, pretty)|, key);
    LineParts(s, i, indent, pretty, w.key(key), Colon(pretty) + (text + after));
    var j := i + |NewLine(indent, pretty)| + |w.key(key)|;
    assert (text + after)[0] == text[0];
    ColonBack(s, j, pretty, text + after);
    AtAppend(s, j + |Colon(pretty)|, text, after);
  }

  lemma SetDistinct(pairs: seq<Pair>, k: nat)
    requires k < |pairs| && DistinctKeys(pairs) && 0 < |pairs[k].key| < MAX_KEY_LEN
    ensures SetPair(pairs[..k], pairs[k].key, pairs[k].value) == Some(pairs[..k + 1])
  {
    var before := pairs[..k];
    forall j | 0 <= j < k ensures before[j].key != pairs[k].key { assert pairs[j] == before[j]; }
    assert pairs[..k + 1] == before + [Pair(pairs[k].key, pairs[k].value)];
  }

  lemma LastPair(rd: Reader, s: bytes, i: nat, pairs: seq<Pair>, k: nat, j: nat)
    requires i <= |s| && k + 1 == |pairs| && PairAt(rd, s, i) == Done(pairs[k], j)
    requires DistinctKeys(pairs) && StorableKey(pairs[k].key) && Sees(s, SkipSpace(s, j), CLOSE_BRACE)
    ensures PairsAt(rd, s, i, pairs[..k]) == Done(pairs, SkipSpace(s, j) + 1)
  {
    SetDistinct(pairs, k);
    assert pairs[..k + 1] == pairs;
  }

  lemma MorePairs(rd: Reader, s: bytes, i: nat, pairs: seq<Pair>, k: nat, j: nat)
    requires i <= |s| && k < |pairs| && PairAt(rd, s, i) == Done(pairs[k], j)
    requires DistinctKeys(pairs) && StorableKey(pairs[k].key) && Sees(s, j, COMMA)
    ensures PairsAt(rd, s, i, pairs[..k]) == PairsAt(rd, s, j + 1, pairs[..k + 1])
  {
    SetDistinct(pairs, k);
    NoSpace(s, j);
  }

  /** Where the key and the value of pair k begin and end. */
  lemma PairAtParts(w: Writer, rd: Reader, s: bytes, i: nat, pairs: seq<Pair>, k: nat, indent: nat, pretty: bool)
    returns (colon: nat, n: nat, j: nat)
    requires Inverts(w, rd) && k < |pairs| && StorablePair(pairs[k])
    requires At(s, i, PrintPairs(w, pairs, k, indent, pretty))
    ensures var m := SkipSpace(s, i);
            m < colon <= |s| && rd.key(s, m) == Done(pairs[k].key, colon) && !Sees(s, m, CLOSE_BRACE)
    ensures SkipSpace(s, colon) == colon && Sees(s, colon, COLON) && SkipSpace(s, colon + 1) == n
    ensures At(s, n, Print(w, pairs[k].value, indent + 1, pretty))
    ensures j == n + |Print(w, pairs[k].value, indent + 1, pretty)|
    ensures At(s, j, AfterPair(w, pairs, k, indent, pretty))
    ensures j + |AfterPair(w, pairs, k, indent, pretty)| == i + |PrintPairs(w, pairs, k, indent, pretty)|
  {
    var key, text := pairs[k].key, Print(w, pairs[k].value, indent + 1, pretty);
    PrintBegins(w, rd, pairs[k].value, indent + 1, pretty);
    PairParts(w, rd, s, i, key, text, AfterPair(w, pairs, k, indent, pretty), indent, pretty);
    colon := i + |NewLine(indent, pretty)| + |w.key(key)|;
    n := colon + |Colon(pretty)|;
    j := n + |text|;
  }

  /** The pair at k is read back, and what follows it is in place. */
  lemma {:induction false} PairBack(w: Writer, rd: Reader, s: bytes, i: nat, pairs: seq<Pair>, k: nat,
                                    indent: nat, pretty: bool) returns (j: nat)
    requires Inverts(w, rd) && k < |pairs| && StorablePair(pairs[k])
    requires At(s, i, PrintPairs(w, pairs, k, indent, pretty))
    ensures PairAt(rd, s, i) == Done(pairs[k], j) && !Sees(s, SkipSpace(s, i), CLOSE_BRACE)
    ensures At(s, j, AfterPair(w, pairs, k, indent, pretty))
    ensures j + |AfterPair(w, pairs, k, indent, pretty)| == i + |PrintPairs(w, pairs, k, indent, pretty)|
    decreases pairs, |pairs| - k, 0
  {
    var colon, n;
    colon, n, j := PairAtParts(w, rd, s, i, pairs, k, indent, pretty);
    AfterPairBack(w, s, j, pairs, k, indent, pretty);
    ValueBack(w, rd, s, n, pairs[k].value, indent + 1, pretty);
    ValueSkip(rd, s, colon + 1);
    PairIs(rd, s, i, pairs[k].key, colon, pairs[k].value, j);
  }

  lemma AfterPairLength(w: Writer, pairs: seq<Pair>, k: nat, indent: nat, pretty: bool)
    requires k + 1 < |pairs|
    ensures |AfterPair(w, pairs, k, indent, pretty)| == 1 + |PrintPairs(w, pairs, k + 1, indent, pretty)|
  {
  }

  /** The pairs from k on stand one after another from i on, up to the closing brace. */
  ghost predicate Chain(rd: Reader, s: bytes, i: nat, pairs: seq<Pair>, k: nat, end: nat)
    requires k < |pairs|
    decreases |pairs| - k
  {
    && i <= |s| && PairAt(rd, s, i).Done? && PairAt(rd, s, i).value == pairs[k]
    && var j := PairAt(rd, s, i).next;
       if k + 1 == |pairs| then Sees(s, SkipSpace(s, j), CLOSE_BRACE) && end == SkipSpace(s, j) + 1
       else Sees(s, j, COMMA) && Chain(rd, s, j + 1, pairs, k + 1, end)
  }

  lemma {:induction false} PairsChain(w: Writer, rd: Reader, s: bytes, i: nat, pairs: seq<Pair>, k: nat,
                                      indent: nat, pretty: bool)
    requires Inverts(w, rd) && k < |pairs| && forall j :: 0 <= j < |pairs| ==> StorablePair(pairs[j])
    requires At(s, i, PrintPairs(w, pairs, k, indent, pretty))
    ensures Chain(rd, s, i, pairs, k, i + |PrintPairs(w, pairs, k, indent, pretty)|)
    decreases pairs, |pairs| - k, 1
  {
    assert StorablePair(pairs[k]);
    var j := PairBack(w, rd, s, i, pairs, k, indent, pretty);
    AfterPairBack(w, s, j, pairs, k, indent, pretty);
    if k + 1 < |pairs| {
      AfterPairLength(w, pairs, k, indent, pretty);
      PairsChain(w, rd, s, j + 1, pairs, k + 1, indent, pretty);
    }
  }

  lemma {:induction false} ChainParses(rd: Reader, s: bytes, i: nat, pairs: seq<Pair>, k: nat, end: nat)
    requires k < |pairs| && Chain(rd, s, i, pairs, k, end)
    requires DistinctKeys(pairs) && forall j :: 0 <= j < |pairs| ==> StorableKey(pairs[j].key)
    ensures PairsAt(rd, s, i, pairs[..k]) == Done(pairs, end)
    decreases |pairs| - k
  {
    var j := PairAt(rd, s, i).next;
    if k + 1 == |pairs| {
      LastPair(rd, s, i, pairs, k, j);
    } else {
      ChainParses(rd, s, j + 1, pairs, k + 1, end);
      MorePairs(rd, s, i, pairs, k, j);
    }
  }

  lemma {:induction false} PairsBack(w: Writer, rd: Reader, s: bytes, i: nat, pairs: seq<Pair>, indent: nat,
                                     pretty: bool)
    requires Inverts(w, rd) && pairs != [] && Storable(Obj(pairs)) && At(s, i, PrintPairs(w, pairs, 0, indent, pretty))
    ensures PairsAt(rd, s, i, []) == Done(pairs, i + |PrintPairs(w, pairs, 0, indent, pretty)|)
    ensures !Sees(s, SkipSpace(s, i), CLOSE_BRACE)
    decreases pairs, |pairs| + 1
  {
    forall j | 0 <= j < |pairs| ensures StorableKey(pairs[j].key) { assert StorablePair(pairs[j]); }
    assert StorablePair(pairs[0]);
    PairsChain(w, rd, s, i, pairs, 0, indent, pretty);
    ChainParses(rd, s, i, pairs, 0, i + |PrintPairs(w, pairs, 0, indent, pretty)|);
    assert pairs[..0] == [];
    var j := PairBack(w, rd, s, i, pairs, 0, indent, pretty);
  }

  lemma ObjectIs(rd: Reader, s: bytes, i: nat, pairs: seq<Pair>, n: nat)
    requires Sees(s, i, OPEN_BRACE) && !Sees(s, SkipSpace(s, i + 1), CLOSE_BRACE)
    requires PairsAt(rd, s, SkipSpace(s, i + 1), []) == Done(pairs, n)
    ensures ValueAt(rd, s, i) == Done(Obj(pairs), n)
  {
    NoSpace(s, i);
  }

  lemma EmptyObject(rd: Reader, s: bytes, i: nat)
    requires At(s, i, [OPEN_BRACE] + [CLOSE_BRACE])
    ensures ValueAt(rd, s, i) == Done(Obj([]), i + 2)
  {
    AtByte(s, i, OPEN_BRACE, [CLOSE_BRACE]);
    AtFirst(s, i + 1, [CLOSE_BRACE]);
    NoSpace(s, i);
    NoSpace(s, i + 1);
  }

  lemma {:induction false} ObjectBack(w: Writer, rd: Reader, s: bytes, i: nat, pairs: seq<Pair>, indent: nat,
                                      pretty: bool)
    requires Inverts(w, rd) && Storable(Obj(pairs)) && At(s, i, Print(w, Obj(pairs), indent, pretty))
    ensures ValueAt(rd, s, i) == Done(Obj(pairs), i + |Print(w, Obj(pairs), indent, pretty)|)
    decreases pairs, |pairs| + 2
  {
    if pairs == [] {
      EmptyObject(rd, s, i);
    } else {
      var body := PrintPairs(w, pairs, 0, indent, pretty);
      AtByte(s, i, OPEN_BRACE, body);
      PairsBack(w, rd, s, i + 1, pairs, indent, pretty);
      PairsSkip(rd, s, i + 1, []);
      ObjectIs(rd, s, i, pairs, i + 1 + |body|);
    }
  }

  lemma ScalarValueBack(w: Writer, rd: Reader, s: bytes, i: nat, v: Value)
    requires Inverts(w, rd) && StorableScalar(v) && At(s, i, w.scalar(v)) && Ends(s, i + |w.scalar(v)|)
    ensures ValueAt(rd, s, i) == Done(v, i + |w.scalar(v)|)
  {
    assert ScalarBackAt(w, rd, s, i, v);
    AtFirst(s, i, w.scalar(v));
    NoSpace(s, i);
  }

  /** A value printed anywhere in a text is parsed back, as long as no number runs on after it. */
  lemma {:induction false} ValueBack(w: Writer, rd: Reader, s: bytes, i: nat, v: Value, indent: nat, pretty: bool)
    requires Inverts(w, rd) && Storable(v) && At(s, i, Print(w, v, indent, pretty))
    requires Ends(s, i + |Print(w, v, indent, pretty)|)
    ensures ValueAt(rd, s, i) == Done(v, i + |Print(w, v, indent, pretty)|)
    decreases v, 0
  {
    match v
    case Arr(items) => ArrayBack(w, rd, s, i, items, indent, pretty);
    case Obj(pairs) => ObjectBack(w, rd, s, i, pairs, indent, pretty);
    case _ => ScalarValueBack(w, rd, s, i, v);
  }

  /** Parsing the text of a well-formed value gives the value back, compact and pretty, at any nesting. */
  lemma RoundTrip(show: Shower, read: NumberReader, v: Value, pretty: bool)
    requires ReadsIntegers(read) && Storable(v)
    ensures Deserialize(read, Serialize(show, v, pretty)) == Some(v)
  {
    var w, rd := JsonWriter(show), JsonReader(read);
    var s := Serialize(show, v, pretty);
    JsonInverts(show, read);
    PrintBegins(w, rd, v, 0, pretty);
    assert s[0..|s|] == s;
    SliceAt(s, 0, s);
    ValueBack(w, rd, s, 0, v, 0, pretty);
  }
}
