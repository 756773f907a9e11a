/** Objects and arrays: what include/dict.h prints for them and the grammar its parser follows, over any way to
    write and read the values without parts. */
module JsonTree {
  import opened Ascii
  import opened Prelude
  import opened Json

  // ---- Printing ----

  datatype Writer = Writer(scalar: Value -> bytes, key: bytes -> bytes)

  /** A line break and two spaces a level, in pretty mode. */
  function NewLine(indent: nat, pretty: bool): bytes {
    if pretty then [LF] + Spaces(2 * indent) else []
  }

  function Colon(pretty: bool): bytes {
    if pretty then [COLON, SPACE] else [COLON]
  }

  /** The text of a value.  Children start on lines indented like the container itself. */
  function Print(w: Writer, v: Value, indent: nat, pretty: bool): bytes
    decreases v, 0
  {
    match v
    case Arr(items) =>
      [OPEN_BRACKET] + (if items == [] then [CLOSE_BRACKET] else PrintItems(w, items, 0, indent, pretty))
    case Obj(pairs) =>
      [OPEN_BRACE] + (if pairs == [] then [CLOSE_BRACE] else PrintPairs(w, pairs, 0, indent, pretty))
    case _ => w.scalar(v)
  }

  /** The items from k on, each on its line, and the closing line. */
  function PrintItems(w: Writer, items: seq<Value>, k: nat, indent: nat, pretty: bool): bytes
    requires k < |items|
    decreases items, |items| - k, 1
  {
    NewLine(indent, pretty) + (Print(w, items[k], indent + 1, pretty) + AfterItem(w, items, k, indent, pretty))
  }

  function AfterItem(w: Writer, items: seq<Value>, k: nat, indent: nat, pretty: bool): bytes
    requires k < |items|
    decreases items, |items| - k, 0
  {
    if k + 1 == |items| then NewLine(indent, pretty) + [CLOSE_BRACKET]
    else [COMMA] + PrintItems(w, items, k + 1, indent, pretty)
  }

  function PrintPairs(w: Writer, pairs: seq<Pair>, k: nat, indent: nat, pretty: bool): bytes
    requires k < |pairs|
    decreases pairs, |pairs| - k, 1
  {
    NewLine(indent, pretty)
    + (w.key(pairs[k].key)
       + (Colon(pretty) + (Print(w, pairs[k].value, indent + 1, pretty) + AfterPair(w, pairs, k, indent, pretty))))
  }

  function AfterPair(w: Writer, pairs: seq<Pair>, k: nat, indent: nat, pretty: bool): bytes
    requires k < |pairs|
    decreases pairs, |pairs| - k, 0
  {
    if k + 1 == |pairs| then NewLine(indent, pretty) + [CLOSE_BRACE]
    else [COMMA] + PrintPairs(w, pairs, k + 1, indent, pretty)
  }

  // ---- Parsing ----

  datatype Reader = Reader(scalar: (bytes, nat) -> Parsed<Value>, key: (bytes, nat) -> Parsed<bytes>)

  /** A reader's result counts when it ends inside the text, past where it began. */
  function Within<T>(p: Parsed<T>, s: bytes, i: nat): (r: Parsed<T>)
    ensures r.Done? ==> r == p && i < r.next <= |s|
  {
    if p.Done? && i < p.next <= |s| then p else Fail
  }

  /** dict_parse_value. */
  function ValueAt(rd: Reader, s: bytes, i: nat): (r: Parsed<Value>)
    requires i <= |s|
    ensures r.Done? ==> i < r.next <= |s|
    decreases |s| - i, 2
  {
    var k := SkipSpace(s, i);
    if Sees(s, k, OPEN_BRACE) then ObjectAt(rd, s, k)
    else if Sees(s, k, OPEN_BRACKET) then ArrayAt(rd, s, k)
    else Within(rd.scalar(s, k), s, k)
  }

  function ArrayAt(rd: Reader, s: bytes, i: nat): (r: Parsed<Value>)
    requires i < |s|
    ensures r.Done? ==> i < r.next <= |s|
    decreases |s| - i, 1
  {
    var m := SkipSpace(s, i + 1);
    if Sees(s, m, CLOSE_BRACKET) then Done(Arr([]), m + 1)
    else
      match ItemsAt(rd, s, m)
      case Fail => Fail
      case Done(items, next) => Done(Arr(items), next)
  }

  /** One item or more, up to the closing bracket. */
  function ItemsAt(rd: Reader, s: bytes, i: nat): (r: Parsed<seq<Value>>)
    requires i <= |s|
    ensures r.Done? ==> i < r.next <= |s|
    decreases |s| - i, 3
  {
    match ValueAt(rd, s, i)
    case Fail => Fail
    case Done(v, j) =>
      var m := SkipSpace(s, j);
      if Sees(s, m, COMMA) then
        match ItemsAt(rd, s, SkipSpace(s, m + 1))
        case Fail => Fail
        case Done(items, next) => Done([v] + items, next)
      else if Sees(s, m, CLOSE_BRACKET) then Done([v], m + 1)
      else Fail
  }

  function ObjectAt(rd: Reader, s: bytes, i: nat): (r: Parsed<Value>)
    requires i < |s|
    ensures r.Done? ==> i < r.next <= |s|
    decreases |s| - i, 1
  {
    var m := SkipSpace(s, i + 1);
    if Sees(s, m, CLOSE_BRACE) then Done(Obj([]), m + 1)
    else
      match PairsAt(rd, s, m, [])
      case Fail => Fail
      case Done(pairs, next) => Done(Obj(pairs), next)
  }

  /** The index of a key, from k on; the length when it is absent. */
  function KeyIndex(pairs: seq<Pair>, key: bytes, k: nat): (n: nat)
    requires k <= |pairs|
    ensures k <= n <= |pairs| && (n < |pairs| ==> pairs[n].key == key) && forall j :: k <= j < n ==> pairs[j].key != key
    decreases |pairs| - k
  {
    if k == |pairs| || pairs[k].key == key then k else KeyIndex(pairs, key, k + 1)
  }

  /** dict_object_set: a key that is already there gets the new value in its old place. */
  function SetPair(pairs: seq<Pair>, key: bytes, v: Value): Option<seq<Pair>> {
    if key == [] || |key| >= MAX_KEY_LEN then None
    else
      var k := KeyIndex(pairs, key, 0);
      Some(if k < |pairs| then pairs[k := Pair(pairs[k].key, v)] else pairs + [Pair(key, v)])
  }

  /** A key and its value. */
  function PairAt(rd: Reader, s: bytes, i: nat): (r: Parsed<Pair>)
    requires i <= |s|
    ensures r.Done? ==> i < r.next <= |s|
    decreases |s| - i, 3
  {
    var k := SkipSpace(s, i);
    match Within(rd.key(s, k), s, k)
    case Fail => Fail
    case Done(key, j) =>
      var m := SkipSpace(s, j);
      if !Sees(s, m, COLON) then Fail
      else
        match ValueAt(rd, s, m + 1)
        case Fail => Fail
        case Done(v, next) => Done(Pair(key, v), next)
  }

  /** One pair or more, up to the closing brace, added to those before. */
  function PairsAt(rd: Reader, s: bytes, i: nat, before: seq<Pair>): (r: Parsed<seq<Pair>>)
    requires i <= |s|
    ensures r.Done? ==> i < r.next <= |s|
    decreases |s| - i, 4
  {
    match PairAt(rd, s, i)
    case Fail => Fail
    case Done(p, j) =>
      match SetPair(before, p.key, p.value)
      case None => Fail
      case Some(pairs) =>
        var m := SkipSpace(s, j);
        if Sees(s, m, COMMA) then PairsAt(rd, s, m + 1, pairs)
        else if Sees(s, m, CLOSE_BRACE) then Done(pairs, m + 1)
        else Fail
  }

  // ---- JSON ----

  /** dict_serialize_value_pretty. */
  function JsonWriter(show: Shower): Writer {
    Writer(v => ScalarText(show, v), Quoted)
  }

  function Serialize(show: Shower, v: Value, pretty: bool): bytes {
    Print(JsonWriter(show), v, 0, pretty)
  }

  function JsonReader(read: NumberReader): Reader {
    Reader((s: bytes, i: nat) => ScalarAt(read, s, i), KeyAt)
  }

  /** dict_deserialize_json_len: an empty text is an empty object, and nothing but space may follow. */
  function Deserialize(read: NumberReader, s: bytes): Option<Value> {
    if s == [] then Some(Obj([]))
    else
      match ValueAt(JsonReader(read), s, 0)
      case Fail => None
      case Done(v, j) => if SkipSpace(s, j) == |s| then Some(v) else None
  }
}
