/** The DWARF line-number program that src/b2obj.c emits for one function with a line map, and the
    line state machine of section 6.2 of DWARF version 4 that a debugger runs over it. */
module LineProgram {
  import opened Prelude
  import opened Leb128

  /** One entry of the line map: code from `pc` on comes from this source position. */
  datatype Entry = Entry(pc: nat, line: nat, file: nat, col: nat)

  datatype Op =
    | SetAddressPlaceholder        // DW_LNE_set_address, eight zero bytes patched by relocation
    | SetFile(file: nat)
    | SetColumn(col: nat)
    | AdvancePc(n: nat)
    | AdvanceLine(d: int)
    | Copy
    | EndSequence

  // ---- The consumer ----

  datatype Row = Row(address: nat, line: int, file: nat, col: nat)

  /** The registers that the emitter uses; addresses count from the function start. */
  datatype Machine = Machine(address: nat, line: int, file: nat, col: nat, rows: seq<Row>)

  const RESET := Machine(0, 1, 1, 0, [])

  function Do(m: Machine, op: Op): Machine {
    match op
    case SetAddressPlaceholder => m.(address := 0)
    case SetFile(f) => m.(file := f)
    case SetColumn(c) => m.(col := c)
    case AdvancePc(n) => m.(address := m.address + n)
    case AdvanceLine(d) => m.(line := m.line + d)
    case Copy => m.(rows := m.rows + [Row(m.address, m.line, m.file, m.col)])
    case EndSequence => m.(rows := m.rows + [Row(m.address, m.line, m.file, m.col)])
  }

  function DoAll(m: Machine, ops: seq<Op>): Machine {
    if ops == [] then m else Do(DoAll(m, ops[..|ops| - 1]), ops[|ops| - 1])
  }

  datatype Position = Position(line: int, file: nat, col: nat)

  /** The position of the last row at or below pc. */
  function PositionAt(rows: seq<Row>, pc: nat): Option<Position> {
    if rows == [] then None
    else
      var last := rows[|rows| - 1];
      if last.address <= pc then Some(Position(last.line, last.file, last.col)) else PositionAt(rows[..|rows| - 1], pc)
  }

  /** The position of the last map entry at or below pc. */
  function MapAt(es: seq<Entry>, pc: nat): Option<Position> {
    if es == [] then None
    else
      var last := es[|es| - 1];
      if last.pc <= pc then Some(Position(last.line, last.file, last.col)) else MapAt(es[..|es| - 1], pc)
  }

  function LineOf(p: Option<Position>): Option<int> {
    if p.Some? then Some(p.value.line) else None
  }

  function FileOf(p: Option<Position>): Option<nat> {
    if p.Some? then Some(p.value.file) else None
  }

  function ColumnOf(p: Option<Position>): Option<nat> {
    if p.Some? then Some(p.value.col) else None
  }

  // ---- The emitter ----

  /** The emitter's loop variables after it has seen some entries. */
  datatype Emission = Emission(ops: seq<Op>, prevPc: nat, curLine: nat, curFile: nat)

  function Ahead(pc: nat, prevPc: nat): nat {
    if pc > prevPc then pc - prevPc else 0
  }

  function AddIf(ops: seq<Op>, cond: bool, op: Op): seq<Op> {
    if cond then ops + [op] else ops
  }

  function Begin(es: seq<Entry>): Emission
    requires es != []
  {
    Emission(AddIf([SetAddressPlaceholder], es[0].file != 0, SetFile(es[0].file)), 0, 1, es[0].file)
  }

  /** Advance the pc and change the file, if needed. */
  function AddPlace(x: Emission, e: Entry): seq<Op> {
    AddIf(AddIf(x.ops, e.pc > x.prevPc, AdvancePc(Ahead(e.pc, x.prevPc))), e.file != x.curFile, SetFile(e.file))
  }

  /** Set the column and advance the line, if needed. */
  function AddLine(ops: seq<Op>, x: Emission, e: Entry): seq<Op> {
    AddIf(AddIf(ops, e.col != 0, SetColumn(e.col)), e.line != x.curLine, AdvanceLine(e.line - x.curLine))
  }

  /** ... and emit the row. */
  function AddRow(ops: seq<Op>, x: Emission, e: Entry): seq<Op> {
    AddLine(ops, x, e) + [Copy]
  }

  /** The program extended by the instructions for one entry that is not skipped. */
  function AddEntry(x: Emission, e: Entry): seq<Op> {
    AddRow(AddPlace(x, e), x, e)
  }

  /** Both de-duplication rules. */
  predicate Skipped(x: Emission, es: seq<Entry>, i: nat)
    requires i < |es|
  {
    i > 0 &&
    ((es[i].line == es[i - 1].line && es[i].pc == es[i - 1].pc) ||
     (es[i].line == x.curLine && es[i].file == x.curFile))
  }

  function EmitEntry(x: Emission, es: seq<Entry>, i: nat): Emission
    requires i < |es|
  {
    var e := es[i];
    if Skipped(x, es, i) then x
    else Emission(AddEntry(x, e), if e.pc > x.prevPc then e.pc else x.prevPc, e.line, e.file)
  }

  /** The emission after the first n entries. */
  function Emitted(es: seq<Entry>, n: nat): Emission
    requires es != [] && n <= |es|
  {
    if n == 0 then Begin(es) else EmitEntry(Emitted(es, n - 1), es, n - 1)
  }

  /** The whole program of a function. */
  function Program(es: seq<Entry>, codeLen: nat): seq<Op>
    requires es != []
  {
    Finish(Emitted(es, |es|), codeLen)
  }

  function Finish(x: Emission, codeLen: nat): seq<Op> {
    AddIf(x.ops, codeLen > x.prevPc, AdvancePc(Ahead(codeLen, x.prevPc))) + [EndSequence]
  }

  // ---- The program says what the line map says ----

  ghost predicate Nondecreasing(es: seq<Entry>) {
    forall i :: 0 < i < |es| ==> es[i - 1].pc <= es[i].pc
  }

  /** An entry that repeats the line and pc of the one before it, whatever its file. */
  predicate Repeats(es: seq<Entry>, i: nat)
    requires i < |es|
  {
    i > 0 && es[i].line == es[i - 1].line && es[i].pc == es[i - 1].pc
  }

  /** The file the emitter has in mind after n entries: repeating entries do not change it. */
  function FileInMind(es: seq<Entry>, n: nat): nat
    requires es != [] && n <= |es|
  {
    if n == 0 then es[0].file
    else if Repeats(es, n - 1) then FileInMind(es, n - 1)
    else es[n - 1].file
  }

  /** The file register after n entries.  It starts at 1, and a first file 0 is not announced. */
  function FileRegister(es: seq<Entry>, n: nat): nat
    requires es != [] && n <= |es|
  {
    if n == 0 then (if es[0].file != 0 then es[0].file else 1)
    else if FileInMind(es, n) == FileInMind(es, n - 1) then FileRegister(es, n - 1)
    else FileInMind(es, n)
  }

  /** Entry i gets no row: it repeats the one before it, or has its line and the file that is in mind. */
  predicate Passed(es: seq<Entry>, i: nat)
    requires i < |es|
  {
    Repeats(es, i) || (i > 0 && es[i].line == es[i - 1].line && es[i].file == FileInMind(es, i))
  }

  /** The column register after n entries: that of the last entry with a row and a column, 0 at first. */
  function ColumnRegister(es: seq<Entry>, n: nat): nat
    requires n <= |es|
  {
    if n == 0 then 0
    else if Passed(es, n - 1) || es[n - 1].col == 0 then ColumnRegister(es, n - 1)
    else es[n - 1].col
  }

  /** What the rows for the first n entries say of pc. */
  function Shown(es: seq<Entry>, n: nat, pc: nat): Option<Position>
    requires es != [] && n <= |es|
  {
    if n == 0 then None
    else if es[n - 1].pc <= pc then Some(Position(es[n - 1].line, FileRegister(es, n), ColumnRegister(es, n)))
    else Shown(es, n - 1, pc)
  }

  /** The state of the machine after the instructions of x mirrors the emitter's after n entries. */
  ghost predicate InStep(es: seq<Entry>, n: nat, x: Emission)
    requires es != [] && n <= |es|
  {
    var m := DoAll(RESET, x.ops);
    && m.address == x.prevPc && m.line == x.curLine && m.file == FileRegister(es, n) && x.curFile == FileInMind(es, n)
    && m.col == ColumnRegister(es, n)
    && (n > 0 ==> x.prevPc <= es[n - 1].pc && x.curLine == es[n - 1].line)
    && (n == 0 ==> x.prevPc == 0 && m.rows == [])
    && Agrees(m.rows, es, n)
  }

  ghost predicate Agrees(rows: seq<Row>, es: seq<Entry>, n: nat)
    requires es != [] && n <= |es|
  {
    forall pc: nat :: PositionAt(rows, pc) == Shown(es, n, pc)
  }

  lemma RowForEntry(rows: seq<Row>, es: seq<Entry>, n: nat)
    requires n < |es| && Agrees(rows, es, n)
    ensures Agrees(rows + [Row(es[n].pc, es[n].line, FileRegister(es, n + 1), ColumnRegister(es, n + 1))], es, n + 1)
  {
    var longer := rows + [Row(es[n].pc, es[n].line, FileRegister(es, n + 1), ColumnRegister(es, n + 1))];
    assert longer[..|rows|] == rows;
    forall pc: nat ensures PositionAt(longer, pc) == Shown(es, n + 1, pc) {
      assert PositionAt(rows, pc) == Shown(es, n, pc);
    }
  }

  lemma DoSnoc(m: Machine, ops: seq<Op>, op: Op)
    ensures DoAll(m, ops + [op]) == Do(DoAll(m, ops), op)
  {
    assert (ops + [op])[..|ops|] == ops;
  }

  lemma DoIf(m: Machine, ops: seq<Op>, cond: bool, op: Op)
    ensures DoAll(m, AddIf(ops, cond, op)) == if cond then Do(DoAll(m, ops), op) else DoAll(m, ops)
  {
    DoSnoc(m, ops, op);
  }

  function Announced(file: nat, x: Emission, e: Entry): nat {
    if e.file != x.curFile then e.file else file
  }

  lemma AddPlaceEffect(x: Emission, e: Entry)
    requires var m := DoAll(RESET, x.ops); m.address == x.prevPc <= e.pc
    ensures var m := DoAll(RESET, x.ops);
            DoAll(RESET, AddPlace(x, e)) == m.(address := e.pc, file := Announced(m.file, x, e))
  {
    var ops1 := AddIf(x.ops, e.pc > x.prevPc, AdvancePc(Ahead(e.pc, x.prevPc)));
    DoIf(RESET, x.ops, e.pc > x.prevPc, AdvancePc(Ahead(e.pc, x.prevPc)));
    DoIf(RESET, ops1, e.file != x.curFile, SetFile(e.file));
  }

  function ColumnSet(col: nat, e: Entry): nat {
    if e.col != 0 then e.col else col
  }

  lemma AddRowEffect(ops: seq<Op>, x: Emission, e: Entry)
    requires DoAll(RESET, ops).line == x.curLine
    ensures var m := DoAll(RESET, ops);
            var c := ColumnSet(m.col, e);
            DoAll(RESET, AddRow(ops, x, e)) == m.(line := e.line, col := c,
                                                  rows := m.rows + [Row(m.address, e.line, m.file, c)])
  {
    AddLineEffect(ops, x, e);
    DoSnoc(RESET, AddLine(ops, x, e), Copy);
  }

  lemma AddLineEffect(ops: seq<Op>, x: Emission, e: Entry)
    requires DoAll(RESET, ops).line == x.curLine
    ensures var m := DoAll(RESET, ops);
            DoAll(RESET, AddLine(ops, x, e)) == m.(line := e.line, col := ColumnSet(m.col, e))
  {
    var ops1 := AddIf(ops, e.col != 0, SetColumn(e.col));
    DoIf(RESET, ops, e.col != 0, SetColumn(e.col));
    DoIf(RESET, ops1, e.line != x.curLine, AdvanceLine(e.line - x.curLine));
  }

  /** One emitted entry moves the machine to the entry's address, line and file and adds one row. */
  lemma AddEntryEffect(x: Emission, e: Entry)
    requires var m := DoAll(RESET, x.ops); m.address == x.prevPc <= e.pc && m.line == x.curLine
    ensures var m := DoAll(RESET, x.ops);
            var f := Announced(m.file, x, e);
            var c := ColumnSet(m.col, e);
            DoAll(RESET, AddEntry(x, e)) == Machine(e.pc, e.line, f, c, m.rows + [Row(e.pc, e.line, f, c)])
  {
    AddPlaceEffect(x, e);
    AddRowEffect(AddPlace(x, e), x, e);
  }

  lemma BeginInStep(es: seq<Entry>)
    requires es != []
    ensures InStep(es, 0, Begin(es))
  {
    DoSnoc(RESET, [], SetAddressPlaceholder);
    assert [] + [SetAddressPlaceholder] == [SetAddressPlaceholder];
    DoIf(RESET, [SetAddressPlaceholder], es[0].file != 0, SetFile(es[0].file));
  }

  /** A skipped entry has the line that the machine already shows, and changes the file neither in the
      emitter nor in the machine. */
  lemma SkipInStep(es: seq<Entry>, n: nat, x: Emission)
    requires n < |es| && Nondecreasing(es) && InStep(es, n, x) && Skipped(x, es, n)
    ensures InStep(es, n + 1, x)
  {
    assert FileInMind(es, n + 1) == FileInMind(es, n) && FileRegister(es, n + 1) == FileRegister(es, n);
    assert ColumnRegister(es, n + 1) == ColumnRegister(es, n);
    var rows := DoAll(RESET, x.ops).rows;
    forall pc: nat ensures PositionAt(rows, pc) == Shown(es, n + 1, pc) {
      assert PositionAt(rows, pc) == Shown(es, n, pc);
    }
  }

  /** An entry that is not skipped gets its own row. */
  lemma RowInStep(es: seq<Entry>, n: nat, x: Emission, x': Emission)
    requires n < |es| && InStep(es, n, x) && FileInMind(es, n + 1) == es[n].file
    requires var e := es[n]; var f := FileRegister(es, n + 1); var c := ColumnRegister(es, n + 1);
             x'.prevPc == e.pc && x'.curLine == e.line && x'.curFile == e.file &&
             DoAll(RESET, x'.ops) == Machine(e.pc, e.line, f, c, DoAll(RESET, x.ops).rows + [Row(e.pc, e.line, f, c)])
    ensures InStep(es, n + 1, x')
  {
    RowForEntry(DoAll(RESET, x.ops).rows, es, n);
  }

  lemma EntryInStep(es: seq<Entry>, n: nat, x: Emission)
    requires n < |es| && Nondecreasing(es) && InStep(es, n, x)
    ensures InStep(es, n + 1, EmitEntry(x, es, n))
  {
    if Skipped(x, es, n) {
      SkipInStep(es, n, x);
    } else {
      AddEntryEffect(x, es[n]);
      assert FileInMind(es, n + 1) == es[n].file;
      assert Announced(DoAll(RESET, x.ops).file, x, es[n]) == FileRegister(es, n + 1);
      assert ColumnSet(DoAll(RESET, x.ops).col, es[n]) == ColumnRegister(es, n + 1);
      RowInStep(es, n, x, EmitEntry(x, es, n));
    }
  }

  lemma {:induction false} StaysInStep(es: seq<Entry>, n: nat)
    requires es != [] && n <= |es| && Nondecreasing(es)
    ensures InStep(es, n, Emitted(es, n))
  {
    if n == 0 {
      BeginInStep(es);
    } else {
      StaysInStep(es, n - 1);
      EntryInStep(es, n - 1, Emitted(es, n - 1));
    }
  }

  lemma RowAbove(rows: seq<Row>, row: Row, pc: nat)
    requires pc < row.address
    ensures PositionAt(rows + [row], pc) == PositionAt(rows, pc)
  {
    assert (rows + [row])[..|rows|] == rows;
  }

  lemma FinishEffect(x: Emission, codeLen: nat)
    requires DoAll(RESET, x.ops).address == x.prevPc
    ensures var m := DoAll(RESET, x.ops);
            var end := if codeLen > x.prevPc then codeLen else x.prevPc;
            DoAll(RESET, Finish(x, codeLen)).rows == m.rows + [Row(end, m.line, m.file, m.col)]
  {
    var ops := AddIf(x.ops, codeLen > x.prevPc, AdvancePc(Ahead(codeLen, x.prevPc)));
    DoIf(RESET, x.ops, codeLen > x.prevPc, AdvancePc(Ahead(codeLen, x.prevPc)));
    DoSnoc(RESET, ops, EndSequence);
  }

  /** The end of the sequence lies past every pc of the function. */
  lemma EndInStep(es: seq<Entry>, x: Emission, codeLen: nat, pc: nat)
    requires es != [] && InStep(es, |es|, x) && pc < codeLen
    ensures PositionAt(DoAll(RESET, Finish(x, codeLen)).rows, pc) == Shown(es, |es|, pc)
  {
    var m := DoAll(RESET, x.ops);
    FinishEffect(x, codeLen);
    RowAbove(m.rows, Row(if codeLen > x.prevPc then codeLen else x.prevPc, m.line, m.file, m.col), pc);
  }

  lemma ProgramShows(es: seq<Entry>, codeLen: nat, pc: nat)
    requires es != [] && Nondecreasing(es) && pc < codeLen
    ensures PositionAt(DoAll(RESET, Program(es, codeLen)).rows, pc) == Shown(es, |es|, pc)
  {
    StaysInStep(es, |es|);
    EndInStep(es, Emitted(es, |es|), codeLen, pc);
  }

  lemma {:induction false} ShownLine(es: seq<Entry>, n: nat, pc: nat)
    requires es != [] && n <= |es|
    ensures LineOf(Shown(es, n, pc)) == LineOf(MapAt(es[..n], pc))
  {
    if n > 0 {
      assert es[..n][..n - 1] == es[..n - 1];
      ShownLine(es, n - 1, pc);
    }
  }

  /** For every pc of the function the emitted program gives the line of the last map entry at or
      below it, in spite of both de-duplication rules. */
  lemma ProgramMatchesLineMap(es: seq<Entry>, codeLen: nat, pc: nat)
    requires es != [] && Nondecreasing(es) && pc < codeLen
    ensures LineOf(PositionAt(DoAll(RESET, Program(es, codeLen)).rows, pc)) == LineOf(MapAt(es, pc))
  {
    ProgramShows(es, codeLen, pc);
    ShownLine(es, |es|, pc);
    assert es[..|es|] == es;
  }

  // ---- The file ----

  /** Entry i is the last one at or below some pc of the function. */
  predicate Governs(es: seq<Entry>, i: nat, codeLen: nat)
    requires i < |es|
  {
    es[i].pc < codeLen && (i + 1 < |es| ==> es[i].pc < es[i + 1].pc)
  }

  /** The last entry at or before i that does not repeat the one before it. */
  function Opener(es: seq<Entry>, i: nat): (j: nat)
    requires i < |es|
    ensures j <= i && !Repeats(es, j) && forall k :: j < k <= i ==> Repeats(es, k)
  {
    if Repeats(es, i) then Opener(es, i - 1) else i
  }

  /** Some entry at or before i that does not repeat the one before it names a file; 0 is no file. */
  ghost predicate Named(es: seq<Entry>, i: nat)
    requires i < |es|
  {
    exists k :: 0 <= k <= i && !Repeats(es, k) && es[k].file != 0
  }

  /** The file a debugger shows for entry i: a file 0 at the beginning is not announced, and leaves file 1. */
  ghost function FileShown(es: seq<Entry>, i: nat): nat
    requires i < |es|
  {
    if Named(es, i) then es[Opener(es, i)].file else 1
  }

  lemma {:induction false} MindIsOpener(es: seq<Entry>, i: nat)
    requires i < |es|
    ensures FileInMind(es, i + 1) == es[Opener(es, i)].file
  {
    if Repeats(es, i) { MindIsOpener(es, i - 1); }
  }

  lemma NamedNext(es: seq<Entry>, i: nat)
    requires 0 < i < |es|
    ensures Named(es, i) <==> Named(es, i - 1) || (!Repeats(es, i) && es[i].file != 0)
  {
  }

  lemma {:induction false} RegisterIsShown(es: seq<Entry>, i: nat)
    requires i < |es|
    ensures FileRegister(es, i + 1) == FileShown(es, i)
  {
    MindIsOpener(es, i);
    if i == 0 {
      assert Named(es, 0) <==> es[0].file != 0;
      assert FileInMind(es, 1) == FileInMind(es, 0);
    } else {
      RegisterIsShown(es, i - 1);
      MindIsOpener(es, i - 1);
      NamedNext(es, i);
    }
  }

  /** Every entry that counts has the file of the entry that opens its repetitions, or 1 if none is named. */
  ghost predicate FilesKept(es: seq<Entry>, codeLen: nat)
    requires es != []
  {
    forall i :: 0 <= i < |es| && Governs(es, i, codeLen) ==> FileShown(es, i) == es[i].file
  }

  /** Which entry the position at pc comes from, among the first n. */
  lemma {:induction false} SomeGoverns(es: seq<Entry>, n: nat, codeLen: nat, pc: nat) returns (i: nat)
    requires es != [] && Nondecreasing(es) && n <= |es| && pc < codeLen && (n < |es| ==> pc < es[n].pc)
    ensures i == n ==> MapAt(es[..n], pc) == Shown(es, n, pc) == None
    ensures i != n ==>
      && i < n && Governs(es, i, codeLen)
      && MapAt(es[..n], pc) == Some(Position(es[i].line, es[i].file, es[i].col))
      && Shown(es, n, pc) == Some(Position(es[i].line, FileRegister(es, i + 1), ColumnRegister(es, i + 1)))
  {
    i := n;
    if n > 0 {
      assert es[..n][..n - 1] == es[..n - 1];
      if es[n - 1].pc <= pc {
        i := n - 1;
      } else {
        i := SomeGoverns(es, n - 1, codeLen, pc);
        if i == n - 1 { i := n; }
      }
    }
  }

  lemma {:induction false} GoverningIsShown(es: seq<Entry>, i: nat, n: nat, codeLen: nat)
    requires i < n <= |es| && Nondecreasing(es) && Governs(es, i, codeLen)
    ensures MapAt(es[..n], es[i].pc) == Some(Position(es[i].line, es[i].file, es[i].col))
    ensures Shown(es, n, es[i].pc) == Some(Position(es[i].line, FileRegister(es, i + 1), ColumnRegister(es, i + 1)))
  {
    if i < n - 1 {
      assert es[..n][..n - 1] == es[..n - 1];
      LaterIsHigher(es, i + 1, n - 1);
      GoverningIsShown(es, i, n - 1, codeLen);
    }
  }

  lemma {:induction false} LaterIsHigher(es: seq<Entry>, i: nat, j: nat)
    requires i <= j < |es| && Nondecreasing(es)
    ensures es[i].pc <= es[j].pc
  {
    if i < j { LaterIsHigher(es, i, j - 1); }
  }

  ghost predicate SamePosition(es: seq<Entry>, codeLen: nat, pc: nat)
    requires es != []
  {
    var shown, mapped := PositionAt(DoAll(RESET, Program(es, codeLen)).rows, pc), MapAt(es, pc);
    LineOf(shown) == LineOf(mapped) && FileOf(shown) == FileOf(mapped)
  }

  /** When the program gives every pc not only its line but also its file: exactly if every entry that counts
      has the file that is shown for it. */
  lemma FilesMatchExactly(es: seq<Entry>, codeLen: nat)
    requires es != [] && Nondecreasing(es)
    ensures (forall pc: nat :: pc < codeLen ==> SamePosition(es, codeLen, pc)) <==> FilesKept(es, codeLen)
  {
    assert es[..|es|] == es;
    if FilesKept(es, codeLen) {
      forall pc: nat | pc < codeLen ensures SamePosition(es, codeLen, pc) {
        ProgramShows(es, codeLen, pc);
        var i := SomeGoverns(es, |es|, codeLen, pc);
        if i < |es| { RegisterIsShown(es, i); }
      }
    }
    if forall pc: nat :: pc < codeLen ==> SamePosition(es, codeLen, pc) {
      forall i | 0 <= i < |es| && Governs(es, i, codeLen) ensures FileShown(es, i) == es[i].file {
        RegisterIsShown(es, i);
        assert SamePosition(es, codeLen, es[i].pc);
        ProgramShows(es, codeLen, es[i].pc);
        GoverningIsShown(es, i, |es|, codeLen);
      }
    }
  }

  lemma {:induction false} RegisterIsLast(es: seq<Entry>, n: nat)
    requires es != [] && n <= |es| && es[0].file != 0
    requires forall i :: 0 <= i < |es| && Repeats(es, i) ==> es[i].file == es[i - 1].file
    ensures FileRegister(es, n) == FileInMind(es, n) == if n == 0 then es[0].file else es[n - 1].file
  {
    if n > 0 { RegisterIsLast(es, n - 1); }
  }

  /** So it does for a map that begins with a file and has no entries of different files for one line at
      one pc. */
  lemma FilesMatch(es: seq<Entry>, codeLen: nat, pc: nat)
    requires es != [] && Nondecreasing(es) && pc < codeLen && es[0].file != 0
    requires forall i :: 0 <= i < |es| && Repeats(es, i) ==> es[i].file == es[i - 1].file
    ensures SamePosition(es, codeLen, pc)
  {
    forall i | 0 <= i < |es| ensures FileShown(es, i) == es[i].file {
      RegisterIsShown(es, i);
      RegisterIsLast(es, i + 1);
    }
    FilesMatchExactly(es, codeLen);
  }

  /** Not for every map: of two entries for one line at one pc the first de-duplication rule drops the
      second, with its file. */
  lemma RepeatedEntryLosesItsFile(line: nat, codeLen: nat)
    requires codeLen > 0
    ensures !SamePosition([Entry(0, line, 1, 0), Entry(0, line, 2, 0)], codeLen, 0)
  {
    var es := [Entry(0, line, 1, 0), Entry(0, line, 2, 0)];
    ProgramShows(es, codeLen, 0);
    assert FileInMind(es, 2) == FileInMind(es, 1) == 1 && FileRegister(es, 2) == FileRegister(es, 1) == 1;
    assert ColumnRegister(es, 2) == ColumnRegister(es, 1) == ColumnRegister(es, 0) == 0;
    assert Shown(es, 2, 0) == Some(Position(line, 1, 0));
    assert MapAt(es, 0) == Some(Position(line, 2, 0));
  }

  // ---- The column ----

  ghost predicate SameColumn(es: seq<Entry>, codeLen: nat, pc: nat)
    requires es != []
  {
    ColumnOf(PositionAt(DoAll(RESET, Program(es, codeLen)).rows, pc)) == ColumnOf(MapAt(es, pc))
  }

  /** Every entry that counts has the column that is in the register by then. */
  ghost predicate ColumnsKept(es: seq<Entry>, codeLen: nat) {
    forall i :: 0 <= i < |es| && Governs(es, i, codeLen) ==> ColumnRegister(es, i + 1) == es[i].col
  }

  /** When the program gives every pc its column: exactly if every entry that counts either has a row of its own
      and a column, or the column of the last entry before it that has both. */
  lemma ColumnsMatchExactly(es: seq<Entry>, codeLen: nat)
    requires es != [] && Nondecreasing(es)
    ensures (forall pc: nat :: pc < codeLen ==> SameColumn(es, codeLen, pc)) <==> ColumnsKept(es, codeLen)
  {
    assert es[..|es|] == es;
    if ColumnsKept(es, codeLen) {
      forall pc: nat | pc < codeLen ensures SameColumn(es, codeLen, pc) {
        ProgramShows(es, codeLen, pc);
        var i := SomeGoverns(es, |es|, codeLen, pc);
      }
    }
    if forall pc: nat :: pc < codeLen ==> SameColumn(es, codeLen, pc) {
      forall i | 0 <= i < |es| && Governs(es, i, codeLen) ensures ColumnRegister(es, i + 1) == es[i].col {
        assert SameColumn(es, codeLen, es[i].pc);
        ProgramShows(es, codeLen, es[i].pc);
        GoverningIsShown(es, i, |es|, codeLen);
      }
    }
  }

  /** Not for every map: the second de-duplication rule drops an entry on the same line, with its column. */
  lemma SameLineLosesItsColumn(line: nat, file: nat, codeLen: nat)
    requires codeLen > 1
    ensures !SameColumn([Entry(0, line, file, 1), Entry(1, line, file, 2)], codeLen, 1)
  {
    var es := [Entry(0, line, file, 1), Entry(1, line, file, 2)];
    ProgramShows(es, codeLen, 1);
    assert FileInMind(es, 1) == file && Passed(es, 1) && !Passed(es, 0);
    assert ColumnRegister(es, 2) == ColumnRegister(es, 1) == 1;
    assert Shown(es, 2, 1).value.col == 1 && MapAt(es, 1).value.col == 2;
  }

  // ---- The bytes ----

  /** Section 6.2.5 of DWARF version 4; 0 introduces the extended opcodes. */
  function Opcode(op: Op): byte {
    match op
    case Copy => 1
    case AdvancePc(_) => 2
    case AdvanceLine(_) => 3
    case SetFile(_) => 4
    case SetColumn(_) => 5
    case EndSequence => 0
    case SetAddressPlaceholder => 0
  }

  function Operand(op: Op): bytes {
    match op
    case Copy => []
    case AdvancePc(n) => Uleb(n)
    case AdvanceLine(d) => Sleb(d)
    case SetFile(f) => Uleb(f)
    case SetColumn(c) => Uleb(c)
    case EndSequence => Uleb(1) + [1]
    case SetAddressPlaceholder => Uleb(9) + ([2] + EIGHT_ZEROS)
  }

  const EIGHT_ZEROS: bytes := [0, 0, 0, 0, 0, 0, 0, 0]

  function Encode(op: Op): (s: bytes)
    ensures s != []
  {
    [Opcode(op)] + Operand(op)
  }

  function WithNat(r: Option<(nat, bytes)>, op: nat -> Op): Option<(Op, bytes)> {
    match r
    case None => None
    case Some((v, rest)) => Some((op(v), rest))
  }

  function ReadExtended(r: Option<(nat, bytes)>): Option<(Op, bytes)> {
    match r
    case None => None
    case Some((len, rest)) =>
      if len == 1 && |rest| >= 1 && rest[0] == 1 then Some((EndSequence, rest[1..]))
      else if len == 9 && |rest| >= 9 && rest[0] == 2 && rest[1..9] == EIGHT_ZEROS then
        Some((SetAddressPlaceholder, rest[9..]))
      else None
  }

  /** The next instruction of a line program, for the opcodes the emitter uses. */
  function ReadOp(s: bytes): Option<(Op, bytes)> {
    if s == [] then None
    else match s[0]
      case 1 => Some((Copy, s[1..]))
      case 2 => WithNat(ReadUleb(s[1..]), (n: nat) => AdvancePc(n))
      case 3 => (match ReadSleb(s[1..])
                 case None => None
                 case Some((d, rest)) => Some((AdvanceLine(d), rest)))
      case 4 => WithNat(ReadUleb(s[1..]), (n: nat) => SetFile(n))
      case 5 => WithNat(ReadUleb(s[1..]), (n: nat) => SetColumn(n))
      case 0 => ReadExtended(ReadUleb(s[1..]))
      case _ => None
  }

  /** The line state machine over the bytes of one sequence. */
  function RunBytes(m: Machine, s: bytes): Machine {
    DoAll(m, ReadAll(ReadOp, (op: Op) => op.EndSequence?, s))
  }

  lemma ReadEncoded(op: Op, rest: bytes)
    ensures ReadOp(Encode(op) + rest) == Some((op, rest))
  {
    var s := Encode(op) + rest;
    assert s[0] == Opcode(op) && s[1..] == Operand(op) + rest;
    match op
    case Copy => assert s[1..] == rest;
    case AdvancePc(n) => UlebRoundTrip(n, rest);
    case AdvanceLine(d) => SlebRoundTrip(d, rest);
    case SetFile(f) => UlebRoundTrip(f, rest);
    case SetColumn(c) => UlebRoundTrip(c, rest);
    case EndSequence => ReadEncodedEnd(rest);
    case SetAddressPlaceholder => ReadEncodedAddress(rest);
  }

  lemma ReadEncodedEnd(rest: bytes)
    ensures ReadExtended(ReadUleb(Operand(EndSequence) + rest)) == Some((EndSequence, rest))
  {
    UlebRoundTrip(1, [1] + rest);
    assert Operand(EndSequence) + rest == Uleb(1) + ([1] + rest);
    assert ([1] + rest)[1..] == rest;
  }

  lemma ReadEncodedAddress(rest: bytes)
    ensures ReadExtended(ReadUleb(Operand(SetAddressPlaceholder) + rest)) == Some((SetAddressPlaceholder, rest))
  {
    var tail := ([2] + EIGHT_ZEROS) + rest;
    UlebRoundTrip(9, tail);
    assert Operand(SetAddressPlaceholder) + rest == Uleb(9) + tail;
    assert tail[9..] == rest && tail[1..9] == EIGHT_ZEROS;
  }

  lemma {:induction false} EmittedNeverEnds(es: seq<Entry>, n: nat)
    requires es != [] && n <= |es|
    ensures forall i :: 0 <= i < |Emitted(es, n).ops| ==> !Emitted(es, n).ops[i].EndSequence?
  {
    if n > 0 { EmittedNeverEnds(es, n - 1); }
  }

  /** The instruction moves a register. */
  predicate Moves(op: Op) {
    match op
    case AdvancePc(n) => n > 0
    case AdvanceLine(d) => d != 0
    case SetColumn(c) => c != 0
    case _ => true
  }

  /** No instruction of a program stands still. */
  lemma {:induction false} EmittedMoves(es: seq<Entry>, n: nat, codeLen: nat)
    requires es != [] && n <= |es|
    ensures forall i :: 0 <= i < |Emitted(es, n).ops| ==> Moves(Emitted(es, n).ops[i])
    ensures n == |es| ==> forall i :: 0 <= i < |Program(es, codeLen)| ==> Moves(Program(es, codeLen)[i])
  {
    if n > 0 { EmittedMoves(es, n - 1, codeLen); }
  }

  /** Reading back the emitted bytes gives the program. */
  lemma ReadProgram(es: seq<Entry>, codeLen: nat, rest: bytes)
    requires es != []
    ensures RunBytes(RESET, Flatten(Encode, Program(es, codeLen)) + rest) == DoAll(RESET, Program(es, codeLen))
  {
    EmittedNeverEnds(es, |es|);
    forall op, r ensures InvertsAt(ReadOp, Encode, op, r) { ReadEncoded(op, r); }
    ReadAllEncoded(ReadOp, (op: Op) => op.EndSequence?, Encode, Program(es, codeLen), rest);
  }

  /** The emitted bytes, run by the state machine, give every pc the line the map gives it. */
  lemma EmittedBytesMatchLineMap(es: seq<Entry>, codeLen: nat, rest: bytes, pc: nat)
    requires es != [] && Nondecreasing(es) && pc < codeLen
    ensures var m := RunBytes(RESET, Flatten(Encode, Program(es, codeLen)) + rest);
            LineOf(PositionAt(m.rows, pc)) == LineOf(MapAt(es, pc))
  {
    ReadProgram(es, codeLen, rest);
    ProgramMatchesLineMap(es, codeLen, pc);
  }

  // ---- The emitting loop ----

  method PutOperand(b: Buffer, op: Op)
    modifies b
    ensures b.data == old(b.data) + Operand(op)
  {
    match op {
      case Copy =>
      case AdvancePc(n) => b.PutUleb(n);
      case AdvanceLine(d) => b.PutSleb(d);
      case SetFile(f) => b.PutUleb(f);
      case SetColumn(c) => b.PutUleb(c);
      case EndSequence => b.PutUleb(1); b.PutByte(1);
      case SetAddressPlaceholder => b.PutUleb(9); b.PutByte(2); b.PutBytes(EIGHT_ZEROS);
    }
  }

  method PutEncoded(b: Buffer, op: Op)
    modifies b
    ensures b.data == old(b.data) + Encode(op)
  {
    b.PutByte(Opcode(op));
    PutOperand(b, op);
    assert b.data == old(b.data) + ([Opcode(op)] + Operand(op));
  }

  /** `if (cond)` emit one instruction; the ghost arguments follow what was written since `start`. */
  method PutIf(b: Buffer, cond: bool, op: Op, ghost start: bytes, ghost ops: seq<Op>) returns (ghost ops': seq<Op>)
    requires b.data == start + Flatten(Encode, ops)
    modifies b
    ensures ops' == AddIf(ops, cond, op) && b.data == start + Flatten(Encode, ops')
  {
    ops' := AddIf(ops, cond, op);
    if cond {
      PutEncoded(b, op);
      FlattenSnoc(Encode, ops, op);
      Reassociate(start, Flatten(Encode, ops), Encode(op));
    }
  }

  method PutPlace(b: Buffer, x: Emission, e: Entry, ghost start: bytes)
    requires b.data == start + Flatten(Encode, x.ops)
    modifies b
    ensures b.data == start + Flatten(Encode, AddPlace(x, e))
  {
    ghost var ops := PutIf(b, e.pc > x.prevPc, AdvancePc(Ahead(e.pc, x.prevPc)), start, x.ops);
    ops := PutIf(b, e.file != x.curFile, SetFile(e.file), start, ops);
    assert ops == AddPlace(x, e);
  }

  method PutLine(b: Buffer, x: Emission, e: Entry, ghost start: bytes, ghost ops: seq<Op>)
    requires b.data == start + Flatten(Encode, ops)
    modifies b
    ensures b.data == start + Flatten(Encode, AddLine(ops, x, e))
  {
    ghost var ops1 := PutIf(b, e.col != 0, SetColumn(e.col), start, ops);
    ops1 := PutIf(b, e.line != x.curLine, AdvanceLine(e.line - x.curLine), start, ops1);
    assert ops1 == AddLine(ops, x, e);
  }

  method PutRow(b: Buffer, x: Emission, e: Entry, ghost start: bytes, ghost ops: seq<Op>)
    requires b.data == start + Flatten(Encode, ops)
    modifies b
    ensures b.data == start + Flatten(Encode, AddRow(ops, x, e))
  {
    PutLine(b, x, e, start, ops);
    ghost var ops1 := PutIf(b, true, Copy, start, AddLine(ops, x, e));
    assert ops1 == AddRow(ops, x, e);
  }

  /** The instructions for one entry. */
  method PutEntry(b: Buffer, x: Emission, e: Entry, ghost start: bytes)
    requires b.data == start + Flatten(Encode, x.ops)
    modifies b
    ensures b.data == start + Flatten(Encode, AddEntry(x, e))
  {
    PutPlace(b, x, e, start);
    PutRow(b, x, e, start, AddPlace(x, e));
  }

  /** The loop over the line map, between the set-address preamble and the end of the sequence.
      (Emission carries the operations already written so that they can be referred to; the source
      keeps only the last pc, line and file.) */
  method PutFunction(b: Buffer, es: seq<Entry>, codeLen: nat)
    requires es != []
    modifies b
    ensures b.data == old(b.data) + Flatten(Encode, Program(es, codeLen))
  {
    ghost var start := b.data;
    PutBegin(b, es);
    var x := Begin(es);
    var i := 0;
    while i < |es|
      invariant i <= |es|
      invariant x == Emitted(es, i)
      invariant b.data == start + Flatten(Encode, x.ops)
    {
      x := PutNext(b, es, i, x, start);
      i := i + 1;
    }
    PutEnd(b, x, codeLen, start);
  }

  /** The loop body. */
  method PutNext(b: Buffer, es: seq<Entry>, i: nat, x: Emission, ghost start: bytes) returns (x': Emission)
    requires i < |es| && b.data == start + Flatten(Encode, x.ops)
    modifies b
    ensures x' == EmitEntry(x, es, i) && b.data == start + Flatten(Encode, x'.ops)
  {
    var e := es[i];
    x' := x;
    if i > 0 && e.line == es[i - 1].line && e.pc == es[i - 1].pc { return; }
    if e.line == x.curLine && e.file == x.curFile && i > 0 { return; }
    PutEntry(b, x, e, start);
    x' := Emission(AddEntry(x, e), if e.pc > x.prevPc then e.pc else x.prevPc, e.line, e.file);
  }

  /** Advance to the end of the function and end the sequence. */
  method PutEnd(b: Buffer, x: Emission, codeLen: nat, ghost start: bytes)
    requires b.data == start + Flatten(Encode, x.ops)
    modifies b
    ensures b.data == start + Flatten(Encode, Finish(x, codeLen))
  {
    ghost var ops := PutIf(b, codeLen > x.prevPc, AdvancePc(Ahead(codeLen, x.prevPc)), start, x.ops);
    ops := PutIf(b, true, EndSequence, start, ops);
  }

  method PutBegin(b: Buffer, es: seq<Entry>)
    requires es != []
    modifies b
    ensures b.data == old(b.data) + Flatten(Encode, Begin(es).ops)
  {
    ghost var start := b.data;
    PutEncoded(b, SetAddressPlaceholder);
    FlattenOne(Encode, SetAddressPlaceholder);
    ghost var ops := PutIf(b, es[0].file != 0, SetFile(es[0].file), start, [SetAddressPlaceholder]);
  }
}
