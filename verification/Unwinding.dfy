/** Exception unwinding: the frame, mark and defer stacks of include/cyexc.h over the two registries, driven by
    the code src/gen.c emits for scopes, returns, defers and try statements. */
module Unwinding {
  import opened Prelude
  import opened Arenas
  import opened Registries

  /** A pending cleanup: a function and its captured argument. */
  datatype Thunk = Thunk(fn: nat, arg: nat)

  /** The lengths banked at try entry. */
  datatype Marks = Marks(str: nat, obj: nat, defer: nat)

  const MAX_FRAMES := 256
  const MAX_DEFERS := 1024
  const MAX_CATCH := 64

  /** The run-time state, with a history: the cleanups registered and those run, in order, and how many
      registrations the full stack dropped. */
  datatype Machine = Machine(strs: Arena<Pointer>, objs: Arena<Handle>, frames: seq<Marks>, defers: seq<Thunk>,
                             pushed: seq<Thunk>, ran: seq<Thunk>, dropped: nat)

  // ---- cyexc.h ----

  function DeferPush(m: Machine, d: Thunk): Machine {
    if |m.defers| >= MAX_DEFERS then m.(dropped := m.dropped + 1)
    else m.(defers := m.defers + [d], pushed := m.pushed + [d])
  }

  function DiscardOne(m: Machine): Machine {
    if m.defers == [] then m else m.(defers := m.defers[..|m.defers| - 1])
  }

  function DeferReleaseTo(m: Machine, mark: nat): Machine {
    if mark > |m.defers| then m
    else m.(defers := m.defers[..mark], ran := m.ran + Reverse(m.defers[mark..]))
  }

  function Bank(m: Machine): Machine {
    m.(frames := m.frames + [Marks(|m.strs.live|, |m.objs.live|, |m.defers|)])
  }

  function Pop(m: Machine): Machine {
    if m.frames == [] then m else m.(frames := m.frames[..|m.frames| - 1])
  }

  function ReleaseStrs(m: Machine, mark: nat): Machine {
    m.(strs := ReleaseTo(m.strs, mark, false))
  }

  function ReleaseObjs(m: Machine, mark: nat): Machine {
    m.(objs := ReleaseTo(m.objs, mark, true))
  }

  /** What the dispatch label does with the innermost frame: read its marks, pop it, run the pending
      cleanups, then release both registries. */
  function Dispatch(m: Machine): Machine
    requires m.frames != []
  {
    var k := m.frames[|m.frames| - 1];
    ReleaseObjs(ReleaseStrs(DeferReleaseTo(Pop(m), k.defer), k.str), k.obj)
  }

  // ---- Programs ----

  datatype Returned = Nothing | AString(p: Pointer) | AHandle(p: Pointer)

  /** A well-nested run, loops unrolled.  A scope takes a checkpoint of a registry where the compiler
      found that its body allocates in it. */
  datatype Stmt =
    | NewString(p: Pointer)
    | NewObject(h: Handle)
    | DetachString(p: Pointer)
    | DetachObject(p: Pointer)
    | Defer(d: Thunk)
    | Throw(id: nat)
    | Return(value: Returned)
    | Block(body: seq<Stmt>)
    | Iteration(body: seq<Stmt>, strScope: bool, objScope: bool)
    | Call(body: seq<Stmt>, strScope: bool, objScope: bool)
    | Try(body: seq<Stmt>, clauses: seq<Clause>)

  /** A catch clause; without an id it catches everything. */
  datatype Clause = Clause(id: Option<nat>, handler: seq<Stmt>)

  datatype Outcome = Fell | Returning(value: Returned) | Threw(id: nat) | Aborted

  /** The state, the cleanups of the statement list still to be replayed at its end, and how it ended. */
  datatype Result = Result(m: Machine, pending: seq<Thunk>, outcome: Outcome)

  /** The replay at a normal exit: each cleanup is dropped from the stack, then run. */
  function Replay(m: Machine, pending: seq<Thunk>): Machine
    decreases |pending|
  {
    if pending == [] then m
    else
      var d := pending[|pending| - 1];
      var n := DiscardOne(m);
      Replay(n.(ran := n.ran + [d]), pending[..|pending| - 1])
  }

  predicate Leaves(o: Outcome) {
    o.Fell? || o.Returning?
  }

  /** Falling or returning out of a block replays its cleanups; an exception or abort does not. */
  function EndBlock(r: Result): Result {
    Result(if Leaves(r.outcome) then Replay(r.m, r.pending) else r.m, [], r.outcome)
  }

  /** The end of a loop body, given the lengths at its start. */
  function EndIteration(r: Result, strScope: bool, strMark: nat, objScope: bool, objMark: nat): Result {
    if !r.outcome.Fell? then r
    else
      var m := if objScope then ReleaseObjs(r.m, objMark) else r.m;
      r.(m := if strScope then ReleaseStrs(m, strMark) else m)
  }

  /** The exit of a function, given the lengths at its entry.  A returned handle is detached first, a
      returned String is kept. */
  function EndCall(r: Result, strScope: bool, strMark: nat, objScope: bool, objMark: nat): Result {
    if !Leaves(r.outcome) then r
    else
      var v := if r.outcome.Fell? then Nothing else r.outcome.value;
      var m := if !objScope then r.m
               else if v.AHandle? then ReleaseObjs(r.m.(objs := ObjDetach(r.m.objs, v.p)), objMark)
               else ReleaseObjs(r.m, objMark);
      Result(if !strScope then m
             else if v.AString? then m.(strs := ReleaseKeeping(m.strs, strMark, v.p))
             else ReleaseStrs(m, strMark), [], Fell)
  }

  predicate Catches(c: Clause, id: nat) {
    c.id == None || c.id == Some(id)
  }

  /** The first clause that catches id, from k on; the emitted dispatch looks at the first 64 only. */
  function Catching(clauses: seq<Clause>, id: nat, k: nat): (i: nat)
    requires k <= |clauses|
    ensures k <= i <= |clauses| && (i < |clauses| ==> i < MAX_CATCH && Catches(clauses[i], id))
    ensures forall j :: k <= j < i && j < MAX_CATCH ==> !Catches(clauses[j], id)
    decreases |clauses| - k
  {
    if k == |clauses| || k >= MAX_CATCH then |clauses|
    else if Catches(clauses[k], id) then k
    else Catching(clauses, id, k + 1)
  }

  function Exec(s: Stmt, m: Machine): Result
    decreases s
  {
    match s
    case NewString(p) => Result(if p == 0 then m else m.(strs := Track(m.strs, p)), [], Fell)
    case NewObject(h) => Result(if h.ptr == 0 then m else m.(objs := Track(m.objs, h)), [], Fell)
    case DetachString(p) => Result(m.(strs := StrDetach(m.strs, p)), [], Fell)
    case DetachObject(p) => Result(m.(objs := ObjDetach(m.objs, p)), [], Fell)
    case Defer(d) => Result(DeferPush(m, d), [d], Fell)
    case Throw(id) => Result(m, [], Threw(id))
    case Return(value) => Result(m, [], Returning(value))
    case Block(body) => EndBlock(ExecAll(body, m))
    case Iteration(body, strScope, objScope) =>
      EndIteration(EndBlock(ExecAll(body, m)), strScope, |m.strs.live|, objScope, |m.objs.live|)
    case Call(body, strScope, objScope) =>
      EndCall(EndBlock(ExecAll(body, m)), strScope, |m.strs.live|, objScope, |m.objs.live|)
    case Try(body, clauses) =>
      if |m.frames| >= MAX_FRAMES then Result(m, [], Aborted)
      else
        var r := EndBlock(ExecAll(body, Bank(m)));
        if Leaves(r.outcome) then r.(m := Pop(r.m))
        else if r.outcome.Aborted? || r.m.frames == [] then r
        else
          var i := Catching(clauses, r.outcome.id, 0);
          if i < |clauses| then
            assert clauses[i] < s;
            EndBlock(ExecAll(clauses[i].handler, Dispatch(r.m)))
          else r.(m := Dispatch(r.m))
  }

  function ExecAll(ss: seq<Stmt>, m: Machine): Result
    decreases ss
  {
    if ss == [] then Result(m, [], Fell)
    else
      var r := Exec(ss[0], m);
      if !r.outcome.Fell? then r
      else
        var rest := ExecAll(ss[1..], r.m);
        Result(rest.m, r.pending + rest.pending, rest.outcome)
  }

  // ---- The frames ----

  /** Statements leave the frame stack as they found it, so a throw finds its own try on top. */
  lemma {:induction false} ReplayKeeps(m: Machine, pending: seq<Thunk>)
    ensures var n := Replay(m, pending);
            && n.frames == m.frames && n.strs == m.strs && n.objs == m.objs
            && n.dropped == m.dropped && n.pushed == m.pushed
    decreases |pending|
  {
    if pending != [] {
      var n := DiscardOne(m);
      ReplayKeeps(n.(ran := n.ran + [pending[|pending| - 1]]), pending[..|pending| - 1]);
    }
  }

  /** Whatever was registered is still registered, freed, or handed out, once. */
  ghost predicate Whole(m: Machine) {
    Conserved(m.strs) && Conserved(m.objs)
  }

  lemma DetachWhole(m: Machine, p: Pointer)
    requires Whole(m)
    ensures Conserved(StrDetach(m.strs, p)) && Conserved(ObjDetach(m.objs, p))
  {
    DetachConserves(m.strs, FirstIndex(m.strs.live, p, 0));
    DetachConserves(m.objs, LastIndex(m.objs.live, p, |m.objs.live|));
  }

  lemma ReleaseWhole(m: Machine, strMark: nat, objMark: nat)
    requires Whole(m)
    ensures Conserved(ReleaseTo(m.strs, strMark, false)) && Conserved(ReleaseTo(m.objs, objMark, true))
    ensures forall p :: Conserved(ReleaseKeeping(m.strs, strMark, p))
  {
    ReleaseConserves(m.strs, strMark, false);
    ReleaseConserves(m.objs, objMark, true);
    forall p ensures Conserved(ReleaseKeeping(m.strs, strMark, p)) { RetainConserves(m.strs, strMark, p); }
  }

  lemma EndCallWhole(r: Result, strScope: bool, strMark: nat, objScope: bool, objMark: nat)
    requires Whole(r.m)
    ensures Whole(EndCall(r, strScope, strMark, objScope, objMark).m)
  {
    ReleaseWhole(r.m, strMark, objMark);
    if r.outcome.Returning? && r.outcome.value.AHandle? {
      DetachWhole(r.m, r.outcome.value.p);
      ReleaseWhole(r.m.(objs := ObjDetach(r.m.objs, r.outcome.value.p)), strMark, objMark);
    }
  }

  /** Running from `before` leaves the frame stack as it was and loses no registered entry. */
  ghost predicate Steady(r: Result, before: Machine) {
    !r.outcome.Aborted? ==> r.m.frames == before.frames && (Whole(before) ==> Whole(r.m))
  }

  lemma EndIterationSteady(r: Result, m: Machine, s: Stmt)
    requires s.Iteration? && Steady(r, m)
    ensures Steady(EndIteration(r, s.strScope, |m.strs.live|, s.objScope, |m.objs.live|), m)
  {
    if Whole(r.m) { ReleaseWhole(r.m, |m.strs.live|, |m.objs.live|); }
  }

  lemma EndCallSteady(r: Result, m: Machine, s: Stmt)
    requires s.Call? && Steady(r, m)
    ensures Steady(EndCall(r, s.strScope, |m.strs.live|, s.objScope, |m.objs.live|), m)
  {
    if Whole(r.m) { EndCallWhole(r, s.strScope, |m.strs.live|, s.objScope, |m.objs.live|); }
  }

  lemma DispatchSteady(m: Machine)
    requires m.frames != []
    ensures Dispatch(m).frames == m.frames[..|m.frames| - 1] && (Whole(m) ==> Whole(Dispatch(m)))
  {
    var k := m.frames[|m.frames| - 1];
    if Whole(m) { ReleaseWhole(m, k.str, k.obj); }
  }

  predicate Simple(s: Stmt) {
    s.NewString? || s.NewObject? || s.DetachString? || s.DetachObject? || s.Defer? || s.Throw? || s.Return?
  }

  lemma SimpleSteady(s: Stmt, m: Machine)
    requires Simple(s)
    ensures Steady(Exec(s, m), m)
  {
    match s
    case DetachString(p) => if Whole(m) { DetachWhole(m, p); }
    case DetachObject(p) => if Whole(m) { DetachWhole(m, p); }
    case _ =>
  }

  lemma {:induction false} ExecSteady(s: Stmt, m: Machine)
    ensures Steady(Exec(s, m), m)
    decreases s
  {
    match s
    case Block(body) => BodySteady(body, m);
    case Iteration(body, _, _) =>
      BodySteady(body, m);
      EndIterationSteady(EndBlock(ExecAll(body, m)), m, s);
    case Call(body, strScope, objScope) =>
      BodySteady(body, m);
      EndCallSteady(EndBlock(ExecAll(body, m)), m, s);
    case Try(body, clauses) => TrySteady(s, m);
    case _ => SimpleSteady(s, m);
  }

  lemma {:induction false} TrySteady(s: Stmt, m: Machine)
    requires s.Try?
    ensures Steady(Exec(s, m), m)
    decreases s, 0
  {
    if |m.frames| < MAX_FRAMES {
      BodySteady(s.body, Bank(m));
      var r := EndBlock(ExecAll(s.body, Bank(m)));
      if r.outcome.Threw? {
        DispatchSteady(r.m);
        var i := Catching(s.clauses, r.outcome.id, 0);
        if i < |s.clauses| {
          assert s.clauses[i] < s;
          BodySteady(s.clauses[i].handler, Dispatch(r.m));
        }
      }
    }
  }

  lemma {:induction false} BodySteady(body: seq<Stmt>, m: Machine)
    ensures Steady(EndBlock(ExecAll(body, m)), m)
    decreases body, 1
  {
    AllSteady(body, m);
    ReplayKeeps(ExecAll(body, m).m, ExecAll(body, m).pending);
  }

  lemma {:induction false} AllSteady(ss: seq<Stmt>, m: Machine)
    ensures Steady(ExecAll(ss, m), m)
    decreases ss, 0
  {
    if ss != [] {
      ExecSteady(ss[0], m);
      if Exec(ss[0], m).outcome.Fell? { AllSteady(ss[1..], Exec(ss[0], m).m); }
    }
  }

  // ---- The registries ----

  /** Whatever was registered in b is still at the bottom. */
  ghost predicate Over(m: Machine, b: Machine) {
    b.strs.live <= m.strs.live && b.objs.live <= m.objs.live
  }

  ghost predicate Lacks(hs: seq<Handle>, p: Pointer) {
    forall k :: 0 <= k < |hs| ==> hs[k].ptr != p
  }

  /** The statement detaches nothing that was registered in b.  Returning a handle detaches it when the
      function has an object scope. */
  ghost predicate Spares(s: Stmt, b: Machine, objScope: bool)
    decreases s
  {
    match s
    case DetachString(p) => p !in b.strs.live
    case DetachObject(p) => Lacks(b.objs.live, p)
    case Return(value) => objScope && value.AHandle? ==> Lacks(b.objs.live, value.p)
    case Block(body) => SparesAll(body, b, objScope)
    case Iteration(body, _, _) => SparesAll(body, b, objScope)
    case Call(body, _, scope) => SparesAll(body, b, scope)
    case Try(body, clauses) =>
      SparesAll(body, b, objScope) && forall i :: 0 <= i < |clauses| ==> SparesClause(clauses[i], b, objScope)
    case _ => true
  }

  ghost predicate SparesClause(c: Clause, b: Machine, objScope: bool)
    decreases c
  {
    SparesAll(c.handler, b, objScope)
  }

  ghost predicate SparesAll(ss: seq<Stmt>, b: Machine, objScope: bool)
    decreases ss
  {
    forall i :: 0 <= i < |ss| ==> Spares(ss[i], b, objScope)
  }

  lemma OverStrDetach(a: Arena<Pointer>, base: seq<Pointer>, p: Pointer)
    requires base <= a.live && p !in base
    ensures base <= StrDetach(a, p).live
  {
    var i := FirstIndex(a.live, p, 0);
    assert forall k :: 0 <= k < |base| ==> a.live[k] == base[k];
  }

  lemma OverObjDetach(a: Arena<Handle>, base: seq<Handle>, p: Pointer)
    requires base <= a.live && Lacks(base, p)
    ensures base <= ObjDetach(a, p).live
  {
    var i := LastIndex(a.live, p, |a.live|);
    assert forall k :: 0 <= k < |base| ==> a.live[k] == base[k];
  }

  lemma OverEndCall(r: Result, strScope: bool, strMark: nat, objScope: bool, objMark: nat, b: Machine)
    requires Over(r.m, b) && |b.strs.live| <= strMark && |b.objs.live| <= objMark
    requires objScope && r.outcome.Returning? && r.outcome.value.AHandle? ==> Lacks(b.objs.live, r.outcome.value.p)
    ensures Over(EndCall(r, strScope, strMark, objScope, objMark).m, b)
  {
    if objScope && r.outcome.Returning? && r.outcome.value.AHandle? {
      OverObjDetach(r.m.objs, b.objs.live, r.outcome.value.p);
    }
  }

  lemma OverDispatch(m: Machine, b: Machine)
    requires Over(m, b) && m.frames != []
    requires |b.strs.live| <= m.frames[|m.frames| - 1].str && |b.objs.live| <= m.frames[|m.frames| - 1].obj
    ensures Over(Dispatch(m), b)
  {
  }

  /** What running something over b may do: leave b at the bottom, and return no handle of b. */
  ghost predicate Safe(r: Result, b: Machine, objScope: bool) {
    !r.outcome.Aborted? ==>
      && Over(r.m, b)
      && (objScope && r.outcome.Returning? && r.outcome.value.AHandle? ==> Lacks(b.objs.live, r.outcome.value.p))
  }

  lemma {:induction false} ExecSafe(s: Stmt, m: Machine, b: Machine, objScope: bool)
    requires Over(m, b) && Spares(s, b, objScope)
    ensures Safe(Exec(s, m), b, objScope)
    decreases s
  {
    match s
    case DetachString(p) => OverStrDetach(m.strs, b.strs.live, p);
    case DetachObject(p) => OverObjDetach(m.objs, b.objs.live, p);
    case Block(body) => BodySafe(body, m, b, objScope);
    case Iteration(body, _, _) => BodySafe(body, m, b, objScope);
    case Call(body, strScope, scope) =>
      BodySafe(body, m, b, scope);
      var r := EndBlock(ExecAll(body, m));
      if !r.outcome.Aborted? { OverEndCall(r, strScope, |m.strs.live|, scope, |m.objs.live|, b); }
    case Try(body, clauses) => TrySafe(s, m, b, objScope);
    case _ =>
  }

  lemma {:induction false} TrySafe(s: Stmt, m: Machine, b: Machine, objScope: bool)
    requires s.Try? && Over(m, b) && Spares(s, b, objScope)
    ensures Safe(Exec(s, m), b, objScope)
    decreases s, 0
  {
    if |m.frames| < MAX_FRAMES {
      BodySafe(s.body, Bank(m), b, objScope);
      BodySteady(s.body, Bank(m));
      var r := EndBlock(ExecAll(s.body, Bank(m)));
      if r.outcome.Threw? {
        OverDispatch(r.m, b);
        var i := Catching(s.clauses, r.outcome.id, 0);
        if i < |s.clauses| {
          assert s.clauses[i] < s && SparesClause(s.clauses[i], b, objScope);
          BodySafe(s.clauses[i].handler, Dispatch(r.m), b, objScope);
        }
      }
    }
  }

  lemma {:induction false} BodySafe(body: seq<Stmt>, m: Machine, b: Machine, objScope: bool)
    requires Over(m, b) && SparesAll(body, b, objScope)
    ensures Safe(EndBlock(ExecAll(body, m)), b, objScope)
    decreases body, 1
  {
    AllSafe(body, m, b, objScope);
    ReplayKeeps(ExecAll(body, m).m, ExecAll(body, m).pending);
  }

  lemma {:induction false} AllSafe(ss: seq<Stmt>, m: Machine, b: Machine, objScope: bool)
    requires Over(m, b) && SparesAll(ss, b, objScope)
    ensures Safe(ExecAll(ss, m), b, objScope)
    decreases ss, 0
  {
    if ss != [] {
      ExecSafe(ss[0], m, b, objScope);
      if Exec(ss[0], m).outcome.Fell? { AllSafe(ss[1..], Exec(ss[0], m).m, b, objScope); }
    }
  }

  // ---- The registries, whatever is detached ----

  /** n comes after m, and nothing that was registered in m was freed: it is registered, no higher than it
      was, or was handed out. */
  ghost predicate After(n: Machine, m: Machine) {
    Sinks(n.strs, m.strs) && Sinks(n.objs, m.objs)
  }

  lemma AfterTrans(n: Machine, k: Machine, m: Machine)
    requires After(n, k) && After(k, m)
    ensures After(n, m)
  {
    SinksTrans(n.strs, k.strs, m.strs);
    SinksTrans(n.objs, k.objs, m.objs);
  }

  lemma ReleaseAfter(n: Machine, m: Machine, strMark: nat, objMark: nat)
    requires After(n, m) && strMark >= |m.strs.live| && objMark >= |m.objs.live|
    ensures After(ReleaseStrs(n, strMark), m) && After(ReleaseObjs(n, objMark), m)
    ensures After(ReleaseStrs(ReleaseObjs(n, objMark), strMark), m)
    ensures forall p :: After(n.(strs := ReleaseKeeping(n.strs, strMark, p)), m)
  {
    ReleaseSinks(n.strs, m.strs, strMark, false);
    ReleaseSinks(n.objs, m.objs, objMark, true);
    forall p ensures After(n.(strs := ReleaseKeeping(n.strs, strMark, p)), m) {
      RetainSinks(n.strs, m.strs, strMark, p);
    }
  }

  lemma EndCallAfter(r: Result, m: Machine, strScope: bool, objScope: bool)
    requires After(r.m, m)
    ensures After(EndCall(r, strScope, |m.strs.live|, objScope, |m.objs.live|).m, m)
  {
    ReleaseAfter(r.m, m, |m.strs.live|, |m.objs.live|);
    ReleaseAfter(ReleaseObjs(r.m, |m.objs.live|), m, |m.strs.live|, |m.objs.live|);
    if r.outcome.Returning? && r.outcome.value.AHandle? {
      var n := r.m.(objs := ObjDetach(r.m.objs, r.outcome.value.p));
      DetachSinks(r.m.objs, LastIndex(r.m.objs.live, r.outcome.value.p, |r.m.objs.live|));
      SinksTrans(n.objs, r.m.objs, m.objs);
      ReleaseAfter(n, m, |m.strs.live|, |m.objs.live|);
    }
  }

  lemma DispatchAfter(t: Machine, m: Machine)
    requires After(t, m) && t.frames == Bank(m).frames
    ensures After(Dispatch(t), m)
  {
    ReleaseSinks(t.strs, m.strs, |m.strs.live|, false);
    ReleaseSinks(t.objs, m.objs, |m.objs.live|, true);
  }

  lemma SimpleAfter(s: Stmt, m: Machine)
    requires Simple(s)
    ensures After(Exec(s, m).m, m)
  {
    match s
    case NewString(p) => TrackSinks(m.strs, p);
    case NewObject(h) => TrackSinks(m.objs, h);
    case DetachString(p) => DetachSinks(m.strs, FirstIndex(m.strs.live, p, 0));
    case DetachObject(p) => DetachSinks(m.objs, LastIndex(m.objs.live, p, |m.objs.live|));
    case _ =>
  }

  lemma {:induction false} ExecAfter(s: Stmt, m: Machine)
    ensures After(Exec(s, m).m, m)
    decreases s
  {
    match s
    case Block(body) => BodyAfter(body, m);
    case Iteration(body, _, _) =>
      BodyAfter(body, m);
      ReleaseAfter(EndBlock(ExecAll(body, m)).m, m, |m.strs.live|, |m.objs.live|);
    case Call(body, strScope, objScope) =>
      BodyAfter(body, m);
      EndCallAfter(EndBlock(ExecAll(body, m)), m, strScope, objScope);
    case Try(body, clauses) => TryAfter(s, m);
    case _ => SimpleAfter(s, m);
  }

  lemma {:induction false} TryAfter(s: Stmt, m: Machine)
    requires s.Try?
    ensures After(Exec(s, m).m, m)
    decreases s, 0
  {
    if |m.frames| < MAX_FRAMES {
      BodyAfter(s.body, Bank(m));
      BodySteady(s.body, Bank(m));
      var r := EndBlock(ExecAll(s.body, Bank(m)));
      if r.outcome.Threw? {
        DispatchAfter(r.m, m);
        var i := Catching(s.clauses, r.outcome.id, 0);
        if i < |s.clauses| {
          assert s.clauses[i] < s;
          BodyAfter(s.clauses[i].handler, Dispatch(r.m));
          AfterTrans(EndBlock(ExecAll(s.clauses[i].handler, Dispatch(r.m))).m, Dispatch(r.m), m);
        }
      }
    }
  }

  lemma {:induction false} BodyAfter(body: seq<Stmt>, m: Machine)
    ensures After(EndBlock(ExecAll(body, m)).m, m)
    decreases body, 1
  {
    AllAfter(body, m);
    ReplayKeeps(ExecAll(body, m).m, ExecAll(body, m).pending);
  }

  lemma {:induction false} AllAfter(ss: seq<Stmt>, m: Machine)
    ensures After(ExecAll(ss, m).m, m)
    decreases ss, 0
  {
    if ss != [] {
      ExecAfter(ss[0], m);
      var r := Exec(ss[0], m);
      if r.outcome.Fell? {
        AllAfter(ss[1..], r.m);
        AfterTrans(ExecAll(ss[1..], r.m).m, r.m, m);
      }
    }
  }

  // ---- The cleanups ----

  /** Every registered cleanup is pending or has run, once. */
  ghost predicate Balanced(m: Machine) {
    multiset(m.pushed) == multiset(m.ran) + multiset(m.defers)
  }

  /** What running something from `before` does to the cleanups, unless the stack overflowed: what was
      pending stays pending below what the statements have still to replay, and nothing runs twice. */
  ghost predicate Orderly(r: Result, before: Machine) {
    && before.dropped <= r.m.dropped
    && (!r.outcome.Aborted? && r.m.dropped == before.dropped ==>
          && (Leaves(r.outcome) ==> r.m.defers == before.defers + r.pending)
          && (r.outcome.Threw? ==> before.defers <= r.m.defers)
          && (Balanced(before) ==> Balanced(r.m)))
  }

  lemma {:induction false} ReplayRuns(m: Machine, base: seq<Thunk>, pending: seq<Thunk>)
    requires m.defers == base + pending
    ensures Replay(m, pending).defers == base && Replay(m, pending).ran == m.ran + Reverse(pending)
    decreases |pending|
  {
    if pending == [] {
      assert base + pending == base && m.ran + Reverse(pending) == m.ran;
    } else {
      var d, rest := pending[|pending| - 1], pending[..|pending| - 1];
      var n := DiscardOne(m).(ran := m.ran + [d]);
      assert pending == rest + [d];
      assert m.defers == (base + rest) + [d];
      assert n.defers == base + rest;
      ReplayRuns(n, base, rest);
      ReverseSnoc(rest, d);
      assert (m.ran + [d]) + Reverse(rest) == m.ran + ([d] + Reverse(rest));
    }
  }

  lemma ReplayOrderly(m: Machine, base: seq<Thunk>, pending: seq<Thunk>)
    requires m.defers == base + pending
    ensures Replay(m, pending).defers == base && Replay(m, pending).ran == m.ran + Reverse(pending)
    ensures Balanced(m) ==> Balanced(Replay(m, pending))
  {
    ReplayRuns(m, base, pending);
    ReplayKeeps(m, pending);
    MultisetReverse(pending);
  }

  lemma DispatchOrderly(m: Machine)
    requires m.frames != []
    ensures Dispatch(m).dropped == m.dropped && Dispatch(m).pushed == m.pushed
    ensures Balanced(m) ==> Balanced(Dispatch(m))
  {
    var mark := m.frames[|m.frames| - 1].defer;
    if mark <= |m.defers| {
      MultisetSplit(m.defers, mark);
      MultisetReverse(m.defers[mark..]);
    }
  }

  lemma EndCallOrderly(r: Result, strScope: bool, strMark: nat, objScope: bool, objMark: nat, before: Machine)
    requires Orderly(r, before) && r.pending == []
    ensures Orderly(EndCall(r, strScope, strMark, objScope, objMark), before)
  {
  }

  /** An exception caught by a try whose frame is on top. */
  lemma CaughtOrderly(r: Result, m: Machine)
    requires Orderly(r, Bank(m)) && r.outcome.Threw? && r.m.frames == Bank(m).frames
    ensures Orderly(Result(Dispatch(r.m), [], Fell), m)
  {
    DispatchOrderly(r.m);
    if r.m.dropped == m.dropped {
      assert r.m.defers[..|m.defers|] == m.defers;
    }
  }

  lemma ThenOrderly(a: Machine, r: Result, m: Machine)
    requires Orderly(Result(a, [], Fell), m) && Orderly(r, a)
    ensures Orderly(r, m)
  {
  }

  lemma SimpleOrderly(s: Stmt, m: Machine)
    requires Simple(s)
    ensures Orderly(Exec(s, m), m)
  {
  }

  lemma {:induction false} ExecOrderly(s: Stmt, m: Machine)
    ensures Orderly(Exec(s, m), m)
    decreases s
  {
    match s
    case Block(body) => BodyOrderly(body, m);
    case Iteration(body, _, _) => BodyOrderly(body, m);
    case Call(body, strScope, objScope) =>
      BodyOrderly(body, m);
      EndCallOrderly(EndBlock(ExecAll(body, m)), strScope, |m.strs.live|, objScope, |m.objs.live|, m);
    case Try(body, clauses) => TryOrderly(s, m);
    case _ => SimpleOrderly(s, m);
  }

  lemma {:induction false} TryOrderly(s: Stmt, m: Machine)
    requires s.Try?
    ensures Orderly(Exec(s, m), m)
    decreases s, 0
  {
    if |m.frames| < MAX_FRAMES {
      BodyOrderly(s.body, Bank(m));
      BodySteady(s.body, Bank(m));
      var r := EndBlock(ExecAll(s.body, Bank(m)));
      if r.outcome.Threw? {
        CaughtOrderly(r, m);
        var d := Dispatch(r.m);
        var i := Catching(s.clauses, r.outcome.id, 0);
        if i < |s.clauses| {
          assert s.clauses[i] < s;
          BodyOrderly(s.clauses[i].handler, d);
          ThenOrderly(d, EndBlock(ExecAll(s.clauses[i].handler, d)), m);
        }
      }
    }
  }

  lemma {:induction false} BodyOrderly(body: seq<Stmt>, m: Machine)
    ensures Orderly(EndBlock(ExecAll(body, m)), m)
    decreases body, 1
  {
    AllOrderly(body, m);
    var r := ExecAll(body, m);
    ReplayKeeps(r.m, r.pending);
    if Leaves(r.outcome) && r.m.dropped == m.dropped {
      ReplayOrderly(r.m, m.defers, r.pending);
    }
  }

  /** A statement that falls through, and the rest of its list. */
  lemma NextOrderly(r: Result, rest: Result, m: Machine)
    requires Orderly(r, m) && r.outcome.Fell? && Orderly(rest, r.m)
    ensures Orderly(Result(rest.m, r.pending + rest.pending, rest.outcome), m)
  {
    assert (m.defers + r.pending) + rest.pending == m.defers + (r.pending + rest.pending);
  }

  lemma {:induction false} AllOrderly(ss: seq<Stmt>, m: Machine)
    ensures Orderly(ExecAll(ss, m), m)
    decreases ss, 0
  {
    if ss != [] {
      ExecOrderly(ss[0], m);
      var r := Exec(ss[0], m);
      if r.outcome.Fell? {
        AllOrderly(ss[1..], r.m);
        NextOrderly(r, ExecAll(ss[1..], r.m), m);
      }
    }
  }

  // ---- Room for the cleanups ----

  /** The Defer statements in a program, those of every catch clause included. */
  function Defers(s: Stmt): nat
    decreases s
  {
    match s
    case Defer(_) => 1
    case Block(body) => DefersAll(body)
    case Iteration(body, _, _) => DefersAll(body)
    case Call(body, _, _) => DefersAll(body)
    case Try(body, clauses) => DefersAll(body) + DefersCaught(clauses)
    case _ => 0
  }

  function DefersAll(ss: seq<Stmt>): nat
    decreases ss
  {
    if ss == [] then 0 else Defers(ss[0]) + DefersAll(ss[1..])
  }

  function DefersCaught(clauses: seq<Clause>): nat
    decreases clauses
  {
    if clauses == [] then 0
    else DefersCaughtBy(clauses[0]) + DefersCaught(clauses[1..])
  }

  function DefersCaughtBy(c: Clause): nat
    decreases c
  {
    DefersAll(c.handler)
  }

  lemma {:induction false} OneOfClauses(clauses: seq<Clause>, i: nat)
    requires i < |clauses|
    ensures DefersAll(clauses[i].handler) <= DefersCaught(clauses)
  {
    if i > 0 { OneOfClauses(clauses[1..], i - 1); }
  }

  /** At most k more cleanups are pending, and none was dropped. */
  ghost predicate Room(n: Machine, m: Machine, k: nat) {
    |n.defers| <= |m.defers| + k && n.dropped == m.dropped
  }

  lemma {:induction false} ReplayRoom(m: Machine, pending: seq<Thunk>)
    ensures |Replay(m, pending).defers| <= |m.defers|
    decreases |pending|
  {
    if pending != [] {
      var n := DiscardOne(m);
      ReplayRoom(n.(ran := n.ran + [pending[|pending| - 1]]), pending[..|pending| - 1]);
    }
  }

  lemma {:induction false} ExecRoom(s: Stmt, m: Machine)
    requires |m.defers| + Defers(s) <= MAX_DEFERS
    ensures Room(Exec(s, m).m, m, Defers(s))
    decreases s
  {
    match s
    case Block(body) => BodyRoom(body, m);
    case Iteration(body, _, _) => BodyRoom(body, m);
    case Call(body, _, _) => BodyRoom(body, m);
    case Try(body, clauses) => TryRoom(s, m);
    case _ =>
  }

  lemma {:induction false} TryRoom(s: Stmt, m: Machine)
    requires s.Try? && |m.defers| + Defers(s) <= MAX_DEFERS
    ensures Room(Exec(s, m).m, m, Defers(s))
    decreases s, 0
  {
    if |m.frames| < MAX_FRAMES {
      BodyRoom(s.body, Bank(m));
      var r := EndBlock(ExecAll(s.body, Bank(m)));
      if r.outcome.Threw? && r.m.frames != [] {
        var d := Dispatch(r.m);
        assert Room(d, m, DefersAll(s.body));
        var i := Catching(s.clauses, r.outcome.id, 0);
        if i < |s.clauses| {
          assert s.clauses[i] < s;
          OneOfClauses(s.clauses, i);
          BodyRoom(s.clauses[i].handler, d);
        }
      }
    }
  }

  lemma {:induction false} BodyRoom(body: seq<Stmt>, m: Machine)
    requires |m.defers| + DefersAll(body) <= MAX_DEFERS
    ensures Room(EndBlock(ExecAll(body, m)).m, m, DefersAll(body))
    decreases body, 1
  {
    AllRoom(body, m);
    ReplayRoom(ExecAll(body, m).m, ExecAll(body, m).pending);
    ReplayKeeps(ExecAll(body, m).m, ExecAll(body, m).pending);
  }

  /** No cleanup is dropped when those pending and the Defer statements of the program fit the stack. */
  lemma {:induction false} AllRoom(ss: seq<Stmt>, m: Machine)
    requires |m.defers| + DefersAll(ss) <= MAX_DEFERS
    ensures Room(ExecAll(ss, m).m, m, DefersAll(ss))
    decreases ss, 0
  {
    if ss != [] {
      ExecRoom(ss[0], m);
      if Exec(ss[0], m).outcome.Fell? { AllRoom(ss[1..], Exec(ss[0], m).m); }
    }
  }

  /** When they do not fit, a normal exit runs the cleanup whose registration was dropped, and discards in
      its stead the last pending one of an enclosing block, which an exception no longer runs. */
  lemma DroppedPushDiscardsAnother(m: Machine, d: Thunk)
    requires |m.defers| == MAX_DEFERS
    ensures Exec(Block([Defer(d)]), m) == Result(m.(defers := m.defers[..MAX_DEFERS - 1], ran := m.ran + [d],
                                                   dropped := m.dropped + 1), [], Fell)
  {
    var body := [Defer(d)];
    assert body[1..] == [];
    assert ExecAll(body, m) == Result(DeferPush(m, d), [d] + [], Fell);
    assert [d] + [] == [d] && [d][..0] == [];
    assert Replay(DeferPush(m, d), [d]) == DiscardOne(DeferPush(m, d)).(ran := m.ran + [d]);
  }

  /** A program that loses a cleanup: c is registered in the try body, and after the dispatch it is neither
      pending nor has it run. */
  lemma LostCleanup(m: Machine, c: Thunk, d: Thunk, id: nat)
    requires |m.defers| == MAX_DEFERS - 1
    ensures var t := EndBlock(ExecAll([Defer(c), Block([Defer(d)]), Throw(id)], Bank(m)));
            && t.outcome == Threw(id) && t.m.frames == Bank(m).frames
            && var n := Dispatch(t.m);
               n.pushed == m.pushed + [c] && n.defers == m.defers && n.ran == m.ran + [d]
  {
    var b := Bank(m);
    var m1, inner := DeferPush(b, c), Block([Defer(d)]);
    DroppedPushDiscardsAnother(m1, d);
    var m2 := Exec(inner, m1).m;
    ThreeStatements(Defer(c), inner, Throw(id), b);
    assert m1.defers[..MAX_DEFERS - 1] == m.defers;
    assert m2.defers[|m.defers|..] == [] && m2.ran + [] == m2.ran;
  }

  lemma ThreeStatements(x: Stmt, y: Stmt, z: Stmt, m: Machine)
    requires Exec(x, m).outcome.Fell? && Exec(y, Exec(x, m).m).outcome.Fell?
    ensures ExecAll([x, y, z], m).m == Exec(z, Exec(y, Exec(x, m).m).m).m
    ensures ExecAll([x, y, z], m).outcome == Exec(z, Exec(y, Exec(x, m).m).m).outcome
  {
    assert [x, y, z][1..] == [y, z];
    TwoStatements(y, z, Exec(x, m).m);
  }

  lemma TwoStatements(y: Stmt, z: Stmt, m: Machine)
    requires Exec(y, m).outcome.Fell?
    ensures ExecAll([y, z], m).m == Exec(z, Exec(y, m).m).m
    ensures ExecAll([y, z], m).outcome == Exec(z, Exec(y, m).m).outcome
  {
    assert [y, z][1..] == [z];
    OneStatement(z, Exec(y, m).m);
  }

  lemma OneStatement(z: Stmt, m: Machine)
    ensures ExecAll([z], m).m == Exec(z, m).m && ExecAll([z], m).outcome == Exec(z, m).outcome
  {
    assert [z][1..] == [];
  }

  /** A program whose dispatch does not restore the pending cleanups: the one on top at try entry is gone. */
  lemma PendingNotRestored(m: Machine, d: Thunk, id: nat)
    requires |m.defers| == MAX_DEFERS
    ensures var t := EndBlock(ExecAll([Block([Defer(d)]), Throw(id)], Bank(m)));
            && t.outcome == Threw(id) && t.m.frames == Bank(m).frames
            && Dispatch(t.m).defers == m.defers[..MAX_DEFERS - 1]
  {
    DroppedPushDiscardsAnother(Bank(m), d);
    TwoStatements(Block([Defer(d)]), Throw(id), Bank(m));
  }

  predicate NoTry(s: Stmt)
    decreases s
  {
    match s
    case Block(body) => NoTryAll(body)
    case Iteration(body, _, _) => NoTryAll(body)
    case Call(body, _, _) => NoTryAll(body)
    case Try(_, _) => false
    case _ => true
  }

  predicate NoTryAll(ss: seq<Stmt>)
    decreases ss
  {
    forall i :: 0 <= i < |ss| ==> NoTry(ss[i])
  }

  /** Leaving normally, at most the cleanups to replay are new, and fewer if one was dropped, as long as there
      were others to discard. */
  ghost predicate Thin(r: Result, m: Machine) {
    Leaves(r.outcome) ==>
      && m.dropped <= r.m.dropped
      && |r.m.defers| <= |m.defers| + |r.pending|
      && (r.m.dropped > m.dropped && m.defers != [] ==> |r.m.defers| < |m.defers| + |r.pending|)
  }

  lemma {:induction false} ReplayLength(m: Machine, pending: seq<Thunk>)
    ensures |Replay(m, pending).defers| == if |pending| <= |m.defers| then |m.defers| - |pending| else 0
    decreases |pending|
  {
    if pending != [] {
      var n := DiscardOne(m);
      ReplayLength(n.(ran := n.ran + [pending[|pending| - 1]]), pending[..|pending| - 1]);
    }
  }

  lemma {:induction false} ExecThin(s: Stmt, m: Machine)
    requires NoTry(s)
    ensures Thin(Exec(s, m), m)
    decreases s
  {
    match s
    case Block(body) => BodyThin(body, m);
    case Iteration(body, _, _) => BodyThin(body, m);
    case Call(body, _, _) => BodyThin(body, m);
    case _ =>
  }

  lemma {:induction false} BodyThin(body: seq<Stmt>, m: Machine)
    requires NoTryAll(body)
    ensures Thin(EndBlock(ExecAll(body, m)), m)
    decreases body, 1
  {
    AllThin(body, m);
    var r := ExecAll(body, m);
    ReplayLength(r.m, r.pending);
    ReplayKeeps(r.m, r.pending);
  }

  lemma {:induction false} AllThin(ss: seq<Stmt>, m: Machine)
    requires NoTryAll(ss)
    ensures Thin(ExecAll(ss, m), m)
    decreases ss, 0
  {
    if ss != [] {
      ExecThin(ss[0], m);
      if Exec(ss[0], m).outcome.Fell? { AllThin(ss[1..], Exec(ss[0], m).m); }
    }
  }

  /** When a body without a try that exits normally leaves the pending cleanups as they were: exactly if no
      registration was dropped, or none was pending. */
  lemma PendingKeptExactly(body: seq<Stmt>, m: Machine)
    requires NoTryAll(body) && Leaves(EndBlock(ExecAll(body, m)).outcome)
    ensures var n := EndBlock(ExecAll(body, m)).m;
            n.defers == m.defers <==> n.dropped == m.dropped || m.defers == []
  {
    BodyThin(body, m);
    BodyOrderly(body, m);
  }

  // ---- The main result ----

  /** The dispatch label undoes everything above the marks of the frame on top. */
  lemma DispatchRestores(t: Machine, m: Machine)
    requires t.frames == Bank(m).frames && Over(t, m) && m.defers <= t.defers
    ensures var d := Dispatch(t);
            && d.strs.live == m.strs.live && d.objs.live == m.objs.live
            && d.defers == m.defers && d.frames == m.frames
            && d.ran == t.ran + Reverse(t.defers[|m.defers|..])
  {
    assert t.strs.live[..|m.strs.live|] == m.strs.live && t.objs.live[..|m.objs.live|] == m.objs.live;
    assert t.defers[..|m.defers|] == m.defers;
    assert t.frames[..|m.frames|] == m.frames;
  }

  /** A throw out of a try body, however deep, comes back to this try's frame, and the dispatch label drops
      that frame and leaves the pending cleanups as at try entry.  The cleanups registered since have run,
      last first, each once.  Whatever the body detaches, nothing that was registered at try entry is freed:
      it is still registered or was handed out, and what was freed since was registered since. */
  lemma UnwoundAnyway(body: seq<Stmt>, m: Machine)
    requires |m.frames| < MAX_FRAMES && Balanced(m) && Whole(m)
    requires EndBlock(ExecAll(body, Bank(m))).outcome.Threw?
    requires |m.defers| + DefersAll(body) <= MAX_DEFERS || EndBlock(ExecAll(body, Bank(m))).m.dropped == m.dropped
    ensures var t := EndBlock(ExecAll(body, Bank(m))).m;
            && t.frames == Bank(m).frames && m.defers <= t.defers
            && var d := Dispatch(t);
               && d.defers == m.defers && d.frames == m.frames
               && d.ran == t.ran + Reverse(t.defers[|m.defers|..])
               && Balanced(d) && Whole(d) && After(d, m)
               && multiset(d.strs.gone[|m.strs.gone|..]) <= multiset(d.strs.tracked[|m.strs.tracked|..])
               && multiset(d.objs.gone[|m.objs.gone|..]) <= multiset(d.objs.tracked[|m.objs.tracked|..])
  {
    if |m.defers| + DefersAll(body) <= MAX_DEFERS { BodyRoom(body, Bank(m)); }
    BodySteady(body, Bank(m));
    BodyOrderly(body, Bank(m));
    BodyAfter(body, Bank(m));
    var t := EndBlock(ExecAll(body, Bank(m))).m;
    DispatchOrderly(t);
    DispatchSteady(t);
    DispatchAfter(t, m);
    FreedWasNew(Dispatch(t).strs, m.strs);
    FreedWasNew(Dispatch(t).objs, m.objs);
    assert t.defers[..|m.defers|] == m.defers && t.frames[..|m.frames|] == m.frames;
  }

  /** No entry of the older state is among what was handed out since. */
  ghost predicate NoneHandedOut<T>(a: Arena<T>, b: Arena<T>)
    requires b.out <= a.out
  {
    forall p :: p in b.live ==> p !in a.out[|b.out|..]
  }

  /** Nor among what was registered since. */
  ghost predicate NoneRegisteredAgain<T>(a: Arena<T>, b: Arena<T>)
    requires b.tracked <= a.tracked
  {
    forall p :: p in b.live ==> p !in a.tracked[|b.tracked|..]
  }

  /** When the dispatch leaves the registries exactly as at try entry, for every body that registers
      nothing of them again: each one exactly if the body handed out nothing of it. */
  lemma RestoredIff(body: seq<Stmt>, m: Machine)
    requires |m.frames| < MAX_FRAMES && Whole(m) && EndBlock(ExecAll(body, Bank(m))).outcome.Threw?
    ensures var t := EndBlock(ExecAll(body, Bank(m))).m;
            && After(t, m) && t.frames == Bank(m).frames
            && (NoneRegisteredAgain(t.strs, m.strs) ==>
                  (Dispatch(t).strs.live == m.strs.live <==> NoneHandedOut(t.strs, m.strs)))
            && (NoneRegisteredAgain(t.objs, m.objs) ==>
                  (Dispatch(t).objs.live == m.objs.live <==> NoneHandedOut(t.objs, m.objs)))
  {
    BodySteady(body, Bank(m));
    BodyAfter(body, Bank(m));
    var t := EndBlock(ExecAll(body, Bank(m))).m;
    if NoneRegisteredAgain(t.strs, m.strs) { RestoredExactly(t.strs, m.strs, false); }
    if NoneRegisteredAgain(t.objs, m.objs) { RestoredExactly(t.objs, m.objs, true); }
  }

  /** A body that spares what is registered at try entry hands out nothing of it: the dispatch leaves both
      registries exactly as at try entry. */
  lemma Unwound(body: seq<Stmt>, m: Machine)
    requires |m.frames| < MAX_FRAMES && Balanced(m) && Whole(m)
    requires SparesAll(body, m, false) && EndBlock(ExecAll(body, Bank(m))).outcome.Threw?
    requires |m.defers| + DefersAll(body) <= MAX_DEFERS || EndBlock(ExecAll(body, Bank(m))).m.dropped == m.dropped
    ensures var t := EndBlock(ExecAll(body, Bank(m))).m;
            && t.frames == Bank(m).frames && m.defers <= t.defers
            && var d := Dispatch(t);
               && d.strs.live == m.strs.live && d.objs.live == m.objs.live
               && d.defers == m.defers && d.frames == m.frames
               && d.ran == t.ran + Reverse(t.defers[|m.defers|..])
               && Balanced(d) && Whole(d)
  {
    UnwoundAnyway(body, m);
    BodySafe(body, Bank(m), m, false);
    DispatchRestores(EndBlock(ExecAll(body, Bank(m))).m, m);
  }

  lemma {:induction false} KeptAreKeep<T>(s: seq<T>, i: nat, keep: T)
    requires i <= |s|
    ensures forall k :: 0 <= k < |Keep(s, i, keep, true)| ==> Keep(s, i, keep, true)[k] == keep
    decreases |s| - i
  {
    if i < |s| { KeptAreKeep(s, i + 1, keep); }
  }

  // ---- What a statement does ----

  /** Whatever is created is registered, unless the allocation failed. */
  lemma CreatedIsRegistered(m: Machine, h: Handle)
    ensures var n := Exec(NewString(h.ptr), m);
            n.outcome.Fell? && n.m == m.(strs := n.m.strs)
            && n.m.strs.live == m.strs.live + (if h.ptr == 0 then [] else [h.ptr])
            && n.m.strs.gone == m.strs.gone && n.m.strs.out == m.strs.out
    ensures var n := Exec(NewObject(h), m);
            n.outcome.Fell? && n.m == m.(objs := n.m.objs)
            && n.m.objs.live == m.objs.live + (if h.ptr == 0 then [] else [h])
            && n.m.objs.gone == m.objs.gone && n.m.objs.out == m.objs.out
  {
  }

  /** A detach hands the entry out, once: the first of a String, the latest of a handle. */
  lemma DetachedIsHandedOut(m: Machine, p: Pointer, k: nat)
    ensures k < |m.strs.live| && m.strs.live[k] == p && (forall j :: 0 <= j < k ==> m.strs.live[j] != p) ==>
              var n := Exec(DetachString(p), m).m;
              n == m.(strs := n.strs) && n.strs.out == m.strs.out + [p] && n.strs.gone == m.strs.gone
              && multiset(m.strs.live) == multiset(n.strs.live) + multiset{p}
    ensures k < |m.objs.live| && m.objs.live[k].ptr == p && (forall j :: k < j < |m.objs.live| ==>
                                                               m.objs.live[j].ptr != p) ==>
              var n := Exec(DetachObject(p), m).m;
              n == m.(objs := n.objs) && n.objs.out == m.objs.out + [m.objs.live[k]] && n.objs.gone == m.objs.gone
              && multiset(m.objs.live) == multiset(n.objs.live) + multiset{m.objs.live[k]}
  {
    if k < |m.strs.live| && m.strs.live[k] == p && (forall j :: 0 <= j < k ==> m.strs.live[j] != p) {
      FirstIndexIs(m.strs.live, p, 0, k);
      MultisetSwapOut(m.strs.live, k);
    }
    if k < |m.objs.live| && m.objs.live[k].ptr == p && (forall j :: k < j < |m.objs.live| ==> m.objs.live[j].ptr != p) {
      LastIndexIs(m.objs.live, p, |m.objs.live|, k);
      MultisetSwapOut(m.objs.live, k);
    }
  }

  lemma {:induction false} FirstIndexIs(s: seq<Pointer>, p: Pointer, i: nat, k: nat)
    requires i <= k < |s| && s[k] == p && forall j :: i <= j < k ==> s[j] != p
    ensures FirstIndex(s, p, i) == k
    decreases k - i
  {
    if i < k { FirstIndexIs(s, p, i + 1, k); }
  }

  /** The limits: 256 frames, past which a try ends the program, and 1024 cleanups, past which a registration is
      dropped without a word although the block still replays it. */
  lemma Limits(m: Machine, d: Thunk, clauses: seq<Clause>)
    ensures |m.frames| >= 256 ==> Exec(Try([], clauses), m) == Result(m, [], Aborted)
    ensures |m.frames| < 256 ==> Exec(Try([], clauses), m) == Result(m, [], Fell)
    ensures Exec(Defer(d), m).pending == [d] && Exec(Defer(d), m).outcome.Fell?
    ensures Exec(Defer(d), m).m == if |m.defers| < 1024 then m.(defers := m.defers + [d], pushed := m.pushed + [d])
                                   else m.(dropped := m.dropped + 1)
  {
    if |m.frames| < 256 { assert Bank(m).frames[..|m.frames|] == m.frames; }
  }

  // ---- What an exit frees ----

  /** A function that returns a String registered since its entry frees everything else that it registered,
      and not that String: it stays registered, for the caller, above what was registered at entry. */
  lemma ReturnedStringSurvives(body: seq<Stmt>, m: Machine, objScope: bool, p: Pointer)
    requires EndBlock(ExecAll(body, m)).outcome == Returning(AString(p))
    requires var live := EndBlock(ExecAll(body, m)).m.strs.live; |m.strs.live| <= |live| && p in live[|m.strs.live|..]
    ensures var r := EndBlock(ExecAll(body, m)).m.strs; var n := Exec(Call(body, true, objScope), m).m.strs;
            var mark := |m.strs.live|;
            && p in n.live && n.live[..mark] == r.live[..mark] && n.out == r.out && r.gone <= n.gone
            && p !in n.gone[|r.gone|..]
            && (forall q :: q != p ==> multiset(n.gone[|r.gone|..])[q] == multiset(r.live[mark..])[q])
            && (forall k :: mark <= k < |n.live| ==> n.live[k] == p)
            && (Distinct(r.live) ==> n.live == r.live[..mark] + [p])
  {
    var r := EndBlock(ExecAll(body, m)).m.strs;
    var n := Exec(Call(body, true, objScope), m).m.strs;
    RetainedIs(r, |m.strs.live|, p);
    assert n == ReleaseKeeping(r, |m.strs.live|, p);
  }

  lemma RetainedIs(r: Arena<Pointer>, mark: nat, p: Pointer)
    requires mark <= |r.live| && p in r.live[mark..]
    ensures var n := ReleaseKeeping(r, mark, p);
            && p in n.live && n.live[..mark] == r.live[..mark] && n.out == r.out && r.gone <= n.gone
            && p !in n.gone[|r.gone|..]
            && (forall q :: q != p ==> multiset(n.gone[|r.gone|..])[q] == multiset(r.live[mark..])[q])
            && (forall k :: mark <= k < |n.live| ==> n.live[k] == p)
            && (Distinct(r.live) ==> n.live == r.live[..mark] + [p])
  {
    var n := ReleaseKeeping(r, mark, p);
    var kept, freed := Keep(r.live, mark, p, true), Keep(r.live, mark, p, false);
    assert n.gone[|r.gone|..] == freed;
    forall q ensures multiset(kept)[q] == (if q == p then multiset(r.live[mark..])[q] else 0)
      ensures multiset(freed)[q] == if q == p then 0 else multiset(r.live[mark..])[q]
    {
      KeepCounts(r.live, mark, p, q);
    }
    KeptAreKeep(r.live, mark, p);
    assert p in multiset(r.live[mark..]) && p in multiset(kept);
    if Distinct(r.live) { OneKept(kept, r.live[mark..], p); }
  }

  lemma OneKept(kept: seq<Pointer>, s: seq<Pointer>, p: Pointer)
    requires Distinct(s) && p in s && multiset(kept)[p] == multiset(s)[p]
    requires forall k :: 0 <= k < |kept| ==> kept[k] == p
    ensures kept == [p]
  {
    AtMostOnce(s, p);
    assert p in multiset(s);
    if |kept| >= 2 { CountedTwice(kept, 0, 1); }
    assert multiset(kept)[p] == 1;
  }

  /** A function that returns a handle hands it out before its scope is released: of the handles registered
      since its entry all others are destroyed, and that one is not. */
  lemma ReturnedHandleSurvives(body: seq<Stmt>, m: Machine, strScope: bool, p: Pointer, k: nat)
    requires EndBlock(ExecAll(body, m)).outcome == Returning(AHandle(p))
    requires var live := EndBlock(ExecAll(body, m)).m.objs.live;
             |m.objs.live| <= k < |live| && live[k].ptr == p && forall j :: k < j < |live| ==> live[j].ptr != p
    ensures var r := EndBlock(ExecAll(body, m)).m.objs; var n := Exec(Call(body, strScope, true), m).m.objs;
            var mark := |m.objs.live|;
            && n.out == r.out + [r.live[k]] && n.live == r.live[..mark] && r.gone <= n.gone
            && multiset(n.gone[|r.gone|..]) + multiset{r.live[k]} == multiset(r.live[mark..])
  {
    var r := EndBlock(ExecAll(body, m)).m.objs;
    var n := Exec(Call(body, strScope, true), m).m.objs;
    var mark := |m.objs.live|;
    LastIndexIs(r.live, p, |r.live|, k);
    var d := DetachAt(r, k);
    assert n == ReleaseTo(d, mark, true);
    DetachedAbove(r.live, k, mark);
    MultisetReverse(d.live[mark..]);
    assert n.gone[|r.gone|..] == Reverse(d.live[mark..]);
  }

  lemma {:induction false} LastIndexIs(s: seq<Handle>, p: Pointer, i: nat, k: nat)
    requires k < i <= |s| && s[k].ptr == p && forall j :: k < j < i ==> s[j].ptr != p
    ensures LastIndex(s, p, i) == k
  {
    if k < i - 1 { LastIndexIs(s, p, i - 1, k); }
  }

  lemma DetachedAbove(s: seq<Handle>, k: nat, mark: nat)
    requires mark <= k < |s|
    ensures SwapOut(s, k)[..mark] == s[..mark]
    ensures multiset(SwapOut(s, k)[mark..]) + multiset{s[k]} == multiset(s[mark..])
  {
    var t := s[mark..];
    assert SwapOut(s, k)[mark..] == SwapOut(t, k - mark);
    MultisetSwapOut(t, k - mark);
  }

  /** Any other exit frees exactly what was registered since the entry: Strings in order, handles last in, first
      out.  A registry whose scope is not released is left as it is. */
  lemma ExitFrees(body: seq<Stmt>, m: Machine, strScope: bool, objScope: bool)
    requires Leaves(EndBlock(ExecAll(body, m)).outcome)
    ensures var v := EndBlock(ExecAll(body, m)).outcome;
            var r, n := EndBlock(ExecAll(body, m)).m, Exec(Call(body, strScope, objScope), m).m;
            && (if strScope then (v.Returning? && v.value.AString?) || Freed(r.strs, n.strs, |m.strs.live|, false)
                else n.strs == r.strs)
            && (if objScope then (v.Returning? && v.value.AHandle?) || Freed(r.objs, n.objs, |m.objs.live|, true)
                else n.objs == r.objs)
  {
    var r := EndBlock(ExecAll(body, m)).m;
    FreedIs(r.strs, |m.strs.live|, false);
    FreedIs(r.objs, |m.objs.live|, true);
  }

  /** From r to n the entries above the mark were freed, in this order. */
  ghost predicate Freed<T>(r: Arena<T>, n: Arena<T>, mark: nat, lifo: bool) {
    mark <= |r.live| ==>
      && n.live == r.live[..mark] && n.out == r.out && |n.gone| == |r.gone| + |r.live| - mark && r.gone <= n.gone
      && forall j :: |r.gone| <= j < |n.gone| ==>
           n.gone[j] == if lifo then r.live[|r.live| - 1 - (j - |r.gone|)] else r.live[mark + (j - |r.gone|)]
  }

  lemma FreedIs<T>(r: Arena<T>, mark: nat, lifo: bool)
    ensures Freed(r, ReleaseTo(r, mark, lifo), mark, lifo)
  {
    var n := ReleaseTo(r, mark, lifo);
    if mark <= |r.live| {
      forall j | |r.gone| <= j < |n.gone|
        ensures n.gone[j] == if lifo then r.live[|r.live| - 1 - (j - |r.gone|)] else r.live[mark + (j - |r.gone|)]
      {
        ReleaseOrder(r, mark, j - |r.gone|);
      }
    }
  }

  /** The same at the end of a turn of a loop; a turn that does not fall through its end frees nothing itself. */
  lemma IterationFrees(body: seq<Stmt>, m: Machine, strScope: bool, objScope: bool)
    ensures var r, n := EndBlock(ExecAll(body, m)), Exec(Iteration(body, strScope, objScope), m);
            && n.outcome == r.outcome
            && (!r.outcome.Fell? ==> n.m == r.m)
            && (r.outcome.Fell? ==>
                  && (if strScope then Freed(r.m.strs, n.m.strs, |m.strs.live|, false) else n.m.strs == r.m.strs)
                  && (if objScope then Freed(r.m.objs, n.m.objs, |m.objs.live|, true) else n.m.objs == r.m.objs))
  {
    var r := EndBlock(ExecAll(body, m)).m;
    FreedIs(r.strs, |m.strs.live|, false);
    FreedIs(r.objs, |m.objs.live|, true);
  }

  /** What becomes of an exception in a try body: the first clause that catches it, among the first 64, goes on
      from the state after the dispatch; without one it is thrown on from there. */
  lemma CaughtOrThrownOn(body: seq<Stmt>, clauses: seq<Clause>, m: Machine, i: nat)
    requires |m.frames| < MAX_FRAMES && EndBlock(ExecAll(body, Bank(m))).outcome.Threw?
    requires i <= |clauses| && i <= 64
    requires var id := EndBlock(ExecAll(body, Bank(m))).outcome.id;
             && (forall j :: 0 <= j < i ==> clauses[j].id.Some? && clauses[j].id.value != id)
             && (i < |clauses| && i < 64 ==> clauses[i].id.None? || clauses[i].id.value == id)
    ensures var t := EndBlock(ExecAll(body, Bank(m)));
            && t.m.frames == Bank(m).frames
            && Exec(Try(body, clauses), m) ==
               if i < |clauses| && i < 64 then Exec(Block(clauses[i].handler), Dispatch(t.m))
               else Result(Dispatch(t.m), [], t.outcome)
  {
    BodySteady(body, Bank(m));
  }

  /** A function that falls or returns out of its scope leaves the registries as at its entry, except
      that a returned String stays registered, now for the caller. */
  lemma ScopeReclaims(body: seq<Stmt>, m: Machine)
    requires SparesAll(body, m, true) && Leaves(EndBlock(ExecAll(body, m)).outcome)
    ensures var v := EndBlock(ExecAll(body, m)).outcome; var n := Exec(Call(body, true, true), m).m;
            && n.objs.live == m.objs.live && m.strs.live <= n.strs.live
            && forall k :: |m.strs.live| <= k < |n.strs.live| ==> v.Returning? && v.value == AString(n.strs.live[k])
  {
    var r := EndBlock(ExecAll(body, m));
    BodySafe(body, m, m, true);
    KeepBase(r.m.strs.live, m.strs.live);
    KeepBase(r.m.objs.live, m.objs.live);
    if r.outcome.Returning? && r.outcome.value.AString? {
      KeptAreKeep(r.m.strs.live, |m.strs.live|, r.outcome.value.p);
    }
    if r.outcome.Returning? && r.outcome.value.AHandle? {
      OverObjDetach(r.m.objs, m.objs.live, r.outcome.value.p);
      KeepBase(ObjDetach(r.m.objs, r.outcome.value.p).live, m.objs.live);
    }
  }

  lemma KeepBase<T>(s: seq<T>, base: seq<T>)
    requires base <= s
    ensures s[..|base|] == base
  {
  }

  /** Detaching an entry from before the try shortens the registry below the mark: a String registered in
      the body slips under it and survives the release. */
  lemma DetachBelowTheMark()
    ensures var m := Machine(Arena([1], 64, [1], [], []), Empty(), [], [], [], [], 0);
            var t := EndBlock(ExecAll([DetachString(1), NewString(2), Throw(4)], Bank(m)));
            t.outcome.Threw? && Dispatch(t.m).strs.live == [2] != m.strs.live
  {
    var m := Machine(Arena([1], 64, [1], [], []), Empty(), [], [], [], [], 0);
    var b := Bank(m);
    var m1 := Exec(DetachString(1), b).m;
    assert m1.strs.live == [];
    var m2 := Exec(NewString(2), m1).m;
    assert m2.strs.live == [2];
    var ss: seq<Stmt> := [DetachString(1), NewString(2), Throw(4)];
    assert ss[1..] == [NewString(2), Throw(4)] && ss[1..][1..] == [Throw(4)];
    assert ExecAll([Throw(4)], m2) == Result(m2, [], Threw(4));
    assert ExecAll(ss[1..], m1) == Result(m2, [], Threw(4));
    assert ExecAll(ss, b) == Result(m2, [], Threw(4));
  }
}
