/** The static arrays of include/cyexc.h, and what src/gen.c emits at try entry and at the dispatch label,
    over the registries in place. */
module ExceptionState {
  import opened Arenas
  import opened Registries
  import opened Unwinding

  class Exceptions {
    var depth: nat
    const strMarks: array<nat>
    const objMarks: array<nat>
    const deferMarks: array<nat>
    var deferLen: nat
    const deferStack: array<Thunk>
    ghost var pushed: seq<Thunk>
    ghost var ran: seq<Thunk>
    ghost var dropped: nat

    ghost const Repr: set<object> := {this, strMarks, objMarks, deferMarks, deferStack}

    ghost predicate Valid()
      reads this
    {
      && strMarks.Length == objMarks.Length == deferMarks.Length == MAX_FRAMES && deferStack.Length == MAX_DEFERS
      && depth <= MAX_FRAMES && deferLen <= MAX_DEFERS
      && strMarks != objMarks && objMarks != deferMarks && strMarks != deferMarks
    }

    ghost function Frames(n: nat): (s: seq<Marks>)
      requires Valid() && n <= MAX_FRAMES
      reads this, strMarks, objMarks, deferMarks
      ensures |s| == n && forall i :: 0 <= i < n ==> s[i] == Marks(strMarks[i], objMarks[i], deferMarks[i])
    {
      if n == 0 then [] else Frames(n - 1) + [Marks(strMarks[n - 1], objMarks[n - 1], deferMarks[n - 1])]
    }

    ghost function View(strs: Arena<Pointer>, objs: Arena<Handle>): Machine
      requires Valid()
      reads Repr
    {
      Machine(strs, objs, Frames(depth), deferStack[..deferLen], pushed, ran, dropped)
    }

    constructor ()
      ensures Valid() && fresh(Repr) && View(Empty(), Empty()) == Machine(Empty(), Empty(), [], [], [], [], 0)
    {
      depth, deferLen := 0, 0;
      strMarks, objMarks, deferMarks := new nat[MAX_FRAMES], new nat[MAX_FRAMES], new nat[MAX_FRAMES];
      deferStack := new Thunk[MAX_DEFERS](_ => Thunk(0, 0));
      pushed, ran, dropped := [], [], 0;
    }

    /** cy_defer_push. */
    method PushDefer(d: Thunk, ghost strs: Arena<Pointer>, ghost objs: Arena<Handle>)
      requires Valid()
      modifies this, deferStack
      ensures Valid() && View(strs, objs) == DeferPush(old(View(strs, objs)), d)
    {
      if deferLen >= MAX_DEFERS {
        dropped := dropped + 1;
        return;
      }
      deferStack[deferLen] := d;
      deferLen := deferLen + 1;
      pushed := pushed + [d];
    }

    /** cy_defer_discard_one. */
    method Discard(ghost strs: Arena<Pointer>, ghost objs: Arena<Handle>)
      requires Valid()
      modifies this`deferLen
      ensures Valid() && View(strs, objs) == DiscardOne(old(View(strs, objs)))
    {
      if deferLen > 0 { deferLen := deferLen - 1; }
    }

    /** Drop and run the entries above mark, the last one first. */
    method RunDefers(mark: nat)
      requires Valid() && mark <= deferLen
      modifies this`deferLen, this`ran
      ensures deferLen == mark && ran == old(ran) + Reverse(old(deferStack[mark..deferLen]))
    {
      ghost var tail := deferStack[mark..deferLen];
      assert tail[..deferLen - mark] == tail;
      while deferLen > mark
        invariant mark <= deferLen <= mark + |tail|
        invariant ran + Reverse(tail[..deferLen - mark]) == old(ran) + Reverse(tail)
      {
        deferLen := deferLen - 1;
        ghost var n := deferLen - mark;
        assert tail[..n + 1] == tail[..n] + [tail[n]];
        ReverseSnoc(tail[..n], tail[n]);
        ran := ran + [deferStack[deferLen]];
      }
    }

    /** cy_defer_release_to. */
    method ReleaseDefers(mark: nat, ghost strs: Arena<Pointer>, ghost objs: Arena<Handle>)
      requires Valid()
      modifies this`deferLen, this`ran
      ensures Valid() && View(strs, objs) == DeferReleaseTo(old(View(strs, objs)), mark)
    {
      if mark > deferLen { return; }
      ghost var defers := deferStack[..deferLen];
      assert deferStack[mark..deferLen] == defers[mark..] && deferStack[..mark] == defers[..mark];
      RunDefers(mark);
    }

    /** cy_exc_push: the caller aborts when it fails. */
    method Push() returns (ok: bool)
      requires Valid()
      modifies this`depth
      ensures Valid() && ok == (old(depth) < MAX_FRAMES) && depth == if ok then old(depth) + 1 else old(depth)
    {
      ok := depth < MAX_FRAMES;
      if ok { depth := depth + 1; }
    }

    /** cy_exc_pop. */
    method PopFrame(ghost strs: Arena<Pointer>, ghost objs: Arena<Handle>)
      requires Valid()
      modifies this`depth
      ensures Valid() && View(strs, objs) == Pop(old(View(strs, objs)))
    {
      if depth > 0 {
        assert Frames(depth)[..depth - 1] == Frames(depth - 1);
        depth := depth - 1;
      }
    }

    /** cy_exc_set_marks. */
    method SetMarks(str: nat, obj: nat, defer: nat)
      requires Valid()
      modifies strMarks, objMarks, deferMarks
      ensures Valid() && (depth > 0 ==> Frames(depth) == old(Frames(depth - 1)) + [Marks(str, obj, defer)])
    {
      if depth > 0 {
        ghost var before := Frames(depth - 1);
        strMarks[depth - 1] := str;
        objMarks[depth - 1] := obj;
        deferMarks[depth - 1] := defer;
        assert Frames(depth - 1) == before;
      }
    }

    /** Try entry: a frame, and the three checkpoints banked in it. */
    method EnterTry(strs: StringRegistry, objs: ObjectRegistry) returns (ok: bool)
      requires Valid() && strs.Valid() && objs.Valid()
      requires {strs, objs, strs.registry, objs.registry} !! Repr
      modifies this`depth, strMarks, objMarks, deferMarks
      ensures Valid() && ok == (old(depth) < MAX_FRAMES)
      ensures ok ==> View(strs.View(), objs.View()) == Bank(old(View(strs.View(), objs.View())))
    {
      ghost var a, b := strs.View(), objs.View();
      ok := Push();
      if ok {
        var str := strs.Checkpoint();
        var obj := objs.Checkpoint();
        SetMarks(str, obj, deferLen);
        assert strs.View() == a && objs.View() == b;
      }
    }

    /** Its first half: read the marks of the frame on top, pop it and run the pending cleanups. */
    method TakeTop(ghost strs: Arena<Pointer>, ghost objs: Arena<Handle>) returns (str: nat, obj: nat)
      requires Valid() && depth > 0
      modifies this`depth, this`deferLen, this`ran
      ensures var m := old(View(strs, objs)); var k := m.frames[|m.frames| - 1];
              Valid() && View(strs, objs) == DeferReleaseTo(Pop(m), k.defer) && str == k.str && obj == k.obj
    {
      str, obj := strMarks[depth - 1], objMarks[depth - 1];
      var defer := deferMarks[depth - 1];
      PopFrame(strs, objs);
      ReleaseDefers(defer, strs, objs);
    }

    /** The dispatch label, reached through the innermost frame. */
    method DispatchTop(strs: StringRegistry, objs: ObjectRegistry)
      requires Valid() && strs.Valid() && objs.Valid() && depth > 0
      requires {strs, strs.registry} !! {objs, objs.registry} && {strs, objs, strs.registry, objs.registry} !! Repr
      modifies this, strs, objs
      ensures Valid() && strs.Valid() && objs.Valid()
      ensures View(strs.View(), objs.View()) == Dispatch(old(View(strs.View(), objs.View())))
    {
      var str, obj := TakeTop(strs.View(), objs.View());
      strs.ReleaseTo(str);
      objs.ReleaseTo(obj);
    }
  }
}
