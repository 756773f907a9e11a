/** The String registry of include/cstring.h and the object registry of include/cobjarena.h, in place. */
module Registries {
  import opened Arenas

  /** An address; 0 is NULL. */
  type Pointer = nat

  /** An object and its destructor. */
  datatype Handle = Handle(ptr: Pointer, dtor: nat)

  /** The last entry for p below i, searched from the recent end; the length when there is none. */
  function LastIndex(s: seq<Handle>, p: Pointer, i: nat): (k: nat)
    requires i <= |s|
    ensures k < i || k == |s|
    ensures k < |s| ==> s[k].ptr == p && forall j :: k < j < i ==> s[j].ptr != p
    ensures k == |s| ==> forall j :: 0 <= j < i ==> s[j].ptr != p
  {
    if i == 0 then |s| else if s[i - 1].ptr == p then i - 1 else LastIndex(s, p, i - 1)
  }

  function StrDetach(a: Arena<Pointer>, p: Pointer): Arena<Pointer> {
    DetachAt(a, FirstIndex(a.live, p, 0))
  }

  function ObjDetach(a: Arena<Handle>, p: Pointer): Arena<Handle> {
    DetachAt(a, LastIndex(a.live, p, |a.live|))
  }

  /** `done` and what the entries from i on contribute make up the target. */
  ghost predicate Remaining<T>(target: seq<T>, done: seq<T>, s: seq<T>, i: nat, keep: T, same: bool) {
    i <= |s| && target == done + Keep(s, i, keep, same)
  }

  lemma KeepStep<T>(target: seq<T>, done: seq<T>, s: seq<T>, i: nat, keep: T, same: bool)
    requires i < |s| && Remaining(target, done, s, i, keep, same)
    ensures Remaining(target, if (s[i] == keep) == same then done + [s[i]] else done, s, i + 1, keep, same)
  {
  }

  /** The entries from i on are still to be kept or freed, to end with these kept and these freed. */
  ghost predicate Sorting<T>(allKept: seq<T>, allGone: seq<T>, kept: seq<T>, gone: seq<T>, s: seq<T>, i: nat, keep: T) {
    Remaining(allKept, kept, s, i, keep, true) && Remaining(allGone, gone, s, i, keep, false)
  }

  lemma SortStep<T>(allKept: seq<T>, allGone: seq<T>, kept: seq<T>, gone: seq<T>, s: seq<T>, i: nat, keep: T)
    requires i < |s| && Sorting(allKept, allGone, kept, gone, s, i, keep)
    ensures if s[i] == keep then Sorting(allKept, allGone, kept + [s[i]], gone, s, i + 1, keep)
                            else Sorting(allKept, allGone, kept, gone + [s[i]], s, i + 1, keep)
  {
    KeepStep(allKept, kept, s, i, keep, true);
    KeepStep(allGone, gone, s, i, keep, false);
  }

  lemma {:induction false} ReverseSnoc<T>(s: seq<T>, x: T)
    ensures Reverse(s + [x]) == [x] + Reverse(s)
  {
    if s == [] {
      assert [] + [x] == [x];
    } else {
      assert (s + [x])[1..] == s[1..] + [x];
      ReverseSnoc(s[1..], x);
    }
  }

  class StringRegistry {
    var registry: array<Pointer>
    var len: nat
    ghost var tracked: seq<Pointer>
    ghost var gone: seq<Pointer>
    ghost var out: seq<Pointer>

    ghost predicate Valid()
      reads this, registry
    {
      len <= registry.Length && forall i :: 0 <= i < len ==> registry[i] != 0
    }

    ghost function View(): Arena<Pointer>
      requires Valid()
      reads this, registry
    {
      Arena(registry[..len], registry.Length, tracked, gone, out)
    }

    constructor ()
      ensures Valid() && fresh(registry) && View() == Empty()
    {
      registry := new Pointer[0];
      len, tracked, gone, out := 0, [], [], [];
    }

    /** realloc of the backing array. */
    method Resize(cap: nat)
      requires Valid() && len <= cap
      modifies this`registry
      ensures Valid() && fresh(registry) && View() == old(View()).(cap := cap)
    {
      var from, n := registry, len;
      ghost var before := registry[..len];
      registry := new Pointer[cap](i reads from => if 0 <= i < n && i < from.Length then from[i] else 0);
      assert registry[..n] == before;
    }

    /** c2m__str_track. */
    method Track(p: Pointer)
      requires Valid()
      modifies this, registry
      ensures Valid() && (registry == old(registry) || fresh(registry))
      ensures View() == if p == 0 then old(View()) else Arenas.Track(old(View()), p)
    {
      if p == 0 { return; }
      if len == registry.Length { Resize(if registry.Length == 0 then 64 else registry.Length * 2); }
      registry[len] := p;
      len := len + 1;
      tracked := tracked + [p];
    }

    /** c2m_str_attach. */
    method Attach(p: Pointer)
      requires Valid()
      modifies this, registry
      ensures Valid() && (registry == old(registry) || fresh(registry))
      ensures View() == if p == 0 then old(View()) else Arenas.Track(old(View()), p)
    {
      Track(p);
    }

    /** c2m_str_checkpoint. */
    method Checkpoint() returns (mark: nat)
      requires Valid()
      ensures mark == |View().live|
    {
      mark := len;
    }

    /** The loop of frees: those from mark on, in order. */
    method FreeFrom(mark: nat)
      requires Valid() && mark <= len
      modifies this`gone
      ensures Valid() && gone == old(gone) + registry[mark..len]
    {
      var i := mark;
      while i < len
        invariant mark <= i <= len && gone == old(gone) + registry[mark..i]
      {
        gone := gone + [registry[i]];
        i := i + 1;
      }
    }

    /** c2m_str_release_to. */
    method ReleaseTo(mark: nat)
      requires Valid()
      modifies this
      ensures Valid() && (registry == old(registry) || fresh(registry))
      ensures View() == Arenas.ReleaseTo(old(View()), mark, false)
    {
      if mark > len { return; }
      ghost var live := registry[..len];
      FreeFrom(mark);
      assert registry[mark..len] == live[mark..];
      len := mark;
      assert registry[..len] == live[..mark];
      if registry.Length > 64 && len < registry.Length / 4 {
        Resize(if registry.Length / 2 < 64 then 64 else registry.Length / 2);
      }
    }

    /** c2m_str_release_keeping. */
    method ReleaseKeeping(mark: nat, keep: Pointer)
      requires Valid()
      modifies this, registry
      ensures Valid() && registry == old(registry)
      ensures View() == Arenas.ReleaseKeeping(old(View()), mark, keep)
    {
      if mark > len { return; }
      len := Compact(mark, keep);
    }

    /** Its loop: the entries to keep move down to the mark and the others are freed. */
    method Compact(mark: nat, keep: Pointer) returns (w: nat)
      requires Valid() && mark <= len
      modifies registry, this`gone
      ensures w <= len && forall k :: 0 <= k < w ==> registry[k] != 0
      ensures registry[..w] == old(registry[..mark]) + Keep(old(registry[..len]), mark, keep, true)
      ensures gone == old(gone) + Keep(old(registry[..len]), mark, keep, false)
    {
      ghost var live, front := registry[..len], registry[..mark];
      ghost var after := (front + Keep(live, mark, keep, true), gone + Keep(live, mark, keep, false));
      var i := mark;
      w := mark;
      while i < len
        invariant mark <= w == |front| <= i <= len == |live| && Holds(front)
        invariant forall k :: i <= k < len ==> registry[k] == live[k] != 0
        invariant forall k :: 0 <= k < w ==> front[k] != 0
        invariant Sorting(after.0, after.1, front, gone, live, i, keep)
        modifies registry, this`gone
      {
        SortStep(after.0, after.1, front, gone, live, i, keep);
        w, front := KeepOrFree(i, w, keep, front);
        i := i + 1;
      }
      assert registry[..w] == front;
    }

    ghost predicate Holds(s: seq<Pointer>)
      reads this`registry, registry
    {
      |s| <= registry.Length && forall k :: 0 <= k < |s| ==> registry[k] == s[k]
    }

    /** The loop body of release_keeping, with the entries kept so far in front. */
    method KeepOrFree(i: nat, w: nat, keep: Pointer, ghost front: seq<Pointer>)
      returns (w': nat, ghost front': seq<Pointer>)
      requires Holds(front) && w == |front| <= i < registry.Length && registry[i] != 0
      modifies registry, this`gone
      ensures var x := old(registry[i]);
              && front' == (if x == keep then front + [x] else front)
              && gone == (if x == keep then old(gone) else old(gone) + [x])
      ensures w' == |front'| && Holds(front')
      ensures forall k :: i < k < registry.Length ==> registry[k] == old(registry[k])
    {
      w', front' := w, front;
      if keep != 0 && registry[i] == keep {
        front' := front + [keep];
        registry[w] := keep;
        w' := w + 1;
      } else {
        gone := gone + [registry[i]];
      }
    }

    /** c2m_str_detach. */
    method Detach(p: Pointer)
      requires Valid()
      modifies this, registry
      ensures Valid() && registry == old(registry) && View() == StrDetach(old(View()), p)
    {
      var i := 0;
      while i < len
        invariant i <= len && FirstIndex(registry[..len], p, 0) == FirstIndex(registry[..len], p, i)
      {
        if registry[i] == p {
          RemoveAt(i);
          return;
        }
        i := i + 1;
      }
    }

    method RemoveAt(i: nat)
      requires Valid() && i < len
      modifies this`len, this`out, registry
      ensures Valid() && View() == DetachAt(old(View()), i)
    {
      out := out + [registry[i]];
      len := len - 1;
      registry[i] := registry[len];
    }

    /** c2m_str_cleanup. */
    method Cleanup()
      requires Valid()
      modifies this
      ensures Valid() && fresh(registry) && View() == Arenas.Cleanup(old(View()), false)
    {
      FreeFrom(0);
      registry := new Pointer[0];
      len := 0;
    }
  }

  class ObjectRegistry {
    var registry: array<Handle>
    var len: nat
    ghost var tracked: seq<Handle>
    ghost var gone: seq<Handle>
    ghost var out: seq<Handle>

    ghost predicate Valid()
      reads this, registry
    {
      len <= registry.Length
    }

    ghost function View(): Arena<Handle>
      requires Valid()
      reads this, registry
    {
      Arena(registry[..len], registry.Length, tracked, gone, out)
    }

    constructor ()
      ensures Valid() && fresh(registry) && View() == Empty()
    {
      registry := new Handle[0];
      len, tracked, gone, out := 0, [], [], [];
    }

    method Resize(cap: nat)
      requires Valid() && len <= cap
      modifies this`registry
      ensures Valid() && fresh(registry) && View() == old(View()).(cap := cap)
    {
      var from, n := registry, len;
      ghost var before := registry[..len];
      registry := new Handle[cap](i reads from => if 0 <= i < n && i < from.Length then from[i] else Handle(0, 0));
      assert registry[..n] == before;
    }

    /** c2m_obj_track. */
    method Track(p: Pointer, dtor: nat)
      requires Valid()
      modifies this, registry
      ensures Valid() && (registry == old(registry) || fresh(registry))
      ensures View() == if p == 0 then old(View()) else Arenas.Track(old(View()), Handle(p, dtor))
    {
      if p == 0 { return; }
      if len == registry.Length { Resize(if registry.Length == 0 then 64 else registry.Length * 2); }
      registry[len] := Handle(p, dtor);
      len := len + 1;
      tracked := tracked + [Handle(p, dtor)];
    }

    /** c2m_obj_checkpoint. */
    method Checkpoint() returns (mark: nat)
      requires Valid()
      ensures mark == |View().live|
    {
      mark := len;
    }

    /** Destroy the entries between len and oldLen, the last one first. */
    method DestroyAbove(oldLen: nat)
      requires Valid() && len <= oldLen <= registry.Length
      modifies this`gone
      ensures gone == old(gone) + Reverse(registry[len..oldLen])
    {
      var i := oldLen;
      while i > len
        invariant len <= i <= oldLen
        invariant gone + Reverse(registry[len..i]) == old(gone) + Reverse(registry[len..oldLen])
      {
        i := i - 1;
        assert registry[len..i + 1] == registry[len..i] + [registry[i]];
        ReverseSnoc(registry[len..i], registry[i]);
        gone := gone + [registry[i]];
      }
      assert registry[len..len] == [];
    }

    /** c2m_obj_release_to: truncated first, so a destructor sees the registry without the released part. */
    method ReleaseTo(mark: nat)
      requires Valid()
      modifies this
      ensures Valid() && (registry == old(registry) || fresh(registry))
      ensures View() == Arenas.ReleaseTo(old(View()), mark, true)
    {
      if mark > len { return; }
      ghost var live := registry[..len];
      var oldLen := len;
      len := mark;
      DestroyAbove(oldLen);
      assert registry[mark..oldLen] == live[mark..] && registry[..len] == live[..mark];
      if registry.Length > 64 && len < registry.Length / 4 {
        Resize(if registry.Length / 2 < 64 then 64 else registry.Length / 2);
      }
    }

    /** c2m_obj_detach: from the most recent end. */
    method Detach(p: Pointer)
      requires Valid()
      modifies this, registry
      ensures Valid() && registry == old(registry) && View() == ObjDetach(old(View()), p)
    {
      var i: nat := len;
      while i > 0
        invariant i <= len && LastIndex(registry[..len], p, len) == LastIndex(registry[..len], p, i)
      {
        i := i - 1;
        if registry[i].ptr == p {
          RemoveAt(i);
          return;
        }
      }
    }

    method RemoveAt(i: nat)
      requires Valid() && i < len
      modifies this`len, this`out, registry
      ensures Valid() && View() == DetachAt(old(View()), i)
    {
      out := out + [registry[i]];
      len := len - 1;
      registry[i] := registry[len];
    }

    /** c2m_obj_cleanup. */
    method Cleanup()
      requires Valid()
      modifies this
      ensures Valid() && fresh(registry) && View() == Arenas.Cleanup(old(View()), true)
    {
      var oldLen := len;
      ghost var live := registry[..len];
      len := 0;
      DestroyAbove(oldLen);
      assert registry[0..oldLen] == live;
      registry := new Handle[0];
    }
  }
}
