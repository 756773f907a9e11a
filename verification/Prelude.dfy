/** Vocabulary shared by the other modules. */
module Prelude {
  datatype Option<+T> = None | Some(value: T)

  newtype byte = x: int | 0 <= x < 256

  type bytes = seq<byte>

  ghost predicate NulFree(t: bytes) {
    forall k :: 0 <= k < |t| ==> t[k] != 0
  }

  /** The first bytes of the buffer are those of t. */
  ghost predicate Wrote(a: array<byte>, t: bytes)
    reads a
  {
    |t| <= a.Length && forall k :: 0 <= k < |t| ==> a[k] == t[k]
  }

  /** The concatenation of `enc` over a sequence. */
  function Flatten<T, U>(enc: T -> seq<U>, xs: seq<T>): seq<U> {
    if xs == [] then [] else Flatten(enc, xs[..|xs| - 1]) + enc(xs[|xs| - 1])
  }

  lemma {:induction false} FlattenAppend<T, U>(enc: T -> seq<U>, a: seq<T>, b: seq<T>)
    ensures Flatten(enc, a + b) == Flatten(enc, a) + Flatten(enc, b)
    decreases |b|
  {
    if b == [] {
      assert a + b == a;
    } else {
      var n := |b| - 1;
      assert (a + b)[..|a + b| - 1] == a + b[..n];
      FlattenAppend(enc, a, b[..n]);
    }
  }

  lemma Reassociate<T>(a: seq<T>, b: seq<T>, c: seq<T>)
    ensures (a + b) + c == a + (b + c)
  {
  }

  lemma FlattenOne<T, U>(enc: T -> seq<U>, x: T)
    ensures Flatten(enc, [x]) == enc(x)
  {
    assert [x][..0] == [];
  }

  lemma FlattenSnoc<T, U>(enc: T -> seq<U>, xs: seq<T>, x: T)
    ensures Flatten(enc, xs + [x]) == Flatten(enc, xs) + enc(x)
  {
    FlattenAppend(enc, xs, [x]);
    FlattenOne(enc, x);
  }

  lemma FlattenCons<T, U>(enc: T -> seq<U>, x: T, xs: seq<T>)
    ensures Flatten(enc, [x] + xs) == enc(x) + Flatten(enc, xs)
  {
    FlattenAppend(enc, [x], xs);
    FlattenOne(enc, x);
  }

  /** Reading items one after another until one ends the stream or nothing more can be read. */
  function ReadAll<T>(read: bytes -> Option<(T, bytes)>, ends: T -> bool, s: bytes): seq<T>
    decreases |s|
  {
    match read(s)
    case None => []
    case Some((x, rest)) =>
      if ends(x) || |rest| >= |s| then [x] else [x] + ReadAll(read, ends, rest)
  }

  ghost predicate InvertsAt<T>(read: bytes -> Option<(T, bytes)>, enc: T -> bytes, x: T, rest: bytes) {
    enc(x) != [] && read(enc(x) + rest) == Some((x, rest))
  }

  ghost predicate Inverts<T(!new)>(read: bytes -> Option<(T, bytes)>, enc: T -> bytes) {
    forall x, rest :: InvertsAt(read, enc, x, rest)
  }

  /** Reading undoes encoding when it does so item by item. */
  lemma {:induction false} ReadAllEncoded<T(!new)>(read: bytes -> Option<(T, bytes)>, ends: T -> bool, enc: T -> bytes,
                                                   xs: seq<T>, rest: bytes)
    requires Inverts(read, enc)
    requires xs != [] && ends(xs[|xs| - 1]) && forall i :: 0 <= i < |xs| - 1 ==> !ends(xs[i])
    ensures ReadAll(read, ends, Flatten(enc, xs) + rest) == xs
    decreases |xs|
  {
    var x, tail := xs[0], xs[1..];
    assert xs == [x] + tail;
    FlattenCons(enc, x, tail);
    var after := Flatten(enc, tail) + rest;
    assert Flatten(enc, xs) + rest == enc(x) + after;
    assert InvertsAt(read, enc, x, after);
    if tail == [] {
      assert after == rest;
    } else {
      ReadAllEncoded(read, ends, enc, tail, rest);
    }
  }
}
