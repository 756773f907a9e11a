/** LEB128 numbers as src/dwarf-gen.h writes them (section 7.6 of DWARF version 4), and the readers
    that undo them. */
module Leb128 {
  import opened Prelude

  function Uleb(v: nat): bytes {
    if v < 128 then [v as byte]
    else [(v % 128 + 128) as byte] + Uleb(v / 128)
  }

  /** One more byte is needed unless the rest is the sign extension of the bits written. */
  predicate SlebEnds(v: int) {
    (v / 128 == 0 && v % 128 < 64) || (v / 128 == -1 && v % 128 >= 64)
  }

  function Sleb(v: int): bytes
    decreases if v < 0 then -v else v
  {
    if SlebEnds(v) then [(v % 128) as byte]
    else [(v % 128 + 128) as byte] + Sleb(v / 128)
  }

  function ReadUleb(s: bytes): Option<(nat, bytes)> {
    if s == [] then None
    else if s[0] < 128 then Some((s[0] as nat, s[1..]))
    else match ReadUleb(s[1..])
      case None => None
      case Some((v, rest)) => Some((s[0] as nat - 128 + 128 * v, rest))
  }

  function ReadSleb(s: bytes): Option<(int, bytes)> {
    if s == [] then None
    else if s[0] < 64 then Some((s[0] as int, s[1..]))
    else if s[0] < 128 then Some((s[0] as int - 128, s[1..]))
    else match ReadSleb(s[1..])
      case None => None
      case Some((v, rest)) => Some((s[0] as int - 128 + 128 * v, rest))
  }

  /** v without its k lowest groups of seven bits. */
  function Shifted(v: int, k: nat): int
    decreases k
  {
    if k == 0 then v else Shifted(v / 128, k - 1)
  }

  /** The seven low bits of byte k are group k of the number, lowest group first, the high bit of every byte but
      the last is set, and nothing is left behind the last, but something behind every other. */
  ghost predicate Groups(t: bytes, v: int, signed: bool) {
    && t != [] && (forall k :: 0 <= k < |t| ==> t[k] as int % 128 == Shifted(v, k) % 128)
    && (forall k :: 0 <= k < |t| ==> (t[k] >= 0x80 <==> k < |t| - 1))
    && (forall k :: 0 <= k < |t| ==> (NothingLeft(t[k], Shifted(v, k + 1), signed) <==> k == |t| - 1))
  }

  /** What follows byte b are no bits, or copies of its sign bit when signed. */
  predicate NothingLeft(b: byte, rest: int, signed: bool) {
    rest == if signed && b as int % 128 >= 0x40 then -1 else 0
  }

  lemma MoreGroups(b: byte, t: bytes, v: int, signed: bool)
    requires Groups(t, v / 128, signed) && b >= 0x80 && b as int % 128 == v % 128
    requires !NothingLeft(b, v / 128, signed)
    ensures Groups([b] + t, v, signed)
  {
    var u := [b] + t;
    forall k | 0 <= k < |u|
      ensures u[k] as int % 128 == Shifted(v, k) % 128 && (u[k] >= 0x80 <==> k < |u| - 1)
      ensures NothingLeft(u[k], Shifted(v, k + 1), signed) <==> k == |u| - 1
    {
      if k > 0 { assert u[k] == t[k - 1]; }
      assert Shifted(v, 1) == Shifted(v / 128, 0);
    }
  }

  lemma {:induction false} UlebGroups(v: nat)
    ensures Groups(Uleb(v), v, false)
  {
    if v < 128 {
      assert Shifted(v, 1) == Shifted(v / 128, 0);
    } else {
      UlebGroups(v / 128);
      MoreGroups((v % 128 + 128) as byte, Uleb(v / 128), v, false);
    }
  }

  lemma {:induction false} SlebGroups(v: int)
    ensures Groups(Sleb(v), v, true)
    decreases if v < 0 then -v else v
  {
    if SlebEnds(v) {
      assert Shifted(v, 1) == Shifted(v / 128, 0);
    } else {
      SlebGroups(v / 128);
      MoreGroups((v % 128 + 128) as byte, Sleb(v / 128), v, true);
    }
  }

  lemma {:induction false} UlebRoundTrip(v: nat, rest: bytes)
    ensures ReadUleb(Uleb(v) + rest) == Some((v, rest))
  {
    var s := Uleb(v) + rest;
    if v < 128 {
      assert s[1..] == rest;
    } else {
      UlebRoundTrip(v / 128, rest);
      assert s[1..] == Uleb(v / 128) + rest;
    }
  }

  lemma {:induction false} SlebRoundTrip(v: int, rest: bytes)
    ensures ReadSleb(Sleb(v) + rest) == Some((v, rest))
    decreases if v < 0 then -v else v
  {
    var s := Sleb(v) + rest;
    if SlebEnds(v) {
      assert s[1..] == rest;
    } else {
      SlebRoundTrip(v / 128, rest);
      assert s[1..] == Sleb(v / 128) + rest;
    }
  }

  /** dwbuf_t: an output buffer that only grows. */
  class Buffer {
    var data: bytes

    constructor ()
      ensures data == []
    {
      data := [];
    }

    method PutByte(b: byte)
      modifies this
      ensures data == old(data) + [b]
    {
      data := data + [b];
    }

    method PutBytes(s: bytes)
      modifies this
      ensures data == old(data) + s
    {
      data := data + s;
    }

    /** dwbuf_uleb. */
    method PutUleb(value: nat)
      modifies this
      ensures data == old(data) + Uleb(value)
    {
      var v := value;
      while true
        invariant data + Uleb(v) == old(data) + Uleb(value)
        decreases v
      {
        var b := (v % 128) as byte;
        var next := v / 128;
        if next != 0 { b := b + 128; }
        ghost var before := data;
        PutByte(b);
        if next == 0 { return; }
        assert before + Uleb(v) == data + Uleb(next);
        v := next;
      }
    }

    /** dwbuf_sleb. */
    method PutSleb(value: int)
      modifies this
      ensures data == old(data) + Sleb(value)
    {
      var v := value;
      var more := true;
      while more
        invariant if more then data + Sleb(v) == old(data) + Sleb(value) else data == old(data) + Sleb(value)
        decreases more, if v < 0 then -v else v
      {
        ghost var before, was := data, v;
        var b := (v % 128) as byte;
        v := v / 128;
        if (v == 0 && b < 64) || (v == -1 && b >= 64) {
          more := false;
        } else {
          b := b + 128;
        }
        PutByte(b);
        assert before + Sleb(was) == if more then data + Sleb(v) else data;
      }
    }
  }
}
