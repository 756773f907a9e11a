/** Zero-terminated strings in buffers, and the byte loops shared by the String operations. */
module CStrings {
  import opened Prelude

  /** The buffer holds the text t and its terminator; NULL stands for no text. */
  ghost predicate IsText(a: array?<byte>, t: bytes)
    reads a
  {
    NulFree(t) && if a == null then t == [] else Wrote(a, t) && |t| < a.Length && a[|t|] == 0
  }

  /** c2m__bytelen. */
  method ByteLen(s: array?<byte>, ghost t: bytes) returns (n: nat)
    requires IsText(s, t)
    ensures n == |t|
  {
    n := 0;
    if s != null {
      while s[n] != 0
        invariant n <= |t|
        decreases |t| - n
      {
        n := n + 1;
      }
    }
  }

  /** c2m__copy: n bytes of src, from `from` on, after what is already written. */
  method Copy(dst: array<byte>, off: nat, ghost done: bytes, src: array<byte>, from: nat, n: nat, ghost chunk: bytes)
    requires dst != src && off == |done| && off + n <= dst.Length && Wrote(dst, done)
    requires |chunk| == n && from + n <= src.Length && forall k :: 0 <= k < n ==> chunk[k] == src[from + k]
    modifies dst
    ensures Wrote(dst, done + chunk)
  {
    var i := 0;
    while i < n
      invariant 0 <= i <= n && Wrote(dst, done)
      invariant forall k :: 0 <= k < i ==> dst[off + k] == chunk[k]
    {
      dst[off + i] := src[from + i];
      i := i + 1;
    }
    forall k | 0 <= k < off + n ensures dst[k] == (done + chunk)[k] {
      if k >= off { assert dst[off + (k - off)] == chunk[k - off]; }
    }
  }

  /** Copy all of a text, if there is any. */
  method CopyText(dst: array<byte>, off: nat, ghost done: bytes, src: array?<byte>, n: nat, ghost t: bytes)
    returns (end: nat)
    requires dst != src && IsText(src, t) && n == |t| && off == |done| && off + n <= dst.Length && Wrote(dst, done)
    modifies dst
    ensures end == off + n && Wrote(dst, done + t)
  {
    if n != 0 { Copy(dst, off, done, src, 0, n, t); } else { assert done + t == done; }
    end := off + n;
  }

  method PutByte(dst: array<byte>, off: nat, ghost done: bytes, c: byte)
    requires off == |done| < dst.Length && Wrote(dst, done)
    modifies dst
    ensures Wrote(dst, done + [c])
  {
    dst[off] := c;
  }

  /** Write the terminator. */
  method Terminate(r: array<byte>, n: nat, ghost t: bytes)
    requires n == |t| < r.Length && Wrote(r, t) && NulFree(t)
    modifies r
    ensures IsText(r, t)
  {
    r[n] := 0;
  }

  /** A fresh String holding n bytes of src from `from` on: allocate, copy, terminate. */
  method NewString(src: array?<byte>, from: nat, n: nat, ghost t: bytes) returns (r: array<byte>)
    requires |t| == n && NulFree(t) && (src == null ==> n == 0)
    requires src != null ==> from + n <= src.Length && forall k :: 0 <= k < n ==> t[k] == src[from + k]
    ensures fresh(r) && IsText(r, t) && r.Length == n + 1
  {
    r := new byte[n + 1];
    if src != null { Copy(r, 0, [], src, from, n, t); }
    assert [] + t == t;
    Terminate(r, n, t);
  }
}
