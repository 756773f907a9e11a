/** Numbers spelled out in digits: what the readers and writers of digits are measured against. */
module Numerals {
  import opened Prelude
  import opened Ascii
  import opened Modular

  /** The bytes of a literal. */
  function Text(s: string): (t: bytes)
    requires forall k :: 0 <= k < |s| ==> s[k] < 128 as char
    ensures |t| == |s| && forall k :: 0 <= k < |s| ==> t[k] as int == s[k] as int
  {
    seq(|s|, k requires 0 <= k < |s| => s[k] as int as byte)
  }

  /** The digit for d: '0' to '9', and the letters from `ten` on. */
  function Numeral(d: nat, ten: char): byte
    requires d < 16 && ten <= 'a'
  {
    (if d < 10 then '0' as int + d else ten as int + (d - 10)) as byte
  }

  /** c is the digit for d, in either case. */
  ghost predicate IsNumeral(c: byte, d: nat) {
    d < 16 && (c == Numeral(d, 'a') || c == Numeral(d, 'A'))
  }

  /** t spells n in the given base, most significant digit first; zeros may lead. */
  ghost predicate Spells(t: bytes, n: nat, base: nat)
    requires 2 <= base <= 16
  {
    && t != [] && IsNumeral(t[|t| - 1], n % base)
    && if |t| == 1 then n < base else Spells(t[..|t| - 1], n / base, base)
  }

  lemma SpellsMore(t: bytes, n: nat, c: byte, d: nat, base: nat)
    requires 2 <= base <= 16 && Spells(t, n, base) && IsNumeral(c, d) && d < base
    ensures Spells(t + [c], n * base + d, base)
  {
    QuotientOf(n, d, base);
    assert (t + [c])[..|t|] == t;
  }

  lemma QuotientOf(n: nat, d: nat, base: nat)
    requires d < base
    ensures (n * base + d) / base == n && (n * base + d) % base == d
  {
    var a := n * base + d;
    var q := a / base;
    ModUnique(a, n, d, base);
    assert a == q * base + d;
    assert (q - n) * base == 0;
    NoSmallMultiple(0, q - n, base);
  }

  lemma DigitIs(c: byte, d: nat)
    requires IsNumeral(c, d)
    ensures HexDigit(c) == d && (d < 10 ==> IsDigit(c) && c as nat == 48 + d) && (d >= 10 ==> !IsDigit(c))
  {
  }

  lemma IsDigitFor(c: byte)
    requires HexDigit(c) < 16
    ensures IsNumeral(c, HexDigit(c))
  {
  }

  /** The decimal text of a number spells it, with no zero in front. */
  lemma {:induction false} DigitsSpell(v: nat)
    ensures Spells(Digits(v), v, 10) && (v > 0 ==> Digits(v)[0] != 48) && (v == 0 ==> |Digits(v)| == 1)
  {
    var t := Digits(v);
    assert HexDigit(Digit(v)) == v % 10;
    IsDigitFor(Digit(v));
    if v >= 10 {
      DigitsSpell(v / 10);
      assert t[..|t| - 1] == Digits(v / 10);
    }
  }
}
