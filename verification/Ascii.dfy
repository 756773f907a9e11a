/** Characters, digits and numbers in text. */
module Ascii {
  import opened Prelude

  const LF: byte := 10
  const CR: byte := 13
  const SPACE: byte := 32

  predicate IsDigit(c: byte) {
    48 <= c <= 57
  }

  /** The value of a hex digit, or 16 for any other byte. */
  function HexDigit(c: byte): (d: nat)
    ensures d <= 16
  {
    if 48 <= c <= 57 then c as nat - 48            // 0-9
    else if 97 <= c <= 102 then c as nat - 87      // a-f
    else if 65 <= c <= 70 then c as nat - 55       // A-F
    else 16
  }

  /** The last decimal digit of a number. */
  function Digit(v: nat): byte {
    (48 + v % 10) as byte
  }

  /** The digits of a number, most significant first. */
  function Digits(v: nat): (t: bytes)
    ensures t != []
  {
    if v < 10 then [Digit(v)] else Digits(v / 10) + [Digit(v)]
  }

  lemma {:induction false} DigitsAreDigits(v: nat)
    ensures forall k :: 0 <= k < |Digits(v)| ==> IsDigit(Digits(v)[k])
  {
    if v >= 10 { DigitsAreDigits(v / 10); }
  }

  function Pow10(d: nat): nat {
    if d == 0 then 1 else 10 * Pow10(d - 1)
  }

  lemma {:induction false} DigitsLength(v: nat, d: nat)
    requires d > 0 && v < Pow10(d)
    ensures |Digits(v)| <= d
  {
    if v >= 10 {
      assert Pow10(1) == 10;
      DigitsLength(v / 10, d - 1);
    }
  }
}
