/** Unicode code points as bytes, by the table of section 3 of RFC 3629. */
module CodePoints {
  import opened Prelude

  type CodePoint = cp: nat | cp < 0x110000

  /** The number of bytes, the high bits of the first of them, and six bits of the number in each other. */
  function Encode(cp: CodePoint): (b: bytes)
    ensures b != []
  {
    if cp < 0x80 then [cp as byte]
    else if cp < 0x800 then [(0xC0 + cp / 0x40) as byte, (0x80 + cp % 0x40) as byte]
    else if cp < 0x10000 then
      [(0xE0 + cp / 0x1000) as byte, (0x80 + cp / 0x40 % 0x40) as byte, (0x80 + cp % 0x40) as byte]
    else
      [(0xF0 + cp / 0x40000) as byte, (0x80 + cp / 0x1000 % 0x40) as byte, (0x80 + cp / 0x40 % 0x40) as byte,
       (0x80 + cp % 0x40) as byte]
  }

  /** The bits of b, sequence by sequence: 0xxxxxxx, or 110xxxxx, 1110xxxx or 11110xxx before bytes 10xxxxxx,
      and the number that the x spell. */
  ghost predicate IsEncodingOf(b: bytes, cp: nat) {
    match |b|
    case 1 => b[0] / 0x80 == 0 && cp == b[0] as nat
    case 2 => b[0] / 0x20 == 6 && b[1] / 0x40 == 2 && cp == Low(b[0], 0x20) * 0x40 + Low(b[1], 0x40)
    case 3 =>
      && b[0] / 0x10 == 14 && b[1] / 0x40 == 2 && b[2] / 0x40 == 2
      && cp == (Low(b[0], 0x10) * 0x40 + Low(b[1], 0x40)) * 0x40 + Low(b[2], 0x40)
    case 4 =>
      && b[0] / 8 == 30 && b[1] / 0x40 == 2 && b[2] / 0x40 == 2 && b[3] / 0x40 == 2
      && cp == ((Low(b[0], 8) * 0x40 + Low(b[1], 0x40)) * 0x40 + Low(b[2], 0x40)) * 0x40 + Low(b[3], 0x40)
    case _ => false
  }

  function Low(c: byte, n: byte): nat
    requires n > 0
  {
    (c % n) as nat
  }

  lemma SixBits(n: nat)
    ensures n == n / 0x40 * 0x40 + n % 0x40 && n / 0x40 / 0x40 == n / 0x1000 && n / 0x1000 / 0x40 == n / 0x40000
  {
  }

  /** A byte made of high bits and a smaller number. */
  lemma HighAndLow(high: byte, n: byte, low: nat)
    requires n == 0x40 || n == 0x20 || n == 0x10 || n == 8
    requires low < n as nat && high % n == 0 && high as nat + low < 256
    ensures var c := (high as nat + low) as byte; c / n == high / n && Low(c, n) == low
  {
    if n == 0x40 {} else if n == 0x20 {} else if n == 0x10 {} else {}
  }

  lemma TwoBytes(cp: CodePoint)
    requires 0x80 <= cp < 0x800
    ensures IsEncodingOf(Encode(cp), cp)
  {
    SixBits(cp);
    HighAndLow(0xC0, 0x20, cp / 0x40);
    HighAndLow(0x80, 0x40, cp % 0x40);
  }

  lemma ThreeBytes(cp: CodePoint)
    requires 0x800 <= cp < 0x10000
    ensures IsEncodingOf(Encode(cp), cp)
  {
    SixBits(cp);
    SixBits(cp / 0x40);
    HighAndLow(0xE0, 0x10, cp / 0x1000);
    HighAndLow(0x80, 0x40, cp / 0x40 % 0x40);
    HighAndLow(0x80, 0x40, cp % 0x40);
  }

  lemma FourBytes(cp: CodePoint)
    requires 0x10000 <= cp
    ensures IsEncodingOf(Encode(cp), cp)
  {
    SixBits(cp);
    SixBits(cp / 0x40);
    SixBits(cp / 0x1000);
    HighAndLow(0xF0, 8, cp / 0x40000);
    HighAndLow(0x80, 0x40, cp / 0x1000 % 0x40);
    HighAndLow(0x80, 0x40, cp / 0x40 % 0x40);
    HighAndLow(0x80, 0x40, cp % 0x40);
  }

  /** The encoding of a number has these bits, and is as short as it can be. */
  lemma EncodeSpells(cp: CodePoint)
    ensures IsEncodingOf(Encode(cp), cp)
    ensures |Encode(cp)| == if cp < 0x80 then 1 else if cp < 0x800 then 2 else if cp < 0x10000 then 3 else 4
  {
    if 0x10000 <= cp { FourBytes(cp); }
    else if 0x800 <= cp { ThreeBytes(cp); }
    else if 0x80 <= cp { TwoBytes(cp); }
  }
}
