/** The 7-segment decoder of the board display: a segment byte names one
    hexadecimal digit. The segments are active low, so a 0 bit lights its
    segment. */
module SevenSegment {

  /** A `quint8`. */
  type Byte = x: int | 0 <= x < 256

  /** Passing a C++ `int` where a `quint8` is expected keeps its low eight
      bits; Dafny's `%` is never negative, so this is the two's-complement
      narrowing for negative values too. */
  function ToByte(x: int): (b: Byte)
    ensures 0 <= x < 256 ==> b == x
  {
    x % 256
  }

  /** The segment byte of each hexadecimal digit 0 .. 15, in order. */
  const Patterns: seq<Byte> :=
    [0xC0, 0xF9, 0xA4, 0xB0, 0x99, 0x92, 0x82, 0xF8,
     0x80, 0x90, 0x88, 0x83, 0xC6, 0xA1, 0x86, 0x8D]

  /** The digit a segment byte shows, or -1 when the byte is not one of the
      sixteen patterns. */
  function DecodeDigit(b: Byte): (r: int)
    ensures -1 <= r < 16
    ensures r >= 0 ==> Patterns[r] == b
    ensures r == -1 <==> b !in Patterns
  {
    match b
    case 0xC0 => 0
    case 0xF9 => 1
    case 0xA4 => 2
    case 0xB0 => 3
    case 0x99 => 4
    case 0x92 => 5
    case 0x82 => 6
    case 0xF8 => 7
    case 0x80 => 8
    case 0x90 => 9
    case 0x88 => 10
    case 0x83 => 11
    case 0xC6 => 12
    case 0xA1 => 13
    case 0x86 => 14
    case 0x8D => 15
    case _ => -1
  }

  /** Every digit's own pattern decodes to that digit, so the sixteen
      recognised bytes and the sixteen digits correspond one to one. */
  lemma DecodePattern(d: nat)
    requires d < 16
    ensures DecodeDigit(Patterns[d]) == d
  {
    var r := DecodeDigit(Patterns[d]);
    assert r >= 0;
    assert forall i, j :: 0 <= i < j < 16 ==> Patterns[i] != Patterns[j];
  }

  /** Distinct recognised bytes decode to distinct digits. */
  lemma DecodeInjective(b1: Byte, b2: Byte)
    requires DecodeDigit(b1) >= 0
    requires DecodeDigit(b1) == DecodeDigit(b2)
    ensures b1 == b2
  {
  }

  /** Narrowing to a `quint8` forgets multiples of 256. */
  lemma {:induction false} ToByteModulo(x: int, m: int)
    ensures ToByte(x + 256 * m) == ToByte(x)
    decreases if m < 0 then -m else m
  {
    if m > 0 {
      ToByteModulo(x, m - 1);
      assert x + 256 * m == (x + 256 * (m - 1)) + 256;
    } else if m < 0 {
      ToByteModulo(x, m + 1);
      assert x + 256 * m == (x + 256 * (m + 1)) - 256;
    }
  }

  /** What the display shows depends on the segment value only modulo 256:
      adding any multiple of 256 to the `int` changes nothing. */
  lemma DecodeLowByteOnly(x: int, m: int)
    ensures DecodeDigit(ToByte(x + 256 * m)) == DecodeDigit(ToByte(x))
  {
    ToByteModulo(x, m);
  }
}
