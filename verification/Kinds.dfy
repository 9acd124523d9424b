/**
  The register types of main/regs.h in numbers: their widths (main/regs.c:386-416), their ranges and
  the value that the bytes of an element stand for.
 */
module Kinds {
  import opened Bits
  import opened Memory
  import opened Registers

  /** The bytes of one element. */
  function Width(k: Kind): nat {
    if k in {U8, I8} then 1
    else if k in {U16, S16} then 2
    else if k in {U32, S32, Int32, Time, Float} then 4
    else 8
  }

  /** What is computed about elements of a kind is computed with its width. */
  lemma WidthIsSize(k: Kind, n: nat)
    ensures SizeInByte(k) == Width(k) && Scale(n, k) == n * Width(k)
  {
    ScaleIsProduct(n, k);
  }

  lemma PatternCounts()
    ensures Pow256(1) == 256 && Pow256(2) == 65536 && Pow256(4) == 4294967296
    ensures Pow256(8) == 18446744073709551616
  {
    assert Pow256(3) == 16777216;
    assert Pow256(6) == 281474976710656;
  }

  /** The values of every integer kind. */
  lemma RangeInNumbers(k: Kind, v: int)
    requires !IsReal(k)
    ensures InKind(k, v) <==>
            match k
            case U8 => 0 <= v <= 255
            case I8 => -128 <= v <= 127
            case U16 => 0 <= v <= 65535
            case S16 => -32768 <= v <= 32767
            case U32 | Time => 0 <= v <= 4294967295
            case S32 | Int32 => -2147483648 <= v <= 2147483647
            case U64 => 0 <= v <= 18446744073709551615
            case S64 => -9223372036854775808 <= v <= 9223372036854775807
            case Float | Double => false
  {
    PatternCounts();
  }

  /** Four bytes, the lowest first. */
  function FourBytes(a: byte, b: byte, c: byte, d: byte): nat {
    a + 256 * b + 65536 * c + 16777216 * d
  }

  /** The bytes of an element read as a number without sign, the lowest first. */
  function Unsigned(s: seq<byte>): nat
    requires |s| in {1, 2, 4, 8}
  {
    if |s| == 1 then s[0]
    else if |s| == 2 then s[0] + 256 * s[1]
    else if |s| == 4 then FourBytes(s[0], s[1], s[2], s[3])
    else FourBytes(s[0], s[1], s[2], s[3]) + 4294967296 * FourBytes(s[4], s[5], s[6], s[7])
  }

  lemma ValueOfTwo(s: seq<byte>)
    requires |s| >= 2
    ensures Value(s) == s[0] + 256 * s[1] + 65536 * Value(s[2..])
  {
    assert s[1..][1..] == s[2..];
  }

  lemma ValueOfFour(s: seq<byte>)
    requires |s| >= 4
    ensures Value(s) == FourBytes(s[0], s[1], s[2], s[3]) + 4294967296 * Value(s[4..])
  {
    ValueOfTwo(s);
    ValueOfTwo(s[2..]);
    assert s[2..][2..] == s[4..];
  }

  lemma ValueIsUnsigned(s: seq<byte>)
    requires |s| in {1, 2, 4, 8}
    ensures Value(s) == Unsigned(s)
  {
    if |s| == 1 {
      assert Value(s[1..]) == 0;
    } else if |s| == 2 {
      ValueOfTwo(s);
      assert Value(s[2..]) == 0;
    } else {
      ValueOfFour(s);
      if |s| == 4 {
        assert Value(s[4..]) == 0;
      } else {
        ValueOfFour(s[4..]);
        assert Value(s[4..][4..]) == 0;
      }
    }
  }

  /**
    The value of an element: little endian, and for a signed kind two's complement, so that patterns
    with the top digit stand for negative numbers.
   */
  lemma DecodedInNumbers(k: Kind, s: seq<byte>)
    requires !IsReal(k) && |s| == Width(k)
    ensures |s| == SizeInByte(k)
    ensures var u := Unsigned(s);
            Decode(k, s) ==
            match k
            case I8 => if u >= 128 then u - 256 else u
            case S16 => if u >= 32768 then u - 65536 else u
            case S32 | Int32 => if u >= 2147483648 then u - 4294967296 else u
            case S64 => if u >= 9223372036854775808 then u - 18446744073709551616 else u
            case _ => u
  {
    ValueIsUnsigned(s);
    PatternCounts();
  }
}
