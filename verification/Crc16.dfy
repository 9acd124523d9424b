/**
  The two 16-bit checksums: the reflected one of Modbus RTU frames (main/modbus.c) and the
  unreflected one of the SLIP settings packets (main/crc.c).

  Each method runs the nested byte and bit loops of the C code and is proved equal to a
  recursive run over the bytes; the strength of the checks is proved about the runs.
 */
module Crc16 {
  import opened Bits

  /** The cap that `modbus_crc16` puts on its length argument. */
  const MODBUS_CRC_CAP := 254

  const RTU_POLYNOMIAL: u16 := 0xA001
  const CCITT_POLYNOMIAL: u16 := 0x1021

  // ------------------------------------------------------------- reflected (Modbus)

  /** One round of the inner loop. */
  function Shift(r: u16): u16 {
    Mix(r / 2, RTU_POLYNOMIAL, r % 2 == 1)
  }

  /** `n` rounds of the inner loop. */
  function Shifts(r: u16, n: nat): u16 {
    if n == 0 then r else Shift(Shifts(r, n - 1))
  }

  function Absorb(r: u16, b: byte): u16 {
    XorFits16(r, b);
    Shifts(Xor(r, b), 8)
  }

  /** The checksum register after the bytes of `m`, started from `r`. */
  function Run(r: u16, m: seq<byte>): u16 {
    if m == [] then r else Absorb(Run(r, m[..|m| - 1]), m[|m| - 1])
  }

  function Capped(m: seq<byte>): seq<byte> {
    if |m| > MODBUS_CRC_CAP then m[..MODBUS_CRC_CAP] else m
  }

  function ModbusCrc(m: seq<byte>): u16 {
    Run(0xFFFF, Capped(m))
  }

  /** A 16-bit word as it lies in memory: low byte first. */
  function Word(lo: byte, hi: byte): u16 {
    lo + 256 * hi
  }

  /** The stored form of a checksum. */
  function Tail(crc: u16): (t: seq<byte>)
    ensures |t| == 2 && Word(t[0], t[1]) == crc
  {
    [crc % 256, crc / 256]
  }

  predicate ModbusCheck(f: seq<byte>) {
    |f| >= 3 && ModbusCrc(f[..|f| - 2]) == Word(f[|f| - 2], f[|f| - 1])
  }

  method ModbusCrc16(pckt: array<byte>, from: nat, length: nat) returns (result: u16)
    requires from + length <= pckt.Length
    ensures result == ModbusCrc(pckt[from..from + length])
  {
    var len := if length > 254 then 254 else length;
    result := 0xFFFF;
    var i := 0;
    while i < len
      invariant 0 <= i <= len
      invariant result == Run(0xFFFF, pckt[from..from + i])
    {
      XorFits16(result, pckt[from + i]);
      var mixed := Xor(result, pckt[from + i]);
      result := mixed;
      for j := 0 to 8
        invariant result == Shifts(mixed, j)
      {
        if result % 2 == 1 {
          XorFits16(result / 2, RTU_POLYNOMIAL);
          result := Xor(result / 2, RTU_POLYNOMIAL);
        } else {
          result := result / 2;
        }
      }
      assert pckt[from..from + i + 1][..i] == pckt[from..from + i];
      i := i + 1;
    }
    assert Capped(pckt[from..from + length]) == pckt[from..from + len];
  }

  method ModbusCrc16Check(pckt: array<byte>, from: nat, length: nat) returns (ok: bool)
    requires from + length <= pckt.Length
    ensures ok == ModbusCheck(pckt[from..from + length])
  {
    if length < 3 {
      return false;
    }
    var crc := ModbusCrc16(pckt, from, length - 2);
    assert pckt[from..from + length][..length - 2] == pckt[from..from + length - 2];
    return crc == Word(pckt[from + length - 2], pckt[from + length - 1]);
  }

  lemma ShiftLinear(a: u16, b: u16)
    ensures Xor(a, b) < 65536
    ensures Shift(Xor(a, b)) == Xor(Shift(a), Shift(b))
  {
    XorFits16(a, b);
    XorHalves(a, b);
    MixLinear(a / 2, b / 2, RTU_POLYNOMIAL, a % 2 == 1, b % 2 == 1);
  }

  lemma ShiftKernel(r: u16)
    ensures Shift(r) == 0 <==> r == 0
  {
    MixZero(r / 2, RTU_POLYNOMIAL, r % 2 == 1);
  }

  lemma {:induction false} ShiftsLinear(a: u16, b: u16, n: nat)
    ensures Xor(a, b) < 65536
    ensures Shifts(Xor(a, b), n) == Xor(Shifts(a, n), Shifts(b, n))
  {
    XorFits16(a, b);
    if n > 0 {
      ShiftsLinear(a, b, n - 1);
      ShiftLinear(Shifts(a, n - 1), Shifts(b, n - 1));
    }
  }

  lemma {:induction false} ShiftsKernel(r: u16, n: nat)
    ensures Shifts(r, n) == 0 <==> r == 0
  {
    if n > 0 {
      ShiftsKernel(r, n - 1);
      ShiftKernel(Shifts(r, n - 1));
    }
  }

  lemma {:induction false} ShiftsCompose(r: u16, m: nat, n: nat)
    ensures Shifts(Shifts(r, m), n) == Shifts(r, m + n)
  {
    if n > 0 {
      ShiftsCompose(r, m, n - 1);
    }
  }

  /** Rounds are one-to-one on registers. */
  lemma ShiftsInjective(a: u16, b: u16, n: nat)
    requires Shifts(a, n) == Shifts(b, n)
    ensures a == b
  {
    ShiftsLinear(a, b, n);
    XorZeroMeansEqual(Shifts(a, n), Shifts(b, n));
    ShiftsKernel(Xor(a, b), n);
    XorZeroMeansEqual(a, b);
  }

  /** Rounds only shift while no set digit reaches the low end. */
  lemma {:induction false} ShiftsOfHighPart(x: byte, n: nat)
    requires n <= 8
    ensures Shifts(Scaled(x, n), n) == x
  {
    if n > 0 {
      var r := Scaled(x, n);
      ShiftsOfHighPart(x, n - 1);
      ScaledNext(x, n);
      assert Shifts(r, 0) == r;
      assert Shifts(r, 1) == Shift(r) == Scaled(x, n - 1);
      ShiftsCompose(r, 1, n - 1);
    }
  }

  /** Two bytes are absorbed as one 16-bit word. */
  lemma AbsorbWord(r: u16, lo: byte, hi: byte)
    ensures Xor(r, Word(lo, hi)) < 65536
    ensures Absorb(Absorb(r, lo), hi) == Shifts(Xor(r, Word(lo, hi)), 16)
  {
    XorFits16(r, lo);
    XorFits16(r, Word(lo, hi));
    Pow2Of16();
    var first := Xor(r, lo);
    ShiftsOfHighPart(hi, 8);
    assert Scaled(hi, 8) == hi * 256;
    ShiftsLinear(first, hi * 256, 8);
    ShiftsCompose(Xor(first, hi * 256), 8, 8);
    XorAssociates(r, lo, hi * 256);
    XorSplit(0, lo, hi, 0, 8);
    XorZero(lo);
    XorZero(hi);
    assert Xor(lo, hi * 256) == Word(lo, hi);
  }

  lemma {:induction false} RunConcat(r: u16, a: seq<byte>, b: seq<byte>)
    ensures Run(r, a + b) == Run(Run(r, a), b)
  {
    if b == [] {
      assert a + b == a;
    } else {
      assert (a + b)[..|a + b| - 1] == a + b[..|b| - 1];
      RunConcat(r, a, b[..|b| - 1]);
    }
  }

  lemma RunTwo(r: u16, lo: byte, hi: byte)
    ensures Xor(r, Word(lo, hi)) < 65536
    ensures Run(r, [lo, hi]) == Shifts(Xor(r, Word(lo, hi)), 16)
  {
    assert [lo, hi][..1] == [lo];
    assert [lo][..0] == [];
    assert Run(r, [lo]) == Absorb(r, lo);
    AbsorbWord(r, lo, hi);
  }

  /** A run never merges two different registers. */
  lemma {:induction false} RunInjective(r: u16, s: u16, m: seq<byte>)
    requires Run(r, m) == Run(s, m)
    ensures r == s
  {
    if m != [] {
      var p, b := m[..|m| - 1], m[|m| - 1];
      var x, y := Run(r, p), Run(s, p);
      XorFits16(x, b);
      XorFits16(y, b);
      ShiftsInjective(Xor(x, b), Xor(y, b), 8);
      XorCancel(x, y, b);
      RunInjective(r, s, p);
    }
  }

  lemma ShiftedWordsSeparate(r: u16, v: u16, w: u16, n: nat)
    requires Xor(r, v) < 65536 && Xor(r, w) < 65536
    requires Shifts(Xor(r, v), n) == Shifts(Xor(r, w), n)
    ensures v == w
  {
    ShiftsInjective(Xor(r, v), Xor(r, w), n);
    XorCommutes(r, v);
    XorCommutes(r, w);
    XorCancel(v, w, r);
  }

  /** A run over two bytes determines both of them. */
  lemma RunTwoInjective(r: u16, a: byte, b: byte, c: byte, d: byte)
    requires Run(r, [a, b]) == Run(r, [c, d])
    ensures a == c && b == d
  {
    RunTwo(r, a, b);
    RunTwo(r, c, d);
    ShiftedWordsSeparate(r, Word(a, b), Word(c, d), 16);
    assert Word(a, b) % 256 == a && Word(c, d) % 256 == c;
  }

  /**
    MODBUS over Serial Line V1.02, section 6.2.2: a frame within the cap passes the check
    exactly when the run over its data and its stored checksum leaves zero.
   */
  lemma CheckIsZeroRun(f: seq<byte>)
    requires 3 <= |f| <= MODBUS_CRC_CAP + 2
    ensures ModbusCheck(f) <==> Run(0xFFFF, f) == 0
  {
    var data, lo, hi := f[..|f| - 2], f[|f| - 2], f[|f| - 1];
    assert f == data + [lo, hi];
    RunConcat(0xFFFF, data, [lo, hi]);
    var crc := Run(0xFFFF, data);
    RunTwo(crc, lo, hi);
    ShiftsKernel(Xor(crc, Word(lo, hi)), 16);
    XorZeroMeansEqual(crc, Word(lo, hi));
  }

  /** `g` is `f` with at most the bytes at `i` and `i + 1` changed. */
  predicate DifferAt(f: seq<byte>, g: seq<byte>, i: nat) {
    && |f| == |g| && i + 1 < |f|
    && f[..i] == g[..i] && f[i + 2..] == g[i + 2..]
  }

  /** Runs over frames that differ inside one pair of adjacent bytes never agree. */
  lemma RunSeparatesPairs(r: u16, f: seq<byte>, g: seq<byte>, i: nat)
    requires DifferAt(f, g, i) && f != g
    ensures Run(r, f) != Run(r, g)
  {
    var head, tail := f[..i], f[i + 2..];
    assert f == head + [f[i], f[i + 1]] + tail;
    assert g == head + [g[i], g[i + 1]] + tail;
    RunConcat(r, head, [f[i], f[i + 1]]);
    RunConcat(r, head, [g[i], g[i + 1]]);
    RunConcat(r, head + [f[i], f[i + 1]], tail);
    RunConcat(r, head + [g[i], g[i + 1]], tail);
    if Run(r, f) == Run(r, g) {
      RunInjective(Run(r, head + [f[i], f[i + 1]]), Run(r, head + [g[i], g[i + 1]]), tail);
      RunTwoInjective(Run(r, head), f[i], f[i + 1], g[i], g[i + 1]);
      assert false;
    }
  }

  /**
    Any change of an accepted frame that is confined to two adjacent bytes, the stored
    checksum included, is rejected.
   */
  lemma ModbusDetectsAdjacentChange(f: seq<byte>, g: seq<byte>, i: nat)
    requires 3 <= |f| <= MODBUS_CRC_CAP + 2
    requires ModbusCheck(f) && DifferAt(f, g, i) && f != g
    ensures !ModbusCheck(g)
  {
    CheckIsZeroRun(f);
    CheckIsZeroRun(g);
    RunSeparatesPairs(0xFFFF, f, g, i);
  }

  /** Past the cap the promise ends: the data bytes behind the first 254 are not checked. */
  lemma ModbusIgnoresBytesPastCap(f: seq<byte>, i: nat, b: byte)
    requires |f| > MODBUS_CRC_CAP + 2
    requires MODBUS_CRC_CAP <= i < |f| - 2
    ensures ModbusCheck(f[i := b]) <==> ModbusCheck(f)
  {
    assert Capped(f[i := b][..|f| - 2]) == Capped(f[..|f| - 2]);
  }

  // --------------------------------------------------------- unreflected (crc.c)

  /** One round: the top digit is shifted out and, when set, the polynomial mixed in. */
  function ShiftLeft(r: u16): u16 {
    Mix((r * 2) % 65536, CCITT_POLYNOMIAL, r >= 0x8000)
  }

  function ShiftsLeft(r: u16, n: nat): u16 {
    if n == 0 then r else ShiftLeft(ShiftsLeft(r, n - 1))
  }

  /** A byte moved into the high half of a word. */
  function High(b: byte): u16 {
    b as int * 256
  }

  function AbsorbHigh(r: u16, b: byte): u16 {
    XorFits16(r, High(b));
    ShiftsLeft(Xor(r, High(b)), 8)
  }

  function RunHigh(r: u16, m: seq<byte>): u16 {
    if m == [] then r else AbsorbHigh(RunHigh(r, m[..|m| - 1]), m[|m| - 1])
  }

  predicate Crc16Ok(f: seq<byte>)
    requires |f| >= 2
  {
    RunHigh(0, f[..|f| - 2]) == Word(f[|f| - 2], f[|f| - 1])
  }

  method CalcCrc16(buff: array<byte>, len: nat) returns (crc: u16)
    requires len <= buff.Length
    ensures crc == RunHigh(0, buff[..len])
  {
    crc := 0;
    var k := 0;
    while k < len
      invariant 0 <= k <= len
      invariant crc == RunHigh(0, buff[..k])
    {
      XorFits16(crc, High(buff[k]));
      var mixed := Xor(crc, High(buff[k]));
      crc := mixed;
      var i := 8;
      while i > 0
        invariant 0 <= i <= 8
        invariant crc == ShiftsLeft(mixed, 8 - i)
      {
        var shifted: u16 := (crc * 2) % 65536;
        if crc >= 0x8000 {
          XorFits16(shifted, CCITT_POLYNOMIAL);
          crc := Xor(shifted, CCITT_POLYNOMIAL);
        } else {
          crc := shifted;
        }
        i := i - 1;
      }
      assert buff[..k + 1][..k] == buff[..k];
      k := k + 1;
    }
  }

  method CheckCrc16(buff: array<byte>, len: nat) returns (ok: bool)
    requires 2 <= len <= buff.Length
    ensures ok == Crc16Ok(buff[..len])
  {
    var crc := CalcCrc16(buff, len - 2);
    assert buff[..len][..len - 2] == buff[..len - 2];
    return crc == Word(buff[len - 2], buff[len - 1]);
  }

  lemma XorOfDigits(p: bool, q: bool)
    ensures Xor(Digit(p), Digit(q)) == Digit(p != q)
  {
  }

  lemma XorOfEvens(x: nat, y: nat)
    ensures Xor(2 * x, 2 * y) == 2 * Xor(x, y)
  {
    XorHalves(2 * x, 2 * y);
    SameHalves(Xor(2 * x, 2 * y), 2 * Xor(x, y));
  }

  /** A word as its top digit and the fifteen below it. */
  function Below(r: u16): (x: nat)
    ensures x < 32768 && r == Digit(r >= 0x8000) * 32768 + x
    ensures (r * 2) % 65536 == 2 * x
  {
    r % 32768
  }

  lemma XorTopDigit(a: u16, b: u16)
    ensures Xor(a, b) < 65536
    ensures Xor(a, b) >= 0x8000 <==> (a >= 0x8000) != (b >= 0x8000)
    ensures Below(Xor(a, b)) == Xor(Below(a), Below(b))
  {
    Pow2Of16();
    XorFits16(a, b);
    XorSplit(Digit(a >= 0x8000), Below(a), Digit(b >= 0x8000), Below(b), 15);
    XorOfDigits(a >= 0x8000, b >= 0x8000);
  }

  lemma ShiftLeftLinear(a: u16, b: u16)
    ensures Xor(a, b) < 65536
    ensures ShiftLeft(Xor(a, b)) == Xor(ShiftLeft(a), ShiftLeft(b))
  {
    XorTopDigit(a, b);
    XorOfEvens(Below(a), Below(b));
    MixLinear((a * 2) % 65536, (b * 2) % 65536, CCITT_POLYNOMIAL, a >= 0x8000, b >= 0x8000);
  }

  lemma ShiftLeftKernel(r: u16)
    ensures ShiftLeft(r) == 0 <==> r == 0
  {
    MixZero((r * 2) % 65536, CCITT_POLYNOMIAL, r >= 0x8000);
  }

  lemma {:induction false} ShiftsLeftLinear(a: u16, b: u16, n: nat)
    ensures Xor(a, b) < 65536
    ensures ShiftsLeft(Xor(a, b), n) == Xor(ShiftsLeft(a, n), ShiftsLeft(b, n))
  {
    XorFits16(a, b);
    if n > 0 {
      ShiftsLeftLinear(a, b, n - 1);
      ShiftLeftLinear(ShiftsLeft(a, n - 1), ShiftsLeft(b, n - 1));
    }
  }

  lemma {:induction false} ShiftsLeftInjective(a: u16, b: u16, n: nat)
    requires ShiftsLeft(a, n) == ShiftsLeft(b, n)
    ensures a == b
  {
    if n > 0 {
      var x, y := ShiftsLeft(a, n - 1), ShiftsLeft(b, n - 1);
      ShiftLeftLinear(x, y);
      XorZeroMeansEqual(ShiftLeft(x), ShiftLeft(y));
      ShiftLeftKernel(Xor(x, y));
      XorZeroMeansEqual(x, y);
      ShiftsLeftInjective(a, b, n - 1);
    }
  }

  lemma {:induction false} ShiftsLeftCompose(r: u16, m: nat, n: nat)
    ensures ShiftsLeft(ShiftsLeft(r, m), n) == ShiftsLeft(r, m + n)
  {
    if n > 0 {
      ShiftsLeftCompose(r, m, n - 1);
    }
  }

  lemma {:induction false} ShiftsLeftOfLowPart(x: byte, n: nat)
    requires n <= 8
    ensures ShiftsLeft(x, n) == Scaled(x, n)
  {
    if n > 0 {
      ShiftsLeftOfLowPart(x, n - 1);
      ScaledNext(x, n);
    }
  }

  lemma XorOfHighAndLow(a: byte, b: byte)
    ensures Xor(High(a), b) == Word(b, a)
  {
    Pow2Of16();
    XorSplit(a, 0, 0, b, 8);
    XorZero(a);
    XorZero(b);
  }

  lemma EightOnLowByte(first: u16, b: byte)
    ensures Xor(first, b) < 65536 && Xor(ShiftsLeft(first, 8), High(b)) < 65536
    ensures Xor(ShiftsLeft(first, 8), High(b)) == ShiftsLeft(Xor(first, b), 8)
  {
    Pow2Of16();
    XorFits16(ShiftsLeft(first, 8), High(b));
    ShiftsLeftOfLowPart(b, 8);
    assert Scaled(b, 8) == High(b);
    ShiftsLeftLinear(first, b, 8);
  }

  /** Two bytes are absorbed as one 16-bit word. */
  lemma AbsorbHighWord(r: u16, a: byte, b: byte)
    ensures Xor(r, Word(b, a)) < 65536
    ensures AbsorbHigh(AbsorbHigh(r, a), b) == ShiftsLeft(Xor(r, Word(b, a)), 16)
  {
    XorFits16(r, High(a));
    XorFits16(r, Word(b, a));
    var first := Xor(r, High(a));
    EightOnLowByte(first, b);
    XorOfHighAndLow(a, b);
    XorAssociates(r, High(a), b);
    ShiftsLeftCompose(Xor(first, b), 8, 8);
  }

  lemma RunHighTwo(r: u16, a: byte, b: byte)
    ensures Xor(r, Word(b, a)) < 65536
    ensures RunHigh(r, [a, b]) == ShiftsLeft(Xor(r, Word(b, a)), 16)
  {
    assert [a, b][..1] == [a] && [a][..0] == [];
    assert RunHigh(r, [a]) == AbsorbHigh(r, a);
    AbsorbHighWord(r, a, b);
  }

  lemma RunHighTwoInjective(r: u16, a: byte, b: byte, c: byte, d: byte)
    requires RunHigh(r, [a, b]) == RunHigh(r, [c, d])
    ensures a == c && b == d
  {
    RunHighTwo(r, a, b);
    RunHighTwo(r, c, d);
    var v, w := Word(b, a), Word(d, c);
    ShiftsLeftInjective(Xor(r, v), Xor(r, w), 16);
    XorCommutes(r, v);
    XorCommutes(r, w);
    XorCancel(v, w, r);
  }

  lemma {:induction false} RunHighConcat(r: u16, a: seq<byte>, b: seq<byte>)
    ensures RunHigh(r, a + b) == RunHigh(RunHigh(r, a), b)
  {
    if b == [] {
      assert a + b == a;
    } else {
      assert (a + b)[..|a + b| - 1] == a + b[..|b| - 1];
      RunHighConcat(r, a, b[..|b| - 1]);
    }
  }

  lemma {:induction false} RunHighInjective(r: u16, s: u16, m: seq<byte>)
    requires RunHigh(r, m) == RunHigh(s, m)
    ensures r == s
  {
    if m != [] {
      var p, b := m[..|m| - 1], m[|m| - 1];
      var x, y := RunHigh(r, p), RunHigh(s, p);
      XorFits16(x, High(b));
      XorFits16(y, High(b));
      ShiftsLeftInjective(Xor(x, High(b)), Xor(y, High(b)), 8);
      XorCancel(x, y, High(b));
      RunHighInjective(r, s, p);
    }
  }

  /** Payloads of one length that differ only in two adjacent bytes have different checksums. */
  lemma Crc16SeparatesPairs(f: seq<byte>, g: seq<byte>, i: nat)
    requires DifferAt(f, g, i) && f != g
    ensures RunHigh(0, f) != RunHigh(0, g)
  {
    var head, tail := f[..i], f[i + 2..];
    assert f == head + [f[i], f[i + 1]] + tail;
    assert g == head + [g[i], g[i + 1]] + tail;
    RunHighConcat(0, head, [f[i], f[i + 1]]);
    RunHighConcat(0, head, [g[i], g[i + 1]]);
    RunHighConcat(0, head + [f[i], f[i + 1]], tail);
    RunHighConcat(0, head + [g[i], g[i + 1]], tail);
    if RunHigh(0, f) == RunHigh(0, g) {
      RunHighInjective(RunHigh(0, head + [f[i], f[i + 1]]), RunHigh(0, head + [g[i], g[i + 1]]), tail);
      RunHighTwoInjective(RunHigh(0, head), f[i], f[i + 1], g[i], g[i + 1]);
      assert false;
    }
  }
}
