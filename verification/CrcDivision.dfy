/**
  What the two checksums are: remainders of the long division of polynomials over two elements,
  as the standards describe them (MODBUS over Serial Line V1.02, section 6.2.2: generator
  x^16 + x^15 + x^2 + 1; main/crc.c: x^16 + x^12 + x^5 + 1).

  A polynomial is the sequence of its coefficients, highest first.
 */
module CrcDivision {
  import opened Bits
  import opened Crc16

  // --------------------------------------------------------------------------- division

  /** The polynomial of degree 16 with the given exponents. */
  function Generator(exponents: set<nat>): (g: seq<bool>)
    ensures |g| == 17
  {
    seq(17, k requires 0 <= k < 17 => (16 - k) in exponents)
  }

  /** `g`, with its leading coefficient under that of `p`, is subtracted; the leading coefficients cancel. */
  function Subtracted(p: seq<bool>, g: seq<bool>): (d: seq<bool>)
    requires 0 < |g| <= |p|
    ensures |d| == |p| - 1
  {
    seq(|p| - 1, k requires 0 <= k < |p| - 1 => if k + 1 < |g| then p[k + 1] != g[k + 1] else p[k + 1])
  }

  /** Long division of `p` by `g`, whose leading coefficient is set: what is left in the end. */
  function Rest(p: seq<bool>, g: seq<bool>): (r: seq<bool>)
    requires g != []
    ensures |r| == if |p| < |g| then |p| else |g| - 1
    decreases |p|
  {
    if |p| < |g| then p else Rest(if p[0] then Subtracted(p, g) else p[1..], g)
  }

  function Blank(n: nat): (s: seq<bool>)
    ensures |s| == n
  {
    seq(n, _ => false)
  }

  /** `r` is added to the first coefficients of `p`. */
  function AddedInFront(p: seq<bool>, r: seq<bool>): (s: seq<bool>)
    requires |r| <= |p|
    ensures |s| == |p|
  {
    seq(|p|, k requires 0 <= k < |p| => if k < |r| then p[k] != r[k] else p[k])
  }

  // -------------------------------------------------------------------- digit by digit

  /** A register that takes one digit of the dividend. */
  function Feed(r: seq<bool>, b: bool, g: seq<bool>): (s: seq<bool>)
    requires 0 < |r| && |g| == |r| + 1
    ensures |s| == |r|
  {
    seq(|r|, k requires 0 <= k < |r| => (k + 1 < |r| && r[k + 1]) != (r[0] != b && g[k + 1]))
  }

  function FeedAll(r: seq<bool>, bits: seq<bool>, g: seq<bool>): (s: seq<bool>)
    requires 0 < |r| && |g| == |r| + 1
    ensures |s| == |r|
    decreases |bits|
  {
    if bits == [] then r else FeedAll(Feed(r, bits[0], g), bits[1..], g)
  }

  lemma {:induction false} FeedAppend(r: seq<bool>, x: seq<bool>, y: seq<bool>, g: seq<bool>)
    requires 0 < |r| && |g| == |r| + 1
    ensures FeedAll(r, x + y, g) == FeedAll(FeedAll(r, x, g), y, g)
    decreases |x|
  {
    if x == [] {
      assert x + y == y;
    } else {
      assert (x + y)[1..] == x[1..] + y;
      FeedAppend(Feed(r, x[0], g), x[1..], y, g);
    }
  }

  /** One digit is one step of the division. */
  lemma FeedIsStep(r: seq<bool>, p: seq<bool>, g: seq<bool>)
    requires 0 < |r| < |p| && |g| == |r| + 1
    ensures Rest(AddedInFront(p, r), g) == Rest(AddedInFront(p[1..], Feed(r, p[0], g)), g)
  {
    FedIsStep(r, p, g, AddedInFront(p, r), Feed(r, p[0], g));
  }

  lemma FedIsStep(r: seq<bool>, p: seq<bool>, g: seq<bool>, w: seq<bool>, fed: seq<bool>)
    requires 0 < |r| < |p| && |g| == |r| + 1 && w == AddedInFront(p, r) && fed == Feed(r, p[0], g)
    ensures AddedInFront(p[1..], fed) == if w[0] then Subtracted(w, g) else w[1..]
  {
    forall k | 0 <= k < |p| - 1
      ensures AddedInFront(p[1..], fed)[k] == (if w[0] then Subtracted(w, g) else w[1..])[k]
    {
      assert p[1..][k] == p[k + 1];
    }
  }

  /** Feeding a dividend to a register is dividing it, with the register in front and as many zeros behind. */
  lemma {:induction false} FeedIsDivision(r: seq<bool>, bits: seq<bool>, g: seq<bool>)
    requires 0 < |r| && |g| == |r| + 1
    ensures FeedAll(r, bits, g) == Rest(AddedInFront(bits + Blank(|r|), r), g)
    decreases |bits|
  {
    var p := bits + Blank(|r|);
    if bits == [] {
      assert AddedInFront(p, r) == r;
    } else {
      FeedIsStep(r, p, g);
      assert p[1..] == bits[1..] + Blank(|r|);
      FeedIsDivision(Feed(r, bits[0], g), bits[1..], g);
    }
  }

  // ------------------------------------------------------------------- digits of words

  /** The last `n` digits of `x`, lowest first. */
  function LowFirst(x: nat, n: nat): (s: seq<bool>)
    ensures |s| == n
  {
    seq(n, k requires 0 <= k < n => TestBit(x, k))
  }

  /** The last `n` digits of `x`, highest first. */
  function HighFirst(x: nat, n: nat): (s: seq<bool>)
    ensures |s| == n
  {
    seq(n, k requires 0 <= k < n => TestBit(x, n - 1 - k))
  }

  lemma {:induction false} XorDigitAt(a: nat, b: nat, i: nat)
    ensures TestBit(Xor(a, b), i) <==> TestBit(a, i) != TestBit(b, i)
  {
    XorHalves(a, b);
    if i > 0 {
      XorDigitAt(a / 2, b / 2, i - 1);
    }
  }

  lemma MixDigit(x: u16, k: u16, on: bool, i: nat)
    ensures TestBit(Mix(x, k, on), i) <==> TestBit(x, i) != (on && TestBit(k, i))
  {
    XorDigitAt(x, k, i);
  }

  /** A word has sixteen digits. */
  lemma SixteenDigits(x: u16)
    ensures !TestBit(x, 16)
  {
    Pow2Of16();
    NoDigitBeyond(x, 16, 16);
  }

  lemma TwoUp(x: nat, y: nat, k: nat)
    requires y == x / 4
    ensures TestBit(x, k + 2) == TestBit(y, k)
  {
    assert TestBit(x, k + 2) == TestBit(x / 2, k + 1);
  }

  lemma EightUp(x: nat, k: nat)
    ensures TestBit(x, k + 8) == TestBit(x / 256, k)
  {
    TwoUp(x, x / 4, k + 6);
    TwoUp(x / 4, x / 16, k + 4);
    TwoUp(x / 16, x / 64, k + 2);
    TwoUp(x / 64, x / 256, k);
  }

  // ------------------------------------------------------------------------------ Modbus

  const RTU_GENERATOR: seq<bool> := Generator({16, 15, 2, 0})

  /** The digits of the polynomial in main/modbus.c:88 are the generator's coefficients below the leading one. */
  lemma RtuDigit(k: nat)
    requires k < 16
    ensures TestBit(RTU_POLYNOMIAL, k) <==> RTU_GENERATOR[k + 1]
  {
    assert TestBit(0xA001, 0) && !TestBit(0xA001, 1) && !TestBit(0xA001, 2) && !TestBit(0xA001, 3);
    assert !TestBit(0xA001, 4) && !TestBit(0xA001, 5) && !TestBit(0xA001, 6) && !TestBit(0xA001, 7);
    assert !TestBit(0xA0, 0) && !TestBit(0xA0, 1) && !TestBit(0xA0, 2) && !TestBit(0xA0, 3);
    assert !TestBit(0xA0, 4) && TestBit(0xA0, 5) && !TestBit(0xA0, 6) && TestBit(0xA0, 7);
    if k >= 8 {
      EightUp(0xA001, k - 8);
    }
  }

  /** One round with one digit. */
  lemma RoundIsFeed(r: u16, b: bool)
    ensures Xor(r, Digit(b)) < 65536
    ensures LowFirst(Shift(Xor(r, Digit(b))), 16) == Feed(LowFirst(r, 16), b, RTU_GENERATOR)
  {
    XorFits16(r, Digit(b));
    XorHalves(r, Digit(b));
    XorZero(r / 2);
    var x := Xor(r, Digit(b));
    var s, t := LowFirst(Shift(x), 16), Feed(LowFirst(r, 16), b, RTU_GENERATOR);
    SixteenDigits(r);
    forall k | 0 <= k < 16 ensures s[k] == t[k] {
      MixDigit(r / 2, RTU_POLYNOMIAL, x % 2 == 1, k);
      RtuDigit(k);
      assert TestBit(r / 2, k) == TestBit(r, k + 1);
    }
  }

  /** What is added before mixing may be added behind it. */
  lemma MixMoves(a: u16, b: u16, k: u16, on: bool)
    ensures Xor(a, b) < 65536 && Mix(Xor(a, b), k, on) == Xor(Mix(a, k, on), b)
  {
    XorFits16(a, b);
    if on {
      XorAssociates(a, b, k);
      XorCommutes(b, k);
      XorAssociates(a, k, b);
    }
  }

  /** The first round takes the last digit of `x`; the others wait. */
  lemma FirstRound(r: u16, x: byte, last: byte)
    requires last == x % 2
    ensures Xor(r, x) < 65536 && Xor(r, last) < 65536
    ensures Shift(Xor(r, x)) == Xor(Shift(Xor(r, last)), x / 2)
  {
    XorFits16(r, x);
    XorFits16(r, last);
    HalvesWithLast(r, x, last);
    MixMoves(r / 2, x / 2, RTU_POLYNOMIAL, Xor(r, last) % 2 == 1);
  }

  lemma HalvesWithLast(r: nat, x: nat, last: nat)
    requires last == x % 2
    ensures Xor(r, x) / 2 == Xor(r / 2, x / 2) && Xor(r, last) / 2 == r / 2
    ensures Xor(r, x) % 2 == Xor(r, last) % 2
  {
    LastDigit(x, last);
    XorHalves(r, x);
    XorHalves(r, last);
    XorZero(r / 2);
  }

  lemma LastDigit(x: nat, last: nat)
    requires last == x % 2
    ensures last / 2 == 0 && last % 2 == x % 2
  {
  }

  lemma LowFirstTail(x: nat, n: nat)
    requires n > 0
    ensures LowFirst(x, n)[0] == (x % 2 == 1)
    ensures LowFirst(x, n)[1..] == LowFirst(x / 2, n - 1)
  {
    forall k | 0 <= k < n - 1 ensures LowFirst(x, n)[1..][k] == LowFirst(x / 2, n - 1)[k] {
      assert TestBit(x, k + 1) == TestBit(x / 2, k);
    }
  }

  /** The last digit of `x` comes first. */
  lemma FeedsFirst(r: seq<bool>, x: nat, n: nat, g: seq<bool>)
    requires 0 < |r| && |g| == |r| + 1 && n > 0
    ensures FeedAll(r, LowFirst(x, n), g) == FeedAll(Feed(r, x % 2 == 1, g), LowFirst(x / 2, n - 1), g)
  {
    LowFirstTail(x, n);
  }

  lemma {:induction false} RoundsAreFeeds(r: u16, x: byte, n: nat)
    requires x < Pow2(n)
    ensures Xor(r, x) < 65536
    ensures LowFirst(Shifts(Xor(r, x), n), 16) == FeedAll(LowFirst(r, 16), LowFirst(x, n), RTU_GENERATOR)
    decreases n
  {
    XorFits16(r, x);
    if n == 0 {
      XorZero(r);
    } else {
      var last: byte := x % 2;
      FirstRound(r, x, last);
      OneThenOthers(Xor(r, x), n);
      RoundIsFeed(r, last == 1);
      RoundsAreFeeds(Shift(Xor(r, last)), x / 2, n - 1);
      FeedsFirst(LowFirst(r, 16), x, n, RTU_GENERATOR);
    }
  }

  lemma OneThenOthers(r: u16, n: nat)
    requires n > 0
    ensures Shifts(r, n) == Shifts(Shift(r), n - 1)
  {
    ShiftsCompose(r, 1, n - 1);
    assert Shifts(r, 0) == r;
    assert Shifts(r, 1) == Shift(r);
  }

  /** The digits of a message as they go over the line: the lowest of each byte first. */
  function LineDigits(m: seq<byte>): (s: seq<bool>)
    ensures |s| == 8 * |m|
  {
    if m == [] then [] else LineDigits(m[..|m| - 1]) + LowFirst(m[|m| - 1], 8)
  }

  lemma {:induction false} RunIsFeeding(r: u16, m: seq<byte>)
    ensures LowFirst(Run(r, m), 16) == FeedAll(LowFirst(r, 16), LineDigits(m), RTU_GENERATOR)
  {
    if m != [] {
      var before, b := m[..|m| - 1], m[|m| - 1];
      RunIsFeeding(r, before);
      Pow2Of16();
      RoundsAreFeeds(Run(r, before), b, 8);
      FeedAppend(LowFirst(r, 16), LineDigits(before), LowFirst(b, 8), RTU_GENERATOR);
    }
  }

  /**
    The checksum of a Modbus frame, lowest digit first, is the rest that x^16 + x^15 + x^2 + 1
    leaves of the first 254 bytes, followed by sixteen zeros, with the first sixteen digits
    inverted.
   */
  lemma ModbusCrcIsRest(m: seq<byte>)
    ensures var taken := if |m| > 254 then m[..254] else m;
            var dividend := AddedInFront(LineDigits(taken) + Blank(16), seq(16, _ => true));
            LowFirst(ModbusCrc(m), 16) == Rest(dividend, Generator({16, 15, 2, 0}))
  {
    var taken := if |m| > 254 then m[..254] else m;
    RunIsFeeding(0xFFFF, taken);
    FeedIsDivision(LowFirst(0xFFFF, 16), LineDigits(taken), RTU_GENERATOR);
    AllOnes();
  }

  lemma AllOnes()
    ensures LowFirst(0xFFFF, 16) == seq(16, _ => true)
  {
    Pow2Of16();
    forall k | 0 <= k < 16 ensures LowFirst(0xFFFF, 16)[k] {
      OnesDigit(16, k);
    }
  }

  // ------------------------------------------------------------------- settings packets

  const CCITT_GENERATOR: seq<bool> := Generator({16, 12, 5, 0})

  lemma CcittDigit(k: nat)
    requires k < 16
    ensures TestBit(CCITT_POLYNOMIAL, 15 - k) <==> CCITT_GENERATOR[k + 1]
  {
    assert TestBit(0x1021, 0) && !TestBit(0x1021, 1) && !TestBit(0x1021, 2) && !TestBit(0x1021, 3);
    assert !TestBit(0x1021, 4) && TestBit(0x1021, 5) && !TestBit(0x1021, 6) && !TestBit(0x1021, 7);
    assert !TestBit(0x10, 0) && !TestBit(0x10, 1) && !TestBit(0x10, 2) && !TestBit(0x10, 3);
    assert TestBit(0x10, 4) && !TestBit(0x10, 5) && !TestBit(0x10, 6) && !TestBit(0x10, 7);
    if k < 8 {
      EightUp(0x1021, 7 - k);
    }
  }

  /** The top digit of a word, at its place. */
  function Top(w: u16): u16 {
    if w >= 0x8000 then 0x8000 else 0
  }

  lemma TopDigit(w: u16, last: nat)
    requires last == 15
    ensures TestBit(w, last) <==> w >= 0x8000
  {
    Pow2Of16();
    if w < 0x8000 {
      NoDigitBeyond(w, last, last);
    } else {
      SetTopDigit(w, last);
    }
  }

  lemma {:induction false} SetTopDigit(x: nat, n: nat)
    requires Pow2(n) <= x < 2 * Pow2(n)
    ensures TestBit(x, n)
  {
    if n > 0 {
      SetTopDigit(x / 2, n - 1);
    }
  }

  lemma TopHasOneDigit(w: u16, k: nat)
    requires k < 15
    ensures !TestBit(Top(w), k)
  {
    Pow2Of16();
    PowerDigit(15, k);
    ZeroDigit(k);
  }

  /** A word is its top digit and what lies below it. */
  lemma TopAndBelow(w: u16, top: u16, c: u16)
    requires top == Top(w) && c == w % 32768
    ensures Xor(top, c) == w
  {
    Pow2Of16();
    var h := Digit(w >= 0x8000);
    XorSplit(h, 0, 0, c, 15);
    XorZero(h);
    XorZero(c);
  }

  lemma DigitBelow(w: u16, top: u16, c: u16, k: nat)
    requires top == Top(w) && c == w % 32768 && k < 15
    ensures TestBit(c, k) <==> TestBit(w, k)
  {
    TopAndBelow(w, top, c);
    XorDigitAt(top, c, k);
    TopHasOneDigit(w, k);
  }

  lemma MovedUp(w: u16, c: u16, d: u16)
    requires c == w % 32768 && d == w * 2 % 65536
    ensures d % 2 == 0 && d / 2 == c
  {
  }

  /** Digits move up by one place; the top one is lost. */
  lemma DoubledDigit(w: u16, k: nat)
    requires k < 16
    ensures TestBit(w * 2 % 65536, k) <==> k > 0 && TestBit(w, k - 1)
  {
    var c: u16, d: u16 := w % 32768, w * 2 % 65536;
    MovedUp(w, c, d);
    if k > 0 {
      DigitBelow(w, Top(w), c, k - 1);
    }
  }

  /** A digit of a word after one round. */
  lemma LeftRoundDigit(x: u16, i: nat, below: int, last: nat)
    requires i <= last == 15 && below == i - 1
    ensures TestBit(ShiftLeft(x), i) <==>
            (below >= 0 && TestBit(x, below)) != (TestBit(x, last) && CCITT_GENERATOR[16 - i])
  {
    MixDigit(x * 2 % 65536, CCITT_POLYNOMIAL, x >= 0x8000, i);
    CcittDigit(last - i);
    TopDigit(x, last);
    DoubledDigit(x, i);
  }

  /** The top digit is the only one that is added. */
  lemma WithTop(r: u16, w: u16, x: u16, i: nat, last: nat)
    requires x == Xor(r, Top(w)) && i <= last == 15
    ensures TestBit(x, i) <==> TestBit(r, i) != (i == last && w >= 0x8000)
  {
    XorDigitAt(r, Top(w), i);
    if i < last {
      TopHasOneDigit(w, i);
    } else {
      TopDigit(Top(w), last);
    }
  }

  lemma LeftRoundWithTop(r: u16, w: u16, x: u16, on: bool, i: nat, below: int, last: nat)
    requires x == Xor(r, Top(w)) && on == (w >= 0x8000) && i <= last == 15 && below == i - 1
    ensures TestBit(ShiftLeft(x), i) <==>
            (below >= 0 && TestBit(r, below)) != (TestBit(r, last) != on && CCITT_GENERATOR[16 - i])
  {
    WithTop(r, w, x, last, last);
    LeftRoundDigit(x, i, below, last);
    if below >= 0 {
      WithTop(r, w, x, below, last);
    }
  }

  lemma LeftRoundFeedsDigit(r: u16, w: u16, x: u16, on: bool, g: seq<bool>, k: nat, i: nat, last: nat)
    requires x == Xor(r, Top(w)) && on == (w >= 0x8000) && k + i == last == 15 && g == CCITT_GENERATOR
    ensures TestBit(ShiftLeft(x), i) == Feed(HighFirst(r, 16), on, g)[k]
  {
    LeftRoundWithTop(r, w, x, on, i, i - 1, last);
    var h := HighFirst(r, 16);
    assert h[0] == TestBit(r, last);
    assert k < last ==> h[k + 1] == TestBit(r, i - 1);
  }

  lemma LeftRoundIsFeed(r: u16, w: u16, x: u16, on: bool, g: seq<bool>)
    requires x == Xor(r, Top(w)) && on == (w >= 0x8000) && g == CCITT_GENERATOR
    ensures HighFirst(ShiftLeft(x), 16) == Feed(HighFirst(r, 16), on, g)
  {
    var s, fed := HighFirst(ShiftLeft(x), 16), Feed(HighFirst(r, 16), on, g);
    forall k | 0 <= k < 16 ensures s[k] == fed[k] {
      LeftRoundFeedsDigit(r, w, x, on, g, k, 15 - k, 15);
    }
  }

  /** The first round takes the top digit of `w`; the others move up. */
  lemma FirstLeftRound(r: u16, w: u16, top: u16)
    requires top == Top(w)
    ensures Xor(r, w) < 65536 && Xor(r, top) < 65536
    ensures ShiftLeft(Xor(r, w)) == Xor(ShiftLeft(Xor(r, top)), w * 2 % 65536)
  {
    var c: u16 := w % 32768;
    XorFits16(r, w);
    XorFits16(r, top);
    TopAndBelow(w, top, c);
    XorAssociates(r, top, c);
    ShiftLeftLinear(Xor(r, top), c);
    OnlyShifted(w, c);
  }

  lemma OnlyShifted(w: u16, c: u16)
    requires c == w % 32768
    ensures ShiftLeft(c) == w * 2 % 65536
  {
  }

  /** Of a multiple of 65536 / (2 * p), moved up by one place, a multiple of 65536 / p is left. */
  lemma MultipleMovesUp(w: u16, d: u16, p: nat, q: int, t: int)
    requires w * (2 * p) == 65536 * q && d == 2 * w - 65536 * t
    ensures d * p == 65536 * (q - t * p)
  {
    assert w * (2 * p) == 2 * (w * p);
    assert d * p == 2 * (w * p) - 65536 * (t * p);
  }

  lemma MoveUp(w: u16)
    ensures HighFirst(w * 2 % 65536, 16) == HighFirst(w, 16)[1..] + [false]
    ensures HighFirst(w, 16)[0] == (w >= 0x8000)
  {
    TopDigit(w, 15);
    forall k | 0 <= k < 16 ensures HighFirst(w * 2 % 65536, 16)[k] == (HighFirst(w, 16)[1..] + [false])[k] {
      DoubledDigit(w, 15 - k);
    }
  }

  lemma LeftRoundThenOthers(r: u16, w: u16, x: u16, d: u16, n: nat)
    requires Xor(r, w) < 65536 && x == Xor(r, Top(w)) && d == w * 2 % 65536 && n > 0
    ensures Xor(ShiftLeft(x), d) < 65536
    ensures ShiftsLeft(Xor(r, w), n) == ShiftsLeft(Xor(ShiftLeft(x), d), n - 1)
  {
    FirstLeftRound(r, w, Top(w));
    OneThenOthersLeft(Xor(r, w), n);
  }

  /** Nothing is left of `w` when it has moved up `n` times. */
  predicate Leaves(w: u16, n: nat)
    decreases n
  {
    if n == 0 then w == 0 else Leaves(w * 2 % 65536, n - 1)
  }

  lemma {:induction false} MultipleLeaves(w: u16, n: nat, p: nat, q: int)
    requires p == Pow2(n) && w * p == 65536 * q
    ensures Leaves(w, n)
    decreases n
  {
    if n > 0 {
      var d: u16, half, t := w * 2 % 65536, Pow2(n - 1), Digit(w >= 0x8000);
      MultipleMovesUp(w, d, half, q, t);
      MultipleLeaves(d, n - 1, half, q - t * half);
    }
  }

  lemma {:induction false} LeftRoundsAreFeeds(r: u16, w: u16, n: nat)
    requires n <= 8 && Leaves(w, n)
    ensures Xor(r, w) < 65536
    ensures HighFirst(ShiftsLeft(Xor(r, w), n), 16) ==
            FeedAll(HighFirst(r, 16), HighFirst(w, 16)[..n], CCITT_GENERATOR)
    decreases n
  {
    XorFits16(r, w);
    if n == 0 {
      XorZero(r);
    } else {
      XorFits16(r, Top(w));
      var d: u16, x: u16 := w * 2 % 65536, Xor(r, Top(w));
      LeftRoundThenOthers(r, w, x, d, n);
      LeftRoundIsFeed(r, w, x, w >= 0x8000, CCITT_GENERATOR);
      LeftRoundsAreFeeds(ShiftLeft(x), d, n - 1);
      FeedsTop(HighFirst(r, 16), w, n, CCITT_GENERATOR);
    }
  }

  lemma OneThenOthersLeft(r: u16, n: nat)
    requires n > 0
    ensures ShiftsLeft(r, n) == ShiftsLeft(ShiftLeft(r), n - 1)
  {
    ShiftsLeftCompose(r, 1, n - 1);
    assert ShiftsLeft(r, 0) == r;
    assert ShiftsLeft(r, 1) == ShiftLeft(r);
  }

  /** The top digit of `w` comes first. */
  lemma FeedsTop(r: seq<bool>, w: u16, n: nat, g: seq<bool>)
    requires 0 < |r| && |g| == |r| + 1 && 0 < n <= 8
    ensures FeedAll(r, HighFirst(w, 16)[..n], g) ==
            FeedAll(Feed(r, w >= 0x8000, g), HighFirst(w * 2 % 65536, 16)[..n - 1], g)
  {
    MoveUp(w);
    assert HighFirst(w, 16)[..n][1..] == HighFirst(w * 2 % 65536, 16)[..n - 1];
  }

  /** The digits of a message, the highest of each byte first. */
  function PacketDigits(m: seq<byte>): (s: seq<bool>)
    ensures |s| == 8 * |m|
  {
    if m == [] then [] else PacketDigits(m[..|m| - 1]) + HighFirst(m[|m| - 1], 8)
  }

  lemma HighByteDigits(b: byte)
    ensures HighFirst(High(b), 16)[..8] == HighFirst(b, 8)
  {
    forall k | 0 <= k < 8 ensures HighFirst(High(b), 16)[..8][k] == HighFirst(b, 8)[k] {
      ScaledDigit(b, 8, 7 - k);
    }
  }

  lemma {:induction false} ScaledDigit(b: byte, n: nat, k: nat)
    requires n <= 8
    ensures TestBit(Scaled(b, n), n + k) == TestBit(b, k)
  {
    if n > 0 {
      ScaledNext(b, n);
      ScaledDigit(b, n - 1, k);
    }
  }

  lemma ByteIsFeeding(r: u16, b: byte)
    ensures HighFirst(AbsorbHigh(r, b), 16) == FeedAll(HighFirst(r, 16), HighFirst(b, 8), CCITT_GENERATOR)
  {
    Pow2Of16();
    MultipleLeaves(High(b), 8, 256, b);
    LeftRoundsAreFeeds(r, High(b), 8);
    HighByteDigits(b);
  }

  lemma {:induction false} RunHighIsFeeding(r: u16, m: seq<byte>)
    ensures HighFirst(RunHigh(r, m), 16) == FeedAll(HighFirst(r, 16), PacketDigits(m), CCITT_GENERATOR)
  {
    if m != [] {
      var before, b := m[..|m| - 1], m[|m| - 1];
      RunHighIsFeeding(r, before);
      ByteIsFeeding(RunHigh(r, before), b);
      FeedAppend(HighFirst(r, 16), PacketDigits(before), HighFirst(b, 8), CCITT_GENERATOR);
    }
  }

  /**
    The checksum of a settings packet, highest digit first, is the rest that
    x^16 + x^12 + x^5 + 1 leaves of the packet followed by sixteen zeros.
   */
  lemma PacketCrcIsRest(m: seq<byte>)
    ensures HighFirst(RunHigh(0, m), 16) == Rest(PacketDigits(m) + Blank(16), Generator({16, 12, 5, 0}))
  {
    RunHighIsFeeding(0, m);
    FeedIsDivision(HighFirst(0, 16), PacketDigits(m), CCITT_GENERATOR);
    var dividend := PacketDigits(m) + Blank(16);
    forall k | 0 <= k < 16 ensures !HighFirst(0, 16)[k] {
      ZeroDigit(15 - k);
    }
    assert AddedInFront(dividend, HighFirst(0, 16)) == dividend;
  }
}
