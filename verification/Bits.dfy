/**
  Machine words and bitwise operators.

  A byte is an integer below 256 and a wider word an integer below a power of two. The C
  operators `^`, `|` and `&` are defined on natural numbers by recursion on the binary
  digits, so that every fact about them is proved by halving.
 */
module Bits {

  type byte = x: int | 0 <= x < 256
  type u16 = x: int | 0 <= x < 65536

  /** `1 << n` */
  function Pow2(n: nat): (r: nat)
    ensures r >= 1
  {
    if n == 0 then 1 else 2 * Pow2(n - 1)
  }

  /** The digit of weight `1 << i`. */
  predicate TestBit(x: nat, i: nat) {
    if i == 0 then x % 2 == 1 else TestBit(x / 2, i - 1)
  }

  function Digit(b: bool): nat {
    if b then 1 else 0
  }

  function Xor(a: nat, b: nat): nat {
    if a == 0 && b == 0 then 0 else Digit(a % 2 != b % 2) + 2 * Xor(a / 2, b / 2)
  }

  function Or(a: nat, b: nat): nat {
    if a == 0 && b == 0 then 0
    else Digit(a % 2 == 1 || b % 2 == 1) + 2 * Or(a / 2, b / 2)
  }

  function And(a: nat, b: nat): nat {
    if a == 0 || b == 0 then 0
    else Digit(a % 2 == 1 && b % 2 == 1) + 2 * And(a / 2, b / 2)
  }

  // ---------------------------------------------------------------- exclusive or

  lemma {:induction false} XorCommutes(a: nat, b: nat)
    ensures Xor(a, b) == Xor(b, a)
  {
    if a != 0 || b != 0 {
      XorCommutes(a / 2, b / 2);
    }
  }

  /** A number is fixed by its half and its last digit. */
  lemma SameHalves(x: nat, y: nat)
    requires x / 2 == y / 2 && x % 2 == y % 2
    ensures x == y
  {
  }

  lemma XorHalves(a: nat, b: nat)
    ensures Xor(a, b) / 2 == Xor(a / 2, b / 2)
    ensures Xor(a, b) % 2 == Digit(a % 2 != b % 2)
  {
  }

  lemma {:induction false} XorAssociates(a: nat, b: nat, c: nat)
    ensures Xor(Xor(a, b), c) == Xor(a, Xor(b, c))
  {
    if a != 0 || b != 0 || c != 0 {
      XorAssociates(a / 2, b / 2, c / 2);
      XorHalves(a, b);
      XorHalves(b, c);
      XorHalves(Xor(a, b), c);
      XorHalves(a, Xor(b, c));
      SameHalves(Xor(Xor(a, b), c), Xor(a, Xor(b, c)));
    }
  }

  lemma {:induction false} XorZero(a: nat)
    ensures Xor(a, 0) == a == Xor(0, a)
  {
    if a != 0 {
      XorZero(a / 2);
    }
  }

  /** Two words are equal exactly when their exclusive or vanishes. */
  lemma {:induction false} XorZeroMeansEqual(a: nat, b: nat)
    ensures Xor(a, b) == 0 <==> a == b
  {
    if a != 0 || b != 0 {
      XorZeroMeansEqual(a / 2, b / 2);
    }
  }

  /** The operands of `(a ^ b) ^ (c ^ d)` may be regrouped. */
  lemma XorRegroup(a: nat, b: nat, c: nat, d: nat)
    ensures Xor(Xor(a, b), Xor(c, d)) == Xor(Xor(a, c), Xor(b, d))
  {
    XorAssociates(a, b, Xor(c, d));
    XorAssociates(b, c, d);
    XorCommutes(b, c);
    XorAssociates(c, b, d);
    XorAssociates(a, c, Xor(b, d));
  }

  lemma XorCancel(x: nat, y: nat, b: nat)
    requires Xor(x, b) == Xor(y, b)
    ensures x == y
  {
    XorZeroMeansEqual(b, b);
    XorAssociates(x, b, b);
    XorAssociates(y, b, b);
    XorZero(x);
    XorZero(y);
  }

  /** The digits of `h` before the last `n` digits of `l`. */
  function Widened(h: nat, l: nat, n: nat): nat {
    if n == 0 then h else 2 * Widened(h, l / 2, n - 1) + l % 2
  }

  lemma {:induction false} WidenedIsSum(h: nat, l: nat, n: nat)
    requires l < Pow2(n)
    ensures Widened(h, l, n) == h * Pow2(n) + l
  {
    if n > 0 {
      WidenedIsSum(h, l / 2, n - 1);
      Doubled(h, l, Pow2(n - 1), Pow2(n));
    }
  }

  lemma Doubled(h: nat, l: nat, p: nat, q: nat)
    requires q == 2 * p
    ensures h * q + l >= 0 && h * p + l / 2 >= 0
    ensures h * q + l == 2 * (h * p + l / 2) + l % 2
  {
    assert h * q == 2 * (h * p);
  }

  lemma WidenedHalves(h: nat, l: nat, n: nat)
    requires n > 0
    ensures Widened(h, l, n) / 2 == Widened(h, l / 2, n - 1) && Widened(h, l, n) % 2 == l % 2
  {
  }

  lemma XorFromHalves(a: nat, b: nat, r: nat)
    requires r / 2 == Xor(a / 2, b / 2) && r % 2 == Digit(a % 2 != b % 2)
    ensures Xor(a, b) == r
  {
    XorHalves(a, b);
    SameHalves(Xor(a, b), r);
  }

  lemma {:induction false} XorWidened(ah: nat, al: nat, bh: nat, bl: nat, n: nat)
    ensures Xor(Widened(ah, al, n), Widened(bh, bl, n)) == Widened(Xor(ah, bh), Xor(al, bl), n)
  {
    if n > 0 {
      XorWidened(ah, al / 2, bh, bl / 2, n - 1);
      XorHalves(al, bl);
      WidenedHalves(ah, al, n);
      WidenedHalves(bh, bl, n);
      WidenedHalves(Xor(ah, bh), Xor(al, bl), n);
      XorFromHalves(Widened(ah, al, n), Widened(bh, bl, n), Widened(Xor(ah, bh), Xor(al, bl), n));
    }
  }

  lemma {:induction false} XorBelow(a: nat, b: nat, n: nat)
    requires a < Pow2(n) && b < Pow2(n)
    ensures Xor(a, b) < Pow2(n)
  {
    if n > 0 {
      XorBelow(a / 2, b / 2, n - 1);
      XorHalves(a, b);
    }
  }

  /** The low `n` digits and the digits above them are combined independently. */
  lemma XorSplit(ah: nat, al: nat, bh: nat, bl: nat, n: nat)
    requires al < Pow2(n) && bl < Pow2(n)
    ensures Xor(al, bl) < Pow2(n)
    ensures Xor(ah * Pow2(n) + al, bh * Pow2(n) + bl) == Xor(ah, bh) * Pow2(n) + Xor(al, bl)
  {
    XorBelow(al, bl, n);
    WidenedIsSum(ah, al, n);
    WidenedIsSum(bh, bl, n);
    XorWidened(ah, al, bh, bl, n);
    WidenedIsSum(Xor(ah, bh), Xor(al, bl), n);
  }

  lemma XorFits16(a: u16, b: u16)
    ensures Xor(a, b) < 65536
  {
    Pow2Of16();
    XorSplit(0, a, 0, b, 16);
  }

  /** `x`, with `k` mixed in when `on`. */
  function Mix(x: u16, k: u16, on: bool): u16 {
    if on then XorFits16(x, k); Xor(x, k) else x
  }

  /** Mixing is linear: the two occurrences of `k` cancel. */
  lemma MixLinear(x: u16, y: u16, k: u16, p: bool, q: bool)
    ensures Xor(x, y) < 65536
    ensures Mix(Xor(x, y), k, p != q) == Xor(Mix(x, k, p), Mix(y, k, q))
  {
    XorFits16(x, y);
    if p && q {
      XorRegroup(x, k, y, k);
      XorZeroMeansEqual(k, k);
      XorZero(Xor(x, y));
    } else if p {
      XorAssociates(x, k, y);
      XorCommutes(k, y);
      XorAssociates(x, y, k);
    } else if q {
      XorAssociates(x, y, k);
    }
  }

  lemma MixZero(x: u16, k: u16, on: bool)
    ensures Mix(x, k, on) == 0 <==> x == if on then k else 0
  {
    XorZeroMeansEqual(x, k);
  }

  lemma {:induction false} Pow2Monotone(m: nat, n: nat)
    requires m <= n
    ensures Pow2(m) <= Pow2(n)
  {
    if m < n {
      Pow2Monotone(m, n - 1);
    }
  }

  /** A byte shifted left by up to eight places. */
  function Scaled(x: byte, n: nat): (r: u16)
    requires n <= 8
    ensures n < 8 ==> r < 32768
  {
    var v: int := x;
    match n
    case 0 => v
    case 1 => 2 * v
    case 2 => 4 * v
    case 3 => 8 * v
    case 4 => 16 * v
    case 5 => 32 * v
    case 6 => 64 * v
    case 7 => 128 * v
    case _ => 256 * v
  }

  lemma ScaledNext(x: byte, n: nat)
    requires 0 < n <= 8
    ensures Scaled(x, n) == 2 * Scaled(x, n - 1)
  {
  }

  lemma Pow2Of16()
    ensures Pow2(7) == 128 && Pow2(8) == 256 && Pow2(15) == 32768 && Pow2(16) == 65536
  {
    assert Pow2(4) == 16;
    assert Pow2(7) == 128 && Pow2(8) == 256;
    assert Pow2(12) == 4096;
    assert Pow2(15) == 32768;
  }

  // ------------------------------------------------------------------- single digits

  lemma {:induction false} OrDigit(a: nat, b: nat, i: nat)
    ensures TestBit(Or(a, b), i) <==> TestBit(a, i) || TestBit(b, i)
  {
    if i > 0 {
      OrHalves(a, b);
      OrDigit(a / 2, b / 2, i - 1);
    } else {
      OrHalves(a, b);
    }
  }

  lemma OrHalves(a: nat, b: nat)
    ensures Or(a, b) / 2 == Or(a / 2, b / 2)
    ensures Or(a, b) % 2 == Digit(a % 2 == 1 || b % 2 == 1)
  {
  }

  lemma {:induction false} PowerDigit(n: nat, i: nat)
    ensures TestBit(Pow2(n), i) <==> i == n
  {
    if i > 0 && n > 0 {
      PowerDigit(n - 1, i - 1);
    } else if i > 0 {
      ZeroDigit(i - 1);
    }
  }

  lemma {:induction false} ZeroDigit(i: nat)
    ensures !TestBit(0, i)
  {
    if i > 0 {
      ZeroDigit(i - 1);
    }
  }

  /** A number has no digits beyond its size. */
  lemma {:induction false} NoDigitBeyond(x: nat, n: nat, i: nat)
    requires x < Pow2(n) && n <= i
    ensures !TestBit(x, i)
  {
    if n > 0 {
      NoDigitBeyond(x / 2, n - 1, i - 1);
    } else {
      ZeroDigit(i);
    }
  }

  lemma {:induction false} OrFits(a: nat, b: nat, n: nat)
    requires a < Pow2(n) && b < Pow2(n)
    ensures Or(a, b) < Pow2(n)
  {
    if n > 0 {
      OrFits(a / 2, b / 2, n - 1);
      OrHalves(a, b);
    }
  }

  /** `__builtin_ctz` */
  function TrailingZeros(x: nat): (n: nat)
    requires x > 0
  {
    if x % 2 == 1 then 0 else 1 + TrailingZeros(x / 2)
  }

  /** The lowest digit that is set. */
  lemma {:induction false} LowestDigit(x: nat, i: nat)
    requires x > 0
    ensures TestBit(x, TrailingZeros(x)) && (i < TrailingZeros(x) ==> !TestBit(x, i))
  {
    if x % 2 == 0 {
      LowestDigit(x / 2, if i == 0 then 0 else i - 1);
    }
  }

  /** `x & (x - 1)` clears the lowest digit that is set and keeps the others. */
  lemma {:induction false} ClearLowest(x: nat, i: nat)
    requires x > 0
    ensures And(x, x - 1) < x
    ensures TestBit(And(x, x - 1), i) <==> TestBit(x, i) && i != TrailingZeros(x)
  {
    AndHalf(x, x - 1);
    if x % 2 == 1 {
      AndSame(x / 2);
    } else {
      assert (x - 1) / 2 == x / 2 - 1;
      ClearLowest(x / 2, if i == 0 then 0 else i - 1);
    }
  }

  lemma AndHalf(a: nat, b: nat)
    ensures And(a, b) / 2 == And(a / 2, b / 2)
    ensures And(a, b) % 2 == Digit(a % 2 == 1 && b % 2 == 1)
  {
  }

  lemma {:induction false} AndSame(x: nat)
    ensures And(x, x) == x
  {
    if x > 0 {
      AndSame(x / 2);
    }
  }

  /** The digits that are set in a word of 32. */
  function SetBits(mask: nat): set<nat> {
    set i | 0 <= i < 32 && TestBit(mask, i)
  }

  /** All digits below the `n`th are set in one less than its weight. */
  lemma {:induction false} OnesDigit(n: nat, i: nat)
    ensures TestBit(Pow2(n) - 1, i) <==> i < n
  {
    if n == 0 {
      ZeroDigit(i);
    } else if i > 0 {
      OnesDigit(n - 1, i - 1);
      assert (Pow2(n) - 1) / 2 == Pow2(n - 1) - 1;
    }
  }

  lemma SetBitsOr(mask: nat, n: nat)
    requires n < 32
    ensures SetBits(Or(mask, Pow2(n))) == SetBits(mask) + {n}
  {
    forall i | 0 <= i < 32 ensures TestBit(Or(mask, Pow2(n)), i) <==> TestBit(mask, i) || i == n {
      OrDigit(mask, Pow2(n), i);
      PowerDigit(n, i);
    }
  }

  /** The lowest digit of a mask, and what is left when it is cleared. */
  lemma SetBitsClear(mask: nat)
    requires 0 < mask < Pow2(32)
    ensures TrailingZeros(mask) in SetBits(mask) && forall u :: u in SetBits(mask) ==> TrailingZeros(mask) <= u
    ensures And(mask, mask - 1) < mask && SetBits(And(mask, mask - 1)) == SetBits(mask) - {TrailingZeros(mask)}
  {
    forall i | 0 <= i < 32
      ensures TestBit(And(mask, mask - 1), i) <==> TestBit(mask, i) && i != TrailingZeros(mask)
      ensures TestBit(mask, i) ==> TrailingZeros(mask) <= i
    {
      ClearLowest(mask, i);
      LowestDigit(mask, i);
    }
    ClearLowest(mask, 0);
    LowestDigit(mask, 0);
    if TrailingZeros(mask) >= 32 {
      NoDigitBeyond(mask, 32, TrailingZeros(mask));
    }
  }

  lemma SetBitsNone()
    ensures SetBits(0) == {}
  {
    forall i | 0 <= i < 32 ensures !TestBit(0, i) {
      ZeroDigit(i);
    }
  }
}
