/** Saturating casts, the 32x64 multiply, and the loop-based signed saturate. */
module Saturation {
  import opened Words

  // ----- The functions of the source

  function ClipQ63ToQ31(x: Q63): Q31
  {
    if ToInt32(x / 0x1_0000_0000) != ToInt32(x) / 0x8000_0000
    then ToInt32(Xor32(0x7FFF_FFFF, ToInt32(x / 0x8000_0000_0000_0000)))
    else ToInt32(x)
  }

  function ClipQ63ToQ15(x: Q63): Q15
  {
    if ToInt32(x / 0x1_0000_0000) != ToInt32(x) / 0x8000_0000
    then ToInt16(Xor32(0x7FFF, ToInt16(x / 0x8000_0000_0000_0000)))
    else ToInt16(x / 0x8000)
  }

  function ClipQ31ToQ7(x: Q31): Q7
  {
    if x / 0x100_0000 != x / 0x80_0000 then ToInt8(Xor32(0x7F, ToInt8(x / 0x8000_0000))) else ToInt8(x)
  }

  function ClipQ31ToQ15(x: Q31): Q15
  {
    if x / 0x1_0000 != x / 0x8000 then ToInt16(Xor32(0x7FFF, ToInt16(x / 0x8000_0000))) else ToInt16(x)
  }

  /** `x & 0xFFFFFFFF`. */
  function LowWord(x: Q63): (l: uint32)
    ensures l == x % 0x1_0000_0000
  {
    assert Pow2(32) == 0x1_0000_0000 by { Pow2Values(); }
    AndLowMask(64, x, 32, 0x1_0000_0000);
    BitAnd(64, x, 0xFFFF_FFFF)
  }

  /** The low and the high half of x are multiplied by y separately, each in 64 bits. */
  function Mult32x64(x: Q63, y: Q31): Q63
  {
    var low := ToInt64(LowWord(x) * y);
    var high := ToInt64(x / 0x1_0000_0000 * y);
    ToInt64(low / 0x1_0000_0000 + high)
  }

  /** Saturating addition. */
  function QAdd(x: int32, y: int32): (r: int32)
    ensures r == Clamp(x + y, -0x8000_0000, 0x7FFF_FFFF)
  {
    ClipQ63ToQ31IsClamp(x + y);
    ClipQ63ToQ31(ToInt64(x + y))
  }

  /** Saturating subtraction. */
  function QSub(x: int32, y: int32): (r: int32)
    ensures r == Clamp(x - y, -0x8000_0000, 0x7FFF_FFFF)
  {
    ClipQ63ToQ31IsClamp(x - y);
    ClipQ63ToQ31(ToInt64(x - y))
  }

  // ----- What they compute

  /** The xor with the sign word turns the largest value into the smallest one for negative x. */
  lemma XorSign(a: int, sign: int)
    requires 0 <= a < 0x8000_0000
    requires sign == 0 || sign == -1
    ensures Xor32(a, sign) == if sign == 0 then a else 0xFFFF_FFFF - a
  {
    Pow2Values();
    XorSignWord(32, a, sign, 0x1_0000_0000);
  }

  /** The guard of the 64-bit clips: the two sign words differ exactly when x leaves 32 bits. */
  lemma HighWordTest(x: Q63)
    ensures ToInt32(x / 0x1_0000_0000) == ToInt32(x) / 0x8000_0000 <==> -0x8000_0000 <= x < 0x8000_0000
  {
  }

  lemma ClipQ63ToQ31IsClamp(x: Q63)
    ensures ClipQ63ToQ31(x) == Clamp(x, -0x8000_0000, 0x7FFF_FFFF)
  {
    XorSign(0x7FFF_FFFF, ToInt32(x / 0x8000_0000_0000_0000));
  }

  /**
   The 64-to-16-bit clip is the clamp of x / 2^15 except on two intervals: when x fits 32 bits
   but not 31, the guard does not fire and the narrowing cast wraps.
   */
  lemma ClipQ63ToQ15IsClampExactlyWhen(x: Q63)
    ensures ClipQ63ToQ15(x) == Clamp(x / 0x8000, -0x8000, 0x7FFF)
      <==> !(-0x8000_0000 <= x < -0x4000_0000 || 0x4000_0000 <= x < 0x8000_0000)
    ensures -0x8000_0000 <= x < -0x4000_0000 ==> ClipQ63ToQ15(x) == x / 0x8000 + 0x1_0000
    ensures 0x4000_0000 <= x < 0x8000_0000 ==> ClipQ63ToQ15(x) == x / 0x8000 - 0x1_0000
  {
    ClipQ63ToQ15Value(x);
    hide ClipQ63ToQ15, ToInt16;
    if -0x8000_0000 <= x < 0x8000_0000 {
      WrapOfSeventeenBits(x / 0x8000);
    }
  }

  lemma ClipQ63ToQ15Value(x: Q63)
    ensures ClipQ63ToQ15(x)
         == if -0x8000_0000 <= x < 0x8000_0000 then ToInt16(x / 0x8000) else if x < 0 then -0x8000 else 0x7FFF
  {
    HighWordTest(x);
    if !(-0x8000_0000 <= x < 0x8000_0000) {
      XorSign(0x7FFF, if x < 0 then -1 else 0);
    }
  }

  lemma WrapOfSeventeenBits(q: int)
    requires -0x1_0000 <= q < 0x1_0000
    ensures ToInt16(q) == if q < -0x8000 then q + 0x1_0000 else if q >= 0x8000 then q - 0x1_0000 else q
  {
  }

  lemma ClipQ31ToQ15IsClamp(x: Q31)
    ensures ClipQ31ToQ15(x) == Clamp(x, -0x8000, 0x7FFF)
  {
    XorSign(0x7FFF, ToInt16(x / 0x8000_0000));
  }

  /**
   The 32-to-8-bit clip tests eight bits too high: below 2^23 in magnitude it keeps the low byte,
   which is the clamp only when the value fits or its low byte happens to be the bound.
   */
  lemma ClipQ31ToQ7IsClampExactlyWhen(x: Q31)
    ensures ClipQ31ToQ7(x) == Clamp(x, -0x80, 0x7F)
      <==> (-0x80 <= x <= 0x7F || x < -0x80_0000 || x >= 0x80_0000
            || x % 0x100 == if x > 0 then 0x7F else 0x80)
    ensures -0x80_0000 <= x < 0x80_0000 ==> ClipQ31ToQ7(x) == (x + 0x80) % 0x100 - 0x80
  {
    ClipQ31ToQ7Value(x);
    hide ClipQ31ToQ7;
  }

  lemma ClipQ31ToQ7Value(x: Q31)
    ensures ClipQ31ToQ7(x)
         == if -0x80_0000 <= x < 0x80_0000 then ToInt8(x) else if x < 0 then -0x80 else 0x7F
  {
    XorSign(0x7F, ToInt8(x / 0x8000_0000));
  }

  /** No step of the split multiply overflows. */
  lemma Mult32x64NeverOverflows(x: Q63, y: Q31)
    ensures var low := LowWord(x) * y;
      var high := x / 0x1_0000_0000 * y;
      && ToInt64(low) == low
      && ToInt64(high) == high
      && ToInt64(low / 0x1_0000_0000 + high) == low / 0x1_0000_0000 + high
  {
    ProductBound(LowWord(x), 0xFFFF_FFFF, y);
    HighProductBound(x / 0x1_0000_0000, y);
  }

  lemma HighProductBound(h: int32, y: Q31)
    ensures -0x4000_0000_0000_0000 <= h * y <= 0x4000_0000_0000_0000
  {
    ProductBound(if h >= 0 then h else 0 - h, 0x8000_0000, y);
    if h < 0 {
      assert (0 - h) * y == 0 - h * y;
    }
  }

  /** The split multiply is the exact product shifted right by 32. */
  lemma Mult32x64IsExact(x: Q63, y: Q31)
    ensures Mult32x64(x, y) == (x * y) / 0x1_0000_0000
  {
    Mult32x64NeverOverflows(x, y);
    SplitProduct(x, y);
  }

  lemma SplitProduct(x: int, y: int)
    ensures var l, h := x % 0x1_0000_0000, x / 0x1_0000_0000;
      l * y / 0x1_0000_0000 + h * y == x * y / 0x1_0000_0000
  {
    var l, h := x % 0x1_0000_0000, x / 0x1_0000_0000;
    assert x * y == l * y + (h * y) * 0x1_0000_0000 by {
      assert x == l + h * 0x1_0000_0000;
      assert (h * 0x1_0000_0000) * y == (h * y) * 0x1_0000_0000;
    }
  }

  // ----- Signed saturate

  /**
   Saturation to a y-bit signed value. Widths outside 1..32 leave the doubling loop with a bound
   that has wrapped to zero, and the result no longer depends on the magnitude of x.
   */
  function SSatValue(x: Q31, y: uint32): Q31
  {
    if 1 <= y <= 32 then
      SmallPowers(y - 1);
      Clamp(x, -Pow2(y - 1), Pow2(y - 1) - 1)
    else if x > 0 then -1
    else 0
  }

  method SSat(x: Q31, y: uint32) returns (r: Q31)
    ensures r == SSatValue(x, y)
  {
    var posMax: int32 := 1;
    var i: int := 0;
    var rounds := ToUint32(y - 1);
    while i < rounds
      invariant 0 <= i <= rounds
      invariant posMax == DoubledBound(i)
    {
      DoubledBoundStep(i);
      posMax := ToInt32(posMax * 2);
      i := i + 1;
    }
    SaturateAgainstBound(x, y, posMax);
    r := x;
    if r > 0 {
      posMax := ToInt32(posMax - 1);
      if r > posMax {
        r := posMax;
      }
    } else {
      var negMin := ToInt32(0 - posMax);
      if r < negMin {
        r := negMin;
      }
    }
  }

  /** 2^n in 32 bits: exact up to 2^30, then -2^31, then zero. */
  function DoubledBound(n: nat): (b: int32)
    ensures n <= 30 ==> 0 < b <= 0x4000_0000
  {
    if n <= 30 then
      SmallPowers(n);
      Pow2(n)
    else if n == 31 then -0x8000_0000
    else 0
  }

  lemma SmallPowers(n: nat)
    ensures n <= 30 ==> Pow2(n) <= 0x4000_0000
    ensures n == 30 ==> Pow2(n) == 0x4000_0000
    ensures n == 31 ==> Pow2(n) == 0x8000_0000
  {
    Pow2Values();
    if n <= 30 {
      Pow2Monotone(n, 30);
    }
  }

  lemma DoubledBoundStep(n: nat)
    ensures ToInt32(DoubledBound(n) * 2) == DoubledBound(n + 1)
  {
    SmallPowers(n);
  }

  /** Comparing against the bound of the loop, less one on the positive side, saturates x. */
  lemma SaturateAgainstBound(x: Q31, y: uint32, b: int32)
    requires b == DoubledBound(ToUint32(y - 1))
    ensures SSatValue(x, y) == if x > 0 then Min(x, ToInt32(b - 1)) else Max(x, ToInt32(0 - b))
  {
    hide Pow2;
    if 1 <= y <= 32 {
      SmallPowers(y - 1);
      BoundEnds(b, Pow2(y - 1));
    } else {
      SmallPowers(ToUint32(y - 1));
    }
  }

  /** The two bounds that the comparisons use, for the exact bound p held in 32 bits as b. */
  lemma BoundEnds(b: int32, p: int)
    requires (0 < b == p <= 0x4000_0000) || (b == -0x8000_0000 && p == 0x8000_0000)
    ensures ToInt32(b - 1) == p - 1
    ensures ToInt32(0 - b) == 0 - p
  {
  }
}
