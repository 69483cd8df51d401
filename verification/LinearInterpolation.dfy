/**
 Table interpolation along one axis. The position is in 12.20 format: twelve bits of signed
 table index and twenty bits of fraction.
 */
module LinearInterpolation {
  import opened Words
  import opened Divisors

  // ----- Position

  /** `(x & 0xFFF00000) >> 20` */
  function Index(x: Q31): int { ToInt32(And32(x, 0xFFF0_0000)) / 0x10_0000 }

  /** `x & 0x000FFFFF` */
  function Fraction(x: Q31): uint32 { And32(x, 0xF_FFFF) }

  lemma Position(x: Q31)
    ensures Index(x) == x / 0x10_0000
    ensures Fraction(x) == x % 0x10_0000
  {
    assert Pow2(32) == 0x1_0000_0000 && Pow2(20) == 0x10_0000 by { Pow2Values(); }
    AndHighMask(32, x, 0x1_0000_0000, 20, 0x10_0000);
    AndLowMask(32, x, 20, 0x10_0000);
    hide And32;
    assert And32(x, 0xFFF0_0000) == x % 0x1_0000_0000 - x % 0x10_0000 by { UnfoldAnd(x, 0xFFF0_0000); }
    assert And32(x, 0xF_FFFF) == x % 0x10_0000 by { UnfoldAnd(x, 0xF_FFFF); }
    hide Pow2;
    SignedHighPart(x);
  }

  lemma SignedHighPart(x: Q31)
    ensures ToInt32(x % 0x1_0000_0000 - x % 0x10_0000) / 0x10_0000 == x / 0x10_0000
  {
    ToInt32Is(x % 0x1_0000_0000 - x % 0x10_0000, x - x % 0x10_0000, if x < 0 then 1 else 0);
  }

  lemma UnfoldAnd(a: int, b: int)
    ensures And32(a, b) == BitAnd(32, a, b)
  {
  }

  // ----- The interpolating functions

  /** `arm_linear_interp_q15` */
  function LinearQ15(table: seq<Q15>, x: Q31, nValues: uint32): Q15
    requires 1 <= nValues <= |table| && nValues <= 0x8000_0000
  {
    var index := Index(x);
    if index >= ToInt32(nValues - 1) then table[nValues - 1]
    else if index < 0 then table[0]
    else
      Position(x);
      var fract := Fraction(x);
      var y := ToInt64(table[index] * (0xF_FFFF - fract));
      ToInt16(ToInt64(y + ToInt64(table[index + 1] * fract)) / 0x10_0000)
  }

  /** `arm_linear_interp_q7` tests the sign of x first and indexes without sign. */
  function LinearQ7(table: seq<Q7>, x: Q31, nValues: uint32): Q7
    requires 1 <= nValues <= |table|
  {
    if x < 0 then table[0]
    else
      var index := And32(x / 0x10_0000, 0xFFF);
      if index >= nValues - 1 then table[nValues - 1]
      else
        var fract := Fraction(x);
        var y := ToInt32(table[index] * (0xF_FFFF - fract));
        ToInt8(ToInt32(y + ToInt32(table[index + 1] * fract)) / 0x10_0000)
  }

  /** `arm_linear_interp_q31` scales each product down before adding. */
  function LinearQ31(table: seq<Q31>, x: Q31, nValues: uint32): Q31
    requires 1 <= nValues <= |table| && nValues <= 0x8000_0000
  {
    var index := Index(x);
    if index >= ToInt32(nValues - 1) then table[nValues - 1]
    else if index < 0 then table[0]
    else
      Position(x);
      BlendQ31(table[index], table[index + 1], ToInt32(Fraction(x) * 0x800))
  }

  function BlendQ31(y0: Q31, y1: Q31, fract: Q31): Q31
  {
    ToInt32(ToInt32(HighWord(y0 * (0x7FFF_FFFF - fract)) + HighWord(y1 * fract)) * 2)
  }

  /** `(q31_t)((q63_t)product >> 32)` */
  function HighWord(product: int): Q31 { ToInt32(ToInt64(product) / 0x1_0000_0000) }

  // ----- The curve they follow

  /** The two weights add up to 2^20 - 1, one short of the divisor. */
  function Blend(y0: int, y1: int, f: int): int
  {
    (y0 * (0xF_FFFF - f) + y1 * f) / 0x10_0000
  }

  function Curve(table: seq<int>, n: nat, x: int): int
    requires 1 <= n <= |table|
  {
    if x / 0x10_0000 >= n - 1 then table[n - 1]
    else if x < 0 then table[0]
    else Blend(table[x / 0x10_0000], table[x / 0x10_0000 + 1], x % 0x10_0000)
  }

  lemma WeightedPair(y0: int, y1: int, f: int, lo: int, hi: int)
    requires 0 <= f <= 0xF_FFFF
    requires lo <= y0 <= hi && lo <= y1 <= hi
    ensures lo * 0xF_FFFF <= y0 * (0xF_FFFF - f) + y1 * f <= hi * 0xF_FFFF
  {
    assert (y0 - lo) * (0xF_FFFF - f) >= 0 && (y1 - lo) * f >= 0;
    assert (hi - y0) * (0xF_FFFF - f) >= 0 && (hi - y1) * f >= 0;
  }

  /** No product or sum overflows and the narrowing keeps the value: Q15 follows the curve. */
  lemma LinearQ15IsCurve(table: seq<Q15>, x: Q31, nValues: uint32)
    requires 1 <= nValues <= |table| && nValues <= 0x8000_0000
    ensures LinearQ15(table, x, nValues) == Curve(table, nValues, x)
  {
    hide Index, Fraction, ToInt64, ToInt32, ToInt16, Blend;
    Position(x);
    LastIndex(nValues);
    var i := x / 0x10_0000;
    if 0 <= i < nValues - 1 {
      BlendQ15Fits(table[i], table[i + 1], x % 0x10_0000);
    }
  }

  lemma LastIndex(nValues: uint32)
    requires 1 <= nValues <= 0x8000_0000
    ensures ToInt32(nValues - 1) == nValues - 1
  {
  }

  lemma BlendQ15Fits(y0: Q15, y1: Q15, f: int)
    requires 0 <= f <= 0xF_FFFF
    ensures ToInt16(ToInt64(ToInt64(y0 * (0xF_FFFF - f)) + ToInt64(y1 * f)) / 0x10_0000) == Blend(y0, y1, f)
  {
    WeightedPair(y0, y1, f, -0x8000, 0x7FFF);
    WeightedPair(y0, 0, f, -0x8000, 0x7FFF);
    WeightedPair(0, y1, f, -0x8000, 0x7FFF);
    NarrowsQ15(y0 * (0xF_FFFF - f), y1 * f);
  }

  lemma NarrowsQ15(a: int, b: int)
    requires -0x8000 * 0xF_FFFF <= a <= 0x7FFF * 0xF_FFFF && -0x8000 * 0xF_FFFF <= b <= 0x7FFF * 0xF_FFFF
    requires -0x8000 * 0xF_FFFF <= a + b <= 0x7FFF * 0xF_FFFF
    ensures ToInt16(ToInt64(ToInt64(a) + ToInt64(b)) / 0x10_0000) == (a + b) / 0x10_0000
  {
    assert ToInt64(a) == a && ToInt64(b) == b && ToInt64(a + b) == a + b;
    hide ToInt64;
  }

  lemma LinearQ7IsCurve(table: seq<Q7>, x: Q31, nValues: uint32)
    requires 1 <= nValues <= |table|
    ensures LinearQ7(table, x, nValues) == Curve(table, nValues, x)
  {
    hide Fraction, And32, ToInt32, ToInt8, Blend;
    Position(x);
    var i := x / 0x10_0000;
    if x >= 0 {
      assert And32(i, 0xFFF) == i by { IndexMask(i); }
      if i < nValues - 1 {
        BlendQ7Fits(table[i], table[i + 1], x % 0x10_0000);
      }
    }
  }

  lemma IndexMask(i: int)
    requires 0 <= i < 0x800
    ensures And32(i, 0xFFF) == i
  {
    assert Pow2(12) == 0x1000 by {
      Pow2Values();
      Pow2Add(6, 6);
    }
    AndLowMask(32, i, 12, 0x1000);
  }

  lemma BlendQ7Fits(y0: Q7, y1: Q7, f: int)
    requires 0 <= f <= 0xF_FFFF
    ensures ToInt8(ToInt32(ToInt32(y0 * (0xF_FFFF - f)) + ToInt32(y1 * f)) / 0x10_0000) == Blend(y0, y1, f)
  {
    WeightedPair(y0, y1, f, -0x80, 0x7F);
    WeightedPair(y0, 0, f, -0x80, 0x7F);
    WeightedPair(0, y1, f, -0x80, 0x7F);
    NarrowsQ7(y0 * (0xF_FFFF - f), y1 * f);
  }

  lemma NarrowsQ7(a: int, b: int)
    requires -0x80 * 0xF_FFFF <= a <= 0x7F * 0xF_FFFF && -0x80 * 0xF_FFFF <= b <= 0x7F * 0xF_FFFF
    requires -0x80 * 0xF_FFFF <= a + b <= 0x7F * 0xF_FFFF
    ensures ToInt8(ToInt32(ToInt32(a) + ToInt32(b)) / 0x10_0000) == (a + b) / 0x10_0000
  {
    assert ToInt32(a) == a && ToInt32(b) == b && ToInt32(a + b) == a + b;
    hide ToInt32;
  }

  // ----- Accuracy

  /** 2^20 times the exact value of the straight line. */
  function ScaledLine(y0: int, y1: int, f: int): int
  {
    y0 * (0x10_0000 - f) + y1 * f
  }

  /** The missing weight costs y0 / 2^20, the truncation less than one unit. */
  lemma BlendAccuracy(y0: int, y1: int, f: int)
    ensures ScaledLine(y0, y1, f) - y0 - 0x10_0000 < 0x10_0000 * Blend(y0, y1, f) <= ScaledLine(y0, y1, f) - y0
  {
    assert y0 * (0x10_0000 - f) == y0 * (0xF_FFFF - f) + y0;
  }

  /** Between the table points the Q15 result is in (exact - 33/32, exact + 1/32]. */
  lemma LinearQ15Accurate(table: seq<Q15>, x: Q31, nValues: uint32)
    requires 1 <= nValues <= |table| && nValues <= 0x8000_0000
    requires 0 <= x / 0x10_0000 < nValues - 1
    ensures var line := ScaledLine(table[x / 0x10_0000], table[x / 0x10_0000 + 1], x % 0x10_0000);
      var error := 0x10_0000 * LinearQ15(table, x, nValues) - line;
      -0x10_0000 * 33 < 32 * error <= 0x10_0000
  {
    LinearQ15IsCurve(table, x, nValues);
    hide LinearQ15, ScaledLine, Blend;
    BlendAccuracy(table[x / 0x10_0000], table[x / 0x10_0000 + 1], x % 0x10_0000);
  }

  /** Between the table points the Q7 result is in (exact - 1 - 2^-13, exact + 2^-13]. */
  lemma LinearQ7Accurate(table: seq<Q7>, x: Q31, nValues: uint32)
    requires 1 <= nValues <= |table|
    requires 0 <= x / 0x10_0000 < nValues - 1
    ensures var line := ScaledLine(table[x / 0x10_0000], table[x / 0x10_0000 + 1], x % 0x10_0000);
      var error := 0x10_0000 * LinearQ7(table, x, nValues) - line;
      -0x10_0000 - 0x80 < error <= 0x80
  {
    LinearQ7IsCurve(table, x, nValues);
    hide LinearQ7, ScaledLine, Blend;
    BlendAccuracy(table[x / 0x10_0000], table[x / 0x10_0000 + 1], x % 0x10_0000);
  }

  /** On a table point the curve returns the entry itself exactly when it is not positive. */
  lemma CurveAtPoint(table: seq<int>, n: nat, i: nat)
    requires 1 <= n <= |table| && i < n - 1
    requires -0x8000 <= table[i] < 0x8000
    ensures Curve(table, n, i * 0x10_0000) == if table[i] <= 0 then table[i] else table[i] - 1
  {
  }

  // ----- Monotonicity

  ghost predicate Nondecreasing(table: seq<int>, n: nat)
    requires n <= |table|
  {
    forall i, j :: 0 <= i <= j < n ==> table[i] <= table[j]
  }

  lemma BlendMonotone(y0: int, y1: int, f: int, g: int)
    requires y0 <= y1 && 0 <= f <= g <= 0xF_FFFF
    ensures Blend(y0, y1, f) <= Blend(y0, y1, g)
  {
    assert (y1 - y0) * (g - f) >= 0;
    assert y0 * (0xF_FFFF - g) + y1 * g == y0 * (0xF_FFFF - f) + y1 * f + (y1 - y0) * (g - f);
  }

  /** The value at a table point, reached from either side. */
  function AtPoint(y: int): int { y * 0xF_FFFF / 0x10_0000 }

  lemma SegmentBounds(table: seq<int>, n: nat, x: int)
    requires 1 <= n <= |table| && Nondecreasing(table, n)
    requires 0 <= x / 0x10_0000 < n - 1
    ensures var i := x / 0x10_0000;
      AtPoint(table[i]) <= Curve(table, n, x) <= AtPoint(table[i + 1])
  {
    var i := x / 0x10_0000;
    BlendMonotone(table[i], table[i + 1], 0, x % 0x10_0000);
    BlendMonotone(table[i], table[i + 1], x % 0x10_0000, 0xF_FFFF);
  }

  lemma AtPointOrder(y: int, z: int)
    requires -0x8000 <= y <= z < 0x8000
    ensures AtPoint(y) <= AtPoint(z) <= z
    ensures AtPoint(y) == if y <= 0 then y else y - 1
  {
  }

  /** Within a segment, across segments and into the clamped tail. */
  lemma CurveMonotone(table: seq<int>, n: nat, x: int, z: int)
    requires 1 <= n <= |table| && Nondecreasing(table, n)
    requires forall i :: 0 <= i < n ==> -0x8000 <= table[i] < 0x8000
    requires 0 <= x <= z
    ensures Curve(table, n, x) <= Curve(table, n, z)
  {
    var i, j := x / 0x10_0000, z / 0x10_0000;
    assert 0 <= i <= j;
    if j < n - 1 {
      if i == j {
        BlendMonotone(table[i], table[i + 1], x % 0x10_0000, z % 0x10_0000);
      } else {
        SegmentBounds(table, n, x);
        SegmentBounds(table, n, z);
        AtPointOrder(table[i + 1], table[j]);
      }
    } else if i < n - 1 {
      SegmentBounds(table, n, x);
      AtPointOrder(table[i + 1], table[n - 1]);
    }
  }

  lemma CurveMonotoneExactlyWhen(table: seq<int>, n: nat)
    requires 1 <= n <= |table| && Nondecreasing(table, n)
    requires forall i :: 0 <= i < n ==> -0x8000 <= table[i] < 0x8000
    ensures (forall x: Q31, z: Q31 :: x <= z ==> Curve(table, n, x) <= Curve(table, n, z))
      <==> (n == 1 || table[0] <= 0)
    ensures forall x: Q31, z: Q31 :: 0 <= x <= z ==> Curve(table, n, x) <= Curve(table, n, z)
  {
    forall x: Q31, z: Q31 | 0 <= x <= z
      ensures Curve(table, n, x) <= Curve(table, n, z)
    {
      CurveMonotone(table, n, x, z);
    }
    assert Curve(table, n, -1) == table[0];
    if n > 1 {
      CurveAtPoint(table, n, 0);
    }
    if n == 1 || table[0] <= 0 {
      forall x: Q31, z: Q31 | x < 0 && x <= z
        ensures Curve(table, n, x) <= Curve(table, n, z)
      {
        if z >= 0 {
          CurveMonotone(table, n, 0, z);
        }
      }
    }
  }

  /**
   A nondecreasing table gives a nondecreasing result on the whole input range exactly when it has
   one entry or starts at or below zero: left of the table the first entry is returned as it is,
   but on its first point a positive entry already comes out one smaller. From x = 0 on, the result
   is always nondecreasing.
   */
  lemma LinearQ15MonotoneExactlyWhen(table: seq<Q15>, nValues: uint32)
    requires 1 <= nValues <= |table| && nValues <= 0x8000_0000
    requires Nondecreasing(table, nValues)
    ensures (forall x: Q31, z: Q31 :: x <= z ==> LinearQ15(table, x, nValues) <= LinearQ15(table, z, nValues))
      <==> (nValues == 1 || table[0] <= 0)
    ensures forall x: Q31, z: Q31 :: 0 <= x <= z ==> LinearQ15(table, x, nValues) <= LinearQ15(table, z, nValues)
  {
    hide LinearQ15, Curve;
    forall x: Q31 {
      LinearQ15IsCurve(table, x, nValues);
    }
    CurveMonotoneExactlyWhen(table, nValues);
  }

  lemma LinearQ7MonotoneExactlyWhen(table: seq<Q7>, nValues: uint32)
    requires 1 <= nValues <= |table|
    requires Nondecreasing(table, nValues)
    ensures (forall x: Q31, z: Q31 :: x <= z ==> LinearQ7(table, x, nValues) <= LinearQ7(table, z, nValues))
      <==> (nValues == 1 || table[0] <= 0)
    ensures forall x: Q31, z: Q31 :: 0 <= x <= z ==> LinearQ7(table, x, nValues) <= LinearQ7(table, z, nValues)
  {
    hide LinearQ7, Curve;
    forall x: Q31 {
      LinearQ7IsCurve(table, x, nValues);
    }
    CurveMonotoneExactlyWhen(table, nValues);
  }

  // ----- Q31

  lemma Halved(a: int, w: int)
    requires 0 <= w < 0x8000_0000
    requires -0x8000_0000 * w <= a <= 0x7FFF_FFFF * w
    ensures HighWord(a) == a / 0x1_0000_0000
    ensures -w - 1 <= 2 * (a / 0x1_0000_0000) <= w
    ensures w % 2 == 0 ==> -w <= 2 * (a / 0x1_0000_0000)
  {
    assert ToInt64(a) == a;
  }

  /**
   The two halves never overflow, added or doubled, and the result is in (exact - 5, exact + 1].
   */
  lemma BlendQ31Accurate(y0: Q31, y1: Q31, f20: int)
    requires 0 <= f20 <= 0xF_FFFF
    ensures ToInt32(f20 * 0x800) == f20 * 0x800
    ensures var f := f20 * 0x800;
      BlendQ31(y0, y1, f) == 2 * (y0 * (0x7FFF_FFFF - f) / 0x1_0000_0000 + y1 * f / 0x1_0000_0000)
    ensures var error := 0x10_0000 * BlendQ31(y0, y1, f20 * 0x800) - ScaledLine(y0, y1, f20);
      -5 * 0x10_0000 < error <= 0x10_0000
  {
    FractionFits(f20);
    hide BlendQ31, HighWord, ToInt32, ScaledLine;
    var f := f20 * 0x800;
    BlendOfHalves(y0, y1, f);
    LineIn31Bits(y0, y1, f20);
    TwoTruncations(y0 * (0x7FFF_FFFF - f), y1 * f, y0, ScaledLine(y0, y1, f20));
  }

  lemma FractionFits(f20: int)
    requires 0 <= f20 <= 0xF_FFFF
    ensures ToInt32(f20 * 0x800) == f20 * 0x800
  {
  }

  lemma LineIn31Bits(y0: int, y1: int, f20: int)
    ensures 0x800 * ScaledLine(y0, y1, f20) == y0 * (0x7FFF_FFFF - f20 * 0x800) + y1 * (f20 * 0x800) + y0
  {
    assert 0x800 * (y0 * (0x10_0000 - f20)) == y0 * (0x8000_0000 - f20 * 0x800);
    assert 0x800 * (y1 * f20) == y1 * (f20 * 0x800);
  }

  lemma TwoTruncations(a: int, b: int, y0: Q31, line: int)
    requires 0x800 * line == a + b + y0
    ensures -5 * 0x10_0000 < 0x10_0000 * (2 * (a / 0x1_0000_0000 + b / 0x1_0000_0000)) - line <= 0x10_0000
  {
    var p, q := a / 0x1_0000_0000, b / 0x1_0000_0000;
    assert a + b - 0x2_0000_0000 < 0x1_0000_0000 * (p + q) <= a + b;
  }

  lemma BlendOfHalves(y0: Q31, y1: Q31, f: Q31)
    requires 0 <= f && f % 2 == 0
    ensures BlendQ31(y0, y1, f) == 2 * (y0 * (0x7FFF_FFFF - f) / 0x1_0000_0000 + y1 * f / 0x1_0000_0000)
  {
    var a, b := y0 * (0x7FFF_FFFF - f), y1 * f;
    ProductBound(0x7FFF_FFFF - f, 0x7FFF_FFFF, y0);
    ProductBound(f, 0x7FFF_FFFF, y1);
    Halved(a, 0x7FFF_FFFF - f);
    Halved(b, f);
    hide HighWord;
    DoubledSum(a / 0x1_0000_0000, b / 0x1_0000_0000);
    hide ToInt32;
  }

  lemma DoubledSum(p: int, q: int)
    requires -0x4000_0000 <= p + q < 0x4000_0000
    ensures ToInt32(ToInt32(p + q) * 2) == 2 * (p + q)
  {
  }

  lemma LinearQ31Accurate(table: seq<Q31>, x: Q31, nValues: uint32)
    requires 1 <= nValues <= |table| && nValues <= 0x8000_0000
    requires 0 <= x / 0x10_0000 < nValues - 1
    ensures var line := ScaledLine(table[x / 0x10_0000], table[x / 0x10_0000 + 1], x % 0x10_0000);
      var error := 0x10_0000 * LinearQ31(table, x, nValues) - line;
      -5 * 0x10_0000 < error <= 0x10_0000
  {
    Position(x);
    hide Index, Fraction, BlendQ31, ScaledLine;
    BlendQ31Accurate(table[x / 0x10_0000], table[x / 0x10_0000 + 1], x % 0x10_0000);
  }

  // ----- Monotonicity of the Q31 form

  /** The weighted sum of two entries, in 2^-32. */
  function Weighted31(y0: int, y1: int, f20: int): int
  {
    y0 * (0x7FFF_FFFF - f20 * 0x800) + y1 * (f20 * 0x800)
  }

  /** The two halves of the result, each truncated on its own. */
  function Halves31(y0: int, y1: int, f20: int): int
  {
    y0 * (0x7FFF_FFFF - f20 * 0x800) / 0x1_0000_0000 + y1 * (f20 * 0x800) / 0x1_0000_0000
  }

  function Curve31(table: seq<int>, n: nat, x: int): int
    requires 1 <= n <= |table|
  {
    if x / 0x10_0000 >= n - 1 then table[n - 1]
    else if x < 0 then table[0]
    else 2 * Halves31(table[x / 0x10_0000], table[x / 0x10_0000 + 1], x % 0x10_0000)
  }

  /** Nothing overflows in the Q31 form either, so it follows a curve of its own. */
  lemma LinearQ31IsCurve(table: seq<Q31>, x: Q31, nValues: uint32)
    requires 1 <= nValues <= |table| && nValues <= 0x8000_0000
    ensures LinearQ31(table, x, nValues) == Curve31(table, nValues, x)
  {
    Position(x);
    LastIndex(nValues);
    hide Index, Fraction, BlendQ31, ToInt32, Halves31;
    if 0 <= x / 0x10_0000 < nValues - 1 {
      BlendIsHalves(table[x / 0x10_0000], table[x / 0x10_0000 + 1], x % 0x10_0000);
    }
  }

  lemma BlendIsHalves(y0: Q31, y1: Q31, f20: int)
    requires 0 <= f20 <= 0xF_FFFF
    ensures BlendQ31(y0, y1, ToInt32(f20 * 0x800)) == 2 * Halves31(y0, y1, f20)
  {
    hide BlendQ31, ToInt32, ScaledLine;
    BlendQ31Accurate(y0, y1, f20);
  }

  /** Truncating separately loses at most one more than truncating the sum, and nothing on a table point. */
  lemma SeparateTruncations(a: int, b: int)
    ensures var g := 0x1_0000_0000;
      && (a + b) / g - 1 <= a / g + b / g <= (a + b) / g
      && (a / g + b / g == (a + b) / g <==> b % g <= (a + b) % g)
  {
  }

  /** The weighted sum truncated once: what Halves31 would be without the second truncation. */
  function Level(table: seq<int>, n: nat, x: int): int
    requires 0 <= x / 0x10_0000 < n - 1 && n <= |table|
  {
    Weighted31(table[x / 0x10_0000], table[x / 0x10_0000 + 1], x % 0x10_0000) / 0x1_0000_0000
  }

  lemma CurveAgainstLevel(table: seq<int>, n: nat, x: int)
    requires 0 <= x / 0x10_0000 < n - 1 && n <= |table|
    ensures 2 * Level(table, n, x) - 2 <= Curve31(table, n, x) <= 2 * Level(table, n, x)
    ensures x % 0x10_0000 == 0 ==> Curve31(table, n, x) == 2 * Level(table, n, x)
  {
    var i, f := x / 0x10_0000, x % 0x10_0000 * 0x800;
    SeparateTruncations(table[i] * (0x7FFF_FFFF - f), table[i + 1] * f);
    if f == 0 {
      assert table[i + 1] * f == 0;
    }
  }

  /** The weighted sum lies between its ends and grows with the fraction, in proportion to the rise. */
  lemma WeightedRises(y0: int, y1: int, f: int, g: int, rise: int)
    requires 0 <= f <= g <= 0xF_FFFF && 0 <= rise && y0 + rise <= y1
    ensures Weighted31(y0, y1, f) + rise * ((g - f) * 0x800) <= Weighted31(y0, y1, g)
    ensures y0 * 0x7FFF_FFFF <= Weighted31(y0, y1, f) <= y1 * 0x7FFF_FFFF
  {
    AsRise(y0, y1, f);
    AsRise(y0, y1, g);
    RiseTimes(y1 - y0, rise, (g - f) * 0x800);
    RiseTimes(y1 - y0, 0, f * 0x800);
    RiseTimes(y1 - y0, 0, 0x7FFF_FFFF - f * 0x800);
    assert (y1 - y0) * (g * 0x800) - (y1 - y0) * (f * 0x800) == (y1 - y0) * ((g - f) * 0x800);
    hide Weighted31;
  }

  lemma AsRise(y0: int, y1: int, f: int)
    ensures Weighted31(y0, y1, f) == y0 * 0x7FFF_FFFF + (y1 - y0) * (f * 0x800)
    ensures Weighted31(y0, y1, f) == y1 * 0x7FFF_FFFF - (y1 - y0) * (0x7FFF_FFFF - f * 0x800)
  {
    var w := f * 0x800;
    assert y0 * (0x7FFF_FFFF - w) == y0 * 0x7FFF_FFFF - y0 * w;
    assert (y1 - y0) * w == y1 * w - y0 * w;
    assert (y1 - y0) * (0x7FFF_FFFF - w) == (y1 - y0) * 0x7FFF_FFFF - (y1 - y0) * w;
  }

  lemma RiseTimes(a: int, b: int, w: int)
    requires a >= b && w >= 0
    ensures a * w >= b * w
  {
  }

  lemma LevelMonotone(table: seq<int>, n: nat, x: int, z: int)
    requires n <= |table| && Nondecreasing(table, n)
    requires 0 <= x <= z && z / 0x10_0000 < n - 1
    ensures Level(table, n, x) <= Level(table, n, z)
  {
    var i, j := x / 0x10_0000, z / 0x10_0000;
    var f, g := x % 0x10_0000, z % 0x10_0000;
    hide Weighted31;
    if i == j {
      WeightedRises(table[i], table[i + 1], f, g, 0);
    } else {
      WeightedRises(table[i], table[i + 1], f, f, 0);
      WeightedRises(table[j], table[j + 1], g, g, 0);
      assert table[i + 1] <= table[j];
    }
  }

  /** A segment stays below the entry at its end. */
  lemma LevelBelowEnd(table: seq<int>, n: nat, x: int)
    requires 2 <= n <= |table| && Nondecreasing(table, n)
    requires 0 <= x / 0x10_0000 < n - 1
    requires -0x8000_0000 <= table[n - 1] < 0x8000_0000
    ensures 2 * Level(table, n, x) <= table[n - 1]
  {
    var i, f := x / 0x10_0000, x % 0x10_0000;
    WeightedRises(table[i], table[i + 1], f, f, 0);
    assert table[i + 1] <= table[n - 1];
    hide Weighted31;
    TablePoint(table[n - 1]);
  }

  /** Truncated once, an entry of the table loses at most 2, and nothing if it is even and not positive. */
  lemma TablePoint(y: int)
    requires -0x8000_0000 <= y < 0x8000_0000
    ensures var v := 2 * (y * 0x7FFF_FFFF / 0x1_0000_0000);
      y - 2 <= v <= y && (v == y <==> y <= 0 && y % 2 == 0)
  {
  }

  /**
   On a nondecreasing table the Q31 form falls back by at most 2, and by at most 4 from the left of
   the table, where the first entry is returned as it is.
   */
  lemma LinearQ31AlmostMonotone(table: seq<Q31>, nValues: uint32, x: Q31, z: Q31)
    requires 1 <= nValues <= |table| && nValues <= 0x8000_0000
    requires Nondecreasing(table, nValues) && x <= z
    ensures LinearQ31(table, x, nValues) <= LinearQ31(table, z, nValues) + 4
    ensures 0 <= x ==> LinearQ31(table, x, nValues) <= LinearQ31(table, z, nValues) + 2
  {
    LinearQ31IsCurve(table, x, nValues);
    LinearQ31IsCurve(table, z, nValues);
    hide LinearQ31;
    var n, i, j := nValues, x / 0x10_0000, z / 0x10_0000;
    if 0 <= j < n - 1 {
      CurveAgainstLevel(table, n, z);
      LevelMonotone(table, n, if x < 0 then 0 else x, z);
      FirstLevel(table, n);
    }
    if 0 <= i < n - 1 {
      CurveAgainstLevel(table, n, x);
      LevelBelowEnd(table, n, x);
    }
    hide Level, Halves31;
  }

  lemma FirstLevel(table: seq<Q31>, n: nat)
    requires 2 <= n <= |table|
    ensures table[0] - 2 <= 2 * Level(table, n, 0) <= table[0]
    ensures 2 * Level(table, n, 0) == table[0] <==> table[0] <= 0 && table[0] % 2 == 0
  {
    TablePoint(table[0]);
  }

  /** Any two entries, so also any two neighbouring ones, are at least 2^21 apart. */
  ghost predicate Steep(table: seq<int>, n: nat)
    requires n <= |table|
  {
    forall i, j :: 0 <= i < j < n ==> table[i] + 0x20_0000 <= table[j]
  }

  /** On a steep table the Q31 form is nondecreasing from x = 0 on. */
  lemma SteepCurveMonotone(table: seq<int>, n: nat, x: int, z: int)
    requires 1 <= n <= |table| && Steep(table, n)
    requires -0x8000_0000 <= table[n - 1] < 0x8000_0000
    requires 0 <= x <= z
    ensures Curve31(table, n, x) <= Curve31(table, n, z)
  {
    var i, j := x / 0x10_0000, z / 0x10_0000;
    assert Nondecreasing(table, n);
    if i < n - 1 {
      CurveAgainstLevel(table, n, x);
      if j >= n - 1 {
        LevelBelowEnd(table, n, x);
      } else if x < z {
        CurveAgainstLevel(table, n, z);
        if i == j {
          SteepLevel(table, n, x, z);
        } else {
          var point := j * 0x10_0000;
          LevelMonotone(table, n, x, point);
          CurveAgainstLevel(table, n, point);
          if point < z {
            SteepLevel(table, n, point, z);
          }
        }
      }
    }
    hide Level, Halves31;
  }

  /** Within a segment each step of x then adds at least one to the level, as much as the truncations take away. */
  lemma SteepLevel(table: seq<int>, n: nat, x: int, z: int)
    requires n <= |table| && Steep(table, n)
    requires 0 <= x < z && z / 0x10_0000 < n - 1 && x / 0x10_0000 == z / 0x10_0000
    ensures Level(table, n, x) + 1 <= Level(table, n, z)
  {
    var i, f, g := x / 0x10_0000, x % 0x10_0000, z % 0x10_0000;
    assert f < g;
    WeightedRises(table[i], table[i + 1], f, g, 0x20_0000);
    hide Weighted31;
  }

  /**
   A table whose neighbouring entries rise by at least 2^21 gives a nondecreasing result from x = 0
   on, and on the whole input range exactly when it has one entry or starts with an even one that
   is not positive.
   */
  lemma SteepLinearQ31MonotoneExactlyWhen(table: seq<Q31>, nValues: uint32)
    requires 1 <= nValues <= |table| && nValues <= 0x8000_0000
    requires Steep(table, nValues)
    ensures forall x: Q31, z: Q31 :: 0 <= x <= z ==> LinearQ31(table, x, nValues) <= LinearQ31(table, z, nValues)
    ensures (forall x: Q31, z: Q31 :: x <= z ==> LinearQ31(table, x, nValues) <= LinearQ31(table, z, nValues))
      <==> (nValues == 1 || (table[0] <= 0 && table[0] % 2 == 0))
  {
    hide LinearQ31, Halves31, Level;
    forall x: Q31 {
      LinearQ31IsCurve(table, x, nValues);
    }
    forall x: Q31, z: Q31 | 0 <= x <= z
      ensures Curve31(table, nValues, x) <= Curve31(table, nValues, z)
    {
      SteepCurveMonotone(table, nValues, x, z);
    }
    if nValues > 1 {
      CurveAgainstLevel(table, nValues, 0);
      FirstLevel(table, nValues);
      assert LinearQ31(table, -1, nValues) == table[0];
      assert LinearQ31(table, 0, nValues) == 2 * Level(table, nValues, 0);
    }
  }

  // Constant tables. The second truncation costs one exactly at the fractions where the right half
  // has the larger remainder.

  /** j is the inverse of c modulo 2^21; every odd c has one. */
  predicate IsInverse(c: int, j: int) { 0 < j < 0x20_0000 && c * j % 0x20_0000 == 1 }

  /** For an odd c: how many of the 2^21 remainders, from the highest down, lose. */
  function LosingRemainders(c: int): int { 0x1F_FFFF - (0x8000_0000 - c) / 0x800 }

  /**
   No fraction loses a unit, as a test on the entry: for an even c on its largest power of two, for
   an odd one on its inverse j modulo 2^21.
   */
  predicate Steady(c: int, j: int)
  {
    if c % 2 == 1 then LosingRemainders(c) * j <= 0x10_0000
    else if c > 0 then c <= 0x800 * Gcd(0x20_0000, c)
    else c % 0x20_0000 == 0
  }

  predicate LosesAt(c: int, f20: int)
  {
    c * 0x7FFF_FFFF % 0x1_0000_0000 < 0x800 * (c * f20 % 0x20_0000)
  }

  lemma ConstantHalves(c: int, f20: int)
    ensures Halves31(c, c, f20) == c * 0x7FFF_FFFF / 0x1_0000_0000 - if LosesAt(c, f20) then 1 else 0
  {
    var f := f20 * 0x800;
    SeparateTruncations(c * (0x7FFF_FFFF - f), c * f);
    assert c * (0x7FFF_FFFF - f) + c * f == c * 0x7FFF_FFFF;
    assert c * f == 0x800 * (c * f20);
    ScaledRemainder(c * f20);
  }

  lemma ScaledRemainder(a: int)
    ensures 0x800 * a % 0x1_0000_0000 == 0x800 * (a % 0x20_0000)
  {
    DivModUnique(0x800 * a, 0x1_0000_0000, a / 0x20_0000, 0x800 * (a % 0x20_0000));
  }

  /** The remainder of the whole. */
  lemma WholeRemainder(c: int)
    requires -0x8000_0000 <= c < 0x8000_0000
    ensures var r := c * 0x7FFF_FFFF % 0x1_0000_0000;
      r == if c % 2 == 1 then 0x8000_0000 - c else if c > 0 then 0x1_0000_0000 - c else 0 - c
  {
    var k := c / 2;
    if c % 2 == 1 {
      DivModUnique(c * 0x7FFF_FFFF, 0x1_0000_0000, k, 0x8000_0000 - c);
    } else if c > 0 {
      DivModUnique(c * 0x7FFF_FFFF, 0x1_0000_0000, k - 1, 0x1_0000_0000 - c);
    } else {
      DivModUnique(c * 0x7FFF_FFFF, 0x1_0000_0000, k, 0 - c);
    }
  }

  /** Even entries: the largest remainder of a right half is 2^21 - gcd(2^21, c), in units of 2^11. */
  lemma EvenLosesExactlyWhen(c: int, j: int)
    requires -0x8000_0000 <= c < 0x8000_0000 && c % 2 == 0
    ensures (forall f20: nat :: f20 < 0x10_0000 ==> !LosesAt(c, f20)) <==> Steady(c, j)
  {
    WholeRemainder(c);
    var n: nat := 0x20_0000;
    var f := HighestMultiple(n, c);
    forall f20: nat
      ensures c * f20 % n <= n - Gcd(n, Magnitude(c))
    {
      MultiplesEndBelow(n, c, f20);
    }
    var s, t, p, q := SignedBezout(n, c);
    var g := Gcd(n, Magnitude(c));
    hide Gcd;
    assert LosesAt(c, f) <==> c * 0x7FFF_FFFF % 0x1_0000_0000 < 0x800 * (n - g);
    if c <= 0 {
      NonPositiveGcd(c, n, g, s, t, p, q);
    }
  }

  lemma NonPositiveGcd(c: int, n: int, g: int, s: int, t: int, p: int, q: int)
    requires n == 0x20_0000 && -0x8000_0000 <= c <= 0
    requires g > 0 && p > 0 && n == g * p && c == g * q && s * n + t * c == g
    ensures 0 - c < 0x800 * (n - g) <==> c % n != 0
  {
    if c % n == 0 {
      var m := c / n;
      assert g == n * (s + t * m) by {
        assert c == n * m;
        assert t * (n * m) == n * (t * m);
      }
      if s + t * m <= 0 {
        assert false;
      }
    } else {
      MultipleHasNoRemainder(n, q);
      assert p != 1;
      RiseTimes(p, 2, g);
    }
  }

  lemma MultipleHasNoRemainder(n: int, q: int)
    requires n > 0
    ensures n * q % n == 0
  {
    DivModUnique(n * q, n, q, 0);
  }

  // Odd entries. A remainder of the right half is 2^21 - w for a fraction of -w * j modulo 2^21, and
  // w = 1, 2, ... up to some bound lose. The fraction is in range once w * j exceeds 2^20.

  lemma InverseExists(c: int) returns (j: int)
    requires c % 2 == 1
    ensures IsInverse(c, j)
  {
    var n := 0x20_0000;
    var s, t, p, q := SignedBezout(n, c);
    assert n == Pow2(21) by {
      UnfoldPow2(21);
      Pow2Values();
    }
    hide Gcd, Magnitude, Pow2;
    OddDivisor(n, 21, Gcd(n, Magnitude(c)), p, q);
    InverseFromBezout(c, s, t, n);
    j := t % n;
  }

  lemma InverseFromBezout(c: int, s: int, t: int, n: int)
    requires n > 1 && s * n + t * c == 1
    ensures 0 < t % n < n && c * (t % n) % n == 1
  {
    var j, k := t % n, t / n;
    assert c * j == (0 - s - c * k) * n + 1 by {
      assert t == n * k + j;
      assert c * (n * k + j) == n * (c * k) + c * j;
      assert (0 - s - c * k) * n == 0 - s * n - n * (c * k);
    }
    DivModUnique(c * j, n, 0 - s - c * k, 1);
    MultipleHasNoRemainder(n, 0);
  }

  /** The only odd divisor of a power of two is 1. */
  lemma {:induction false} OddDivisor(n: int, k: nat, g: int, p: int, q: int)
    requires n == g * p && g > 0 && p > 0 && (g * q) % 2 == 1
    requires n == Pow2(k)
    ensures g == 1
    decreases k
  {
    hide Pow2;
    OddProduct(g, q);
    if k == 0 {
      assert n == 1 by { UnfoldPow2(k); }
      FactorsOfOne(g, p);
    } else {
      assert n == 2 * Pow2(k - 1) by { UnfoldPow2(k); }
      EvenCofactor(g, p, Pow2(k - 1));
      OddDivisor(Pow2(k - 1), k - 1, g, p / 2, q);
    }
  }

  lemma UnfoldPow2(k: nat)
    ensures Pow2(k) == if k == 0 then 1 else 2 * Pow2(k - 1)
  {
  }

  /** A product is odd exactly when both factors are. */
  lemma OddProduct(g: int, q: int)
    ensures g * q % 2 == 1 <==> g % 2 == 1 && q % 2 == 1
  {
    DoubleTimes(g / 2, g % 2, q);
    ParityOf(g / 2 * q, q, g * q, g % 2);
  }

  lemma DoubleTimes(a: int, r: int, q: int)
    ensures (2 * a + r) * q == 2 * (a * q) + r * q
  {
  }

  lemma ParityOf(x: int, q: int, product: int, r: int)
    requires (r == 0 && product == 2 * x) || (r == 1 && product == 2 * x + q)
    ensures product % 2 == 1 <==> r == 1 && q % 2 == 1
  {
  }

  lemma FactorsOfOne(g: int, p: int)
    requires g > 0 && p > 0 && g * p == 1
    ensures g == 1
  {
    RiseTimes(p, 1, g);
  }

  lemma TwiceIsEven(x: int)
    ensures 2 * x % 2 == 0
  {
  }

  lemma EvenCofactor(g: int, p: int, half: int)
    requires g % 2 == 1 && g > 0 && p > 0 && g * p == 2 * half
    ensures p % 2 == 0 && p / 2 > 0 && g * (p / 2) == half
  {
    OddProduct(g, p);
    TwiceIsEven(half);
    DoubleTimes(p / 2, 0, g);
  }

  lemma LosesAtRemainder(c: int, f20: int)
    requires -0x8000_0000 <= c < 0x8000_0000 && c % 2 == 1
    ensures LosesAt(c, f20) <==> 0x20_0000 - c * f20 % 0x20_0000 <= LosingRemainders(c)
    ensures 0 <= LosingRemainders(c)
  {
    WholeRemainder(c);
    var v := c * f20 % 0x20_0000;
    assert 0x8000_0000 - c < 0x800 * v <==> (0x8000_0000 - c) / 0x800 < v;
  }

  lemma OddLosesExactlyWhen(c: int, j: int)
    requires -0x8000_0000 <= c < 0x8000_0000 && c % 2 == 1 && IsInverse(c, j)
    ensures (forall f20: nat :: f20 < 0x10_0000 ==> !LosesAt(c, f20)) <==> Steady(c, j)
  {
    var n, most := 0x20_0000, LosingRemainders(c);
    hide LosesAt;
    if most * j <= 0x10_0000 {
      forall f20: nat | f20 < 0x10_0000
        ensures !LosesAt(c, f20)
      {
        LosesAtRemainder(c, f20);
        FractionOfRemainder(c, j, f20, most);
      }
    } else {
      LosesAtRemainder(c, 0);
      var w, f20 := LosingFraction(c, j, most);
      LosesAtRemainder(c, f20);
    }
    hide IsInverse;
  }

  /** Remainders 2^21 - w with w * j at most 2^20 belong to fractions beyond the range. */
  lemma FractionOfRemainder(c: int, j: int, f20: nat, most: int)
    requires IsInverse(c, j) && most * j <= 0x10_0000 && f20 < 0x10_0000
    ensures 0x20_0000 - c * f20 % 0x20_0000 > most
  {
    var n := 0x20_0000;
    var w := n - c * f20 % n;
    var m, a := c * f20 / n, c * j / n;
    assert c * f20 == n * m + n - w && c * j == n * a + 1;
    assert f20 + j * w == n * (j * (m + 1) - a * f20) by {
      assert j * (c * f20) == f20 * (c * j);
      assert j * (n * m + n - w) == n * (j * (m + 1)) - j * w;
      assert f20 * (n * a + 1) == n * (a * f20) + f20;
    }
    PositiveMultiple(n, j * (m + 1) - a * f20, f20 + j * w);
    if w <= most {
      RiseTimes(most, w, j);
    }
  }

  lemma PositiveMultiple(n: int, k: int, v: int)
    requires n > 0 && v == n * k
    ensures v > 0 ==> v >= n
  {
    if k >= 1 {
      RiseTimes(k, 1, n);
    } else {
      RiseTimes(0, k, n);
    }
  }

  lemma LosingFraction(c: int, j: int, most: int) returns (w: int, f20: nat)
    requires IsInverse(c, j) && 0 <= most && most * j > 0x10_0000 && c % 2 == 1
    ensures f20 < 0x10_0000 && 0 < w <= most
    ensures 0x20_0000 - c * f20 % 0x20_0000 <= most
  {
    var n := 0x20_0000;
    w := 0x10_0000 / j + 1;
    OddInverse(c, j);
    FirstAbove(j, w, most);
    f20 := n - w * j;
    var a := c * j / n;
    assert c * j == n * a + 1;
    assert c * f20 == (c - w * a - 1) * n + (n - w) by {
      assert c * (w * j) == w * (n * a + 1);
      assert w * (n * a + 1) == n * (w * a) + w;
    }
    SmallFactor(w, j);
    DivModUnique(c * f20, n, c - w * a - 1, n - w);
  }

  lemma OddRemainder(v: int)
    requires v % 0x20_0000 == 1
    ensures v % 2 == 1
  {
    DivModUnique(v, 2, v / 0x20_0000 * 0x10_0000, 1);
  }

  lemma OddInverse(c: int, j: int)
    requires IsInverse(c, j)
    ensures j % 2 == 1
  {
    OddRemainder(c * j);
    OddProduct(c, j);
  }

  lemma FirstAbove(j: int, w: int, most: int)
    requires 0 < j < 0x20_0000 && j % 2 == 1
    requires w == 0x10_0000 / j + 1 && most * j > 0x10_0000
    ensures 0 < w <= most && 0x10_0000 < w * j < 0x20_0000
  {
    var k := 0x10_0000 / j;
    assert 0x10_0000 == j * k + 0x10_0000 % j;
    assert w * j == j * k + j;
    if most <= k {
      RiseTimes(k, most, j);
    }
  }

  lemma SmallFactor(w: int, j: int)
    requires w > 0 && j > 0
    ensures w <= w * j
  {
    RiseTimes(j, 1, w);
  }

  lemma LosesExactlyWhen(c: Q31, j: int)
    requires c % 2 == 1 ==> IsInverse(c, j)
    ensures (forall f20: nat :: f20 < 0x10_0000 ==> !LosesAt(c, f20)) <==> Steady(c, j)
  {
    if c % 2 == 1 {
      OddLosesExactlyWhen(c, j);
    } else {
      EvenLosesExactlyWhen(c, j);
    }
  }

  /**
   A constant table gives a nondecreasing result from x = 0 on exactly when its entry is steady: not
   when it is 3, for which the result is 2, then 0, then 2 again, but when it is 0, 1, 2, 4 or 6.
   */
  lemma ConstantLinearQ31MonotoneExactlyWhen(table: seq<Q31>, nValues: uint32, c: Q31, j: int)
    requires 2 <= nValues <= |table| && nValues <= 0x8000_0000
    requires forall i :: 0 <= i < nValues ==> table[i] == c
    requires c % 2 == 1 ==> IsInverse(c, j)
    ensures (forall x: Q31, z: Q31 :: 0 <= x <= z ==> LinearQ31(table, x, nValues) <= LinearQ31(table, z, nValues))
      <==> Steady(c, j)
  {
    hide LinearQ31, Halves31, LosesAt, Steady;
    var whole := c * 0x7FFF_FFFF / 0x1_0000_0000;
    TablePoint(c);
    forall x: Q31 | 0 <= x
      ensures LinearQ31(table, x, nValues)
           == if x / 0x10_0000 >= nValues - 1 then c else 2 * (whole - if LosesAt(c, x % 0x10_0000) then 1 else 0)
    {
      LinearQ31IsCurve(table, x, nValues);
      ConstantHalves(c, x % 0x10_0000);
    }
    ConstantAtZero(c);
    LosesExactlyWhen(c, j);
    if !Steady(c, j) {
      var f20: nat :| f20 < 0x10_0000 && LosesAt(c, f20);
      assert LinearQ31(table, 0, nValues) == 2 * whole;
      assert LinearQ31(table, f20, nValues) == 2 * whole - 2;
    }
  }

  lemma ConstantAtZero(c: int)
    ensures !LosesAt(c, 0)
  {
  }

  lemma SteadyValues(j: int)
    ensures Steady(0, j) && Steady(2, j) && Steady(4, j) && Steady(6, j) && !Steady(4098, j)
    ensures IsInverse(1, 1) && Steady(1, 1)
    ensures IsInverse(3, 0xA_AAAB) && !Steady(3, 0xA_AAAB)
    ensures Steady(-0x7FFF_FFFF, j)
  {
  }

  /** The bound 2 is reached, on a table of threes. */
  lemma LinearQ31IsNotMonotone()
    ensures LinearQ31([3, 3], 0, 2) == 2
    ensures LinearQ31([3, 3], 0x8_0000, 2) == 0
    ensures LinearQ31([3, 3], 0xF_FFFF, 2) == 2
  {
    hide Index, Fraction, BlendQ31;
    Position(0);
    Position(0x8_0000);
    Position(0xF_FFFF);
    BlendQ31Accurate(3, 3, 0);
    BlendQ31Accurate(3, 3, 0x8_0000);
    BlendQ31Accurate(3, 3, 0xF_FFFF);
  }

  // ----- Outside the table: the first and the last entry, whatever the table holds

  lemma BeyondLast(x: int, n: nat)
    ensures x >= (n - 1) * 0x10_0000 <==> x / 0x10_0000 >= n - 1
  {
  }

  lemma LinearQ15OutsideTable(table: seq<Q15>, x: Q31, nValues: uint32)
    requires 1 <= nValues <= |table| && nValues <= 0x8000_0000
    ensures x < 0 ==> LinearQ15(table, x, nValues) == table[0]
    ensures x >= (nValues - 1) * 0x10_0000 ==> LinearQ15(table, x, nValues) == table[nValues - 1]
  {
    LinearQ15IsCurve(table, x, nValues);
    hide LinearQ15;
    BeyondLast(x, nValues);
  }

  lemma LinearQ7OutsideTable(table: seq<Q7>, x: Q31, nValues: uint32)
    requires 1 <= nValues <= |table|
    ensures x < 0 ==> LinearQ7(table, x, nValues) == table[0]
    ensures x >= (nValues - 1) * 0x10_0000 ==> LinearQ7(table, x, nValues) == table[nValues - 1]
  {
    LinearQ7IsCurve(table, x, nValues);
    hide LinearQ7;
    BeyondLast(x, nValues);
  }

  lemma LinearQ31OutsideTable(table: seq<Q31>, x: Q31, nValues: uint32)
    requires 1 <= nValues <= |table| && nValues <= 0x8000_0000
    ensures x < 0 ==> LinearQ31(table, x, nValues) == table[0]
    ensures x >= (nValues - 1) * 0x10_0000 ==> LinearQ31(table, x, nValues) == table[nValues - 1]
  {
    LinearQ31IsCurve(table, x, nValues);
    hide LinearQ31;
    BeyondLast(x, nValues);
  }

  // ----- The size of the table

  // The index is at most 2047 and the entry after it is read as well, so entries from 2049 on are
  // never used.

  /** The tables agree on all of the n entries but the last. */
  ghost predicate SameButLast(a: seq<int>, b: seq<int>, n: nat)
  {
    1 <= n <= |a| && n <= |b| && forall i :: 0 <= i < n - 1 ==> a[i] == b[i]
  }

  lemma CurveWithoutLast(a: seq<int>, b: seq<int>, n: nat, x: Q31)
    requires SameButLast(a, b, n) && n > 2049
    ensures Curve(a, n, x) == Curve(b, n, x)
    ensures Curve31(a, n, x) == Curve31(b, n, x)
  {
    hide Blend, Halves31;
  }

  /** The position at which the last entry weighs most. */
  function LastPosition(nValues: uint32): Q31
    requires 1 <= nValues <= 2049
  {
    if nValues <= 2048 then (nValues - 1) * 0x10_0000 else 0x7FFF_FFFF
  }

  lemma CurveAtLast(table: seq<int>, nValues: uint32)
    requires 1 <= nValues <= |table| && nValues <= 2049
    ensures nValues <= 2048 ==> Curve(table, nValues, LastPosition(nValues)) == table[nValues - 1]
    ensures nValues <= 2048 ==> Curve31(table, nValues, LastPosition(nValues)) == table[nValues - 1]
    ensures nValues == 2049 ==> Curve(table, nValues, LastPosition(nValues)) == table[2048] * 0xF_FFFF / 0x10_0000
    ensures nValues == 2049 ==>
      Curve31(table, nValues, LastPosition(nValues))
      == 2 * (table[2047] * 0x7FF / 0x1_0000_0000 + table[2048] * 0x7FFF_F800 / 0x1_0000_0000)
  {
  }

  /** The last entry of a table can change the result for some x exactly when there are at most 2049 entries. */
  lemma LinearQ15LastEntryUsedExactlyWhen(table: seq<Q15>, nValues: uint32)
    requires 1 <= nValues <= |table| && nValues <= 0x8000_0000
    ensures (exists x: Q31, other: seq<Q15> :: SameButLast(table, other, nValues)
              && LinearQ15(other, x, nValues) != LinearQ15(table, x, nValues))
      <==> nValues <= 2049
  {
    hide LinearQ15, Curve;
    if nValues <= 2049 {
      var x, v: Q15 := LastPosition(nValues), if table[nValues - 1] < 0 then 0x7FFF else -0x8000;
      var other: seq<Q15> := table[nValues - 1 := v];
      LinearQ15IsCurve(table, x, nValues);
      LinearQ15IsCurve(other, x, nValues);
      CurveAtLast(table, nValues);
      CurveAtLast(other, nValues);
      assert SameButLast(table, other, nValues);
      assert LinearQ15(other, x, nValues) != LinearQ15(table, x, nValues);
    } else {
      forall x: Q31, other: seq<Q15> | SameButLast(table, other, nValues)
        ensures LinearQ15(other, x, nValues) == LinearQ15(table, x, nValues)
      {
        LinearQ15IsCurve(table, x, nValues);
        LinearQ15IsCurve(other, x, nValues);
        CurveWithoutLast(table, other, nValues, x);
      }
    }
  }

  lemma LinearQ7LastEntryUsedExactlyWhen(table: seq<Q7>, nValues: uint32)
    requires 1 <= nValues <= |table|
    ensures (exists x: Q31, other: seq<Q7> :: SameButLast(table, other, nValues)
              && LinearQ7(other, x, nValues) != LinearQ7(table, x, nValues))
      <==> nValues <= 2049
  {
    hide LinearQ7, Curve;
    if nValues <= 2049 {
      var x, v: Q7 := LastPosition(nValues), if table[nValues - 1] < 0 then 0x7F else -0x80;
      var other: seq<Q7> := table[nValues - 1 := v];
      LinearQ7IsCurve(table, x, nValues);
      LinearQ7IsCurve(other, x, nValues);
      CurveAtLast(table, nValues);
      CurveAtLast(other, nValues);
      assert SameButLast(table, other, nValues);
      assert LinearQ7(other, x, nValues) != LinearQ7(table, x, nValues);
    } else {
      forall x: Q31, other: seq<Q7> | SameButLast(table, other, nValues)
        ensures LinearQ7(other, x, nValues) == LinearQ7(table, x, nValues)
      {
        LinearQ7IsCurve(table, x, nValues);
        LinearQ7IsCurve(other, x, nValues);
        CurveWithoutLast(table, other, nValues, x);
      }
    }
  }

  lemma LinearQ31LastEntryUsedExactlyWhen(table: seq<Q31>, nValues: uint32)
    requires 1 <= nValues <= |table| && nValues <= 0x8000_0000
    ensures (exists x: Q31, other: seq<Q31> :: SameButLast(table, other, nValues)
              && LinearQ31(other, x, nValues) != LinearQ31(table, x, nValues))
      <==> nValues <= 2049
  {
    hide LinearQ31, Curve31;
    if nValues <= 2049 {
      var x, v: Q31 := LastPosition(nValues), if table[nValues - 1] < 0 then 0x7FFF_FFFF else -0x8000_0000;
      var other: seq<Q31> := table[nValues - 1 := v];
      LinearQ31IsCurve(table, x, nValues);
      LinearQ31IsCurve(other, x, nValues);
      CurveAtLast(table, nValues);
      CurveAtLast(other, nValues);
      assert SameButLast(table, other, nValues);
      assert LinearQ31(other, x, nValues) != LinearQ31(table, x, nValues);
    } else {
      forall x: Q31, other: seq<Q31> | SameButLast(table, other, nValues)
        ensures LinearQ31(other, x, nValues) == LinearQ31(table, x, nValues)
      {
        LinearQ31IsCurve(table, x, nValues);
        LinearQ31IsCurve(other, x, nValues);
        CurveWithoutLast(table, other, nValues, x);
      }
    }
  }
}
