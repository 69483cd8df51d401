/**
 Leading-zero count and the two-step Newton reciprocal.

 Both formats run the same iteration with a different scale B: 2^14 for Q15, 2^30 for Q31.
 The operand is normalised to n in [B, 2B), the reciprocal wanted is 2B^2 / n, and the
 quantity that the iteration drives to zero is the residual 2B^2 - n * out.
 */
module Reciprocal {
  import opened Words
  import opened Saturation

  // ----- Leading zeros

  /** The position after the highest bit set. */
  function BitLength(u: nat): nat
  {
    if u == 0 then 0 else 1 + BitLength(u / 2)
  }

  lemma {:induction false} BitLengthBrackets(u: nat)
    requires u > 0
    ensures BitLength(u) >= 1
    ensures Pow2(BitLength(u) - 1) <= u < Pow2(BitLength(u))
  {
    if u > 1 {
      BitLengthBrackets(u / 2);
    } else {
      assert BitLength(1) == 1 + BitLength(0);
    }
  }

  lemma {:induction false} BitLengthUnique(u: nat, k: nat)
    requires k >= 1
    requires Pow2(k - 1) <= u < Pow2(k)
    ensures BitLength(u) == k
  {
    BitLengthBrackets(u);
    if BitLength(u) < k {
      Pow2Monotone(BitLength(u), k - 1);
    } else if BitLength(u) > k {
      Pow2Monotone(k, BitLength(u) - 1);
    }
  }

  /** Masking with a single bit. */
  lemma {:induction false} AndSingleBit(w: nat, a: int, k: nat)
    requires k < w
    ensures BitAnd(w, a, Pow2(k)) == Bit(a, k) * Pow2(k)
    decreases w
  {
    AndStep(w, a, Pow2(k));
    if k == 0 {
      AndZero(w - 1, a / 2);
    } else {
      AndSingleBit(w - 1, a / 2, k - 1);
    }
  }

  /** The test of the loop: with nothing above bit k, bit k is set exactly from 2^k on. */
  lemma TopBitTest(u: uint32, k: nat)
    requires k < 32
    requires u < 2 * Pow2(k)
    ensures And32(u, Pow2(k)) == 0 <==> u < Pow2(k)
  {
    AndSingleBit(32, u, k);
    BitOfShr(u, k, 0);
    if u < Pow2(k) {
      DivModUnique(u, Pow2(k), 0, u);
    } else {
      DivModUnique(u, Pow2(k), 1, u - Pow2(k));
    }
  }

  /** `__CLZ`; for zero the loop of the source does not end. */
  method Clz(data: Q31) returns (count: uint32)
    requires data != 0
    ensures count == 32 - BitLength(ToUint32(data))
    ensures count <= 31
    ensures Pow2(31 - count) <= ToUint32(data) < Pow2(32 - count)
  {
    hide And32, Pow2, BitLength;
    assert Pow2(31) == 0x8000_0000 && Pow2(32) == 0x1_0000_0000 by { Pow2Values(); }
    ghost var u := ToUint32(data);
    count := 0;
    var mask: int := 0x8000_0000;
    while And32(ToUint32(data), mask) == 0
      invariant count <= 31
      invariant mask == Pow2(31 - count)
      invariant u < Pow2(32 - count)
      decreases 31 - count
    {
      ClzStep(u, count);
      count := count + 1;
      mask := mask / 2;
    }
    ClzStep(u, count);
    BitLengthUnique(u, 32 - count);
  }

  lemma ClzStep(u: uint32, count: nat)
    requires u > 0 && count <= 31 && u < Pow2(32 - count)
    ensures And32(u, Pow2(31 - count)) == 0 <==> u < Pow2(31 - count)
    ensures u < Pow2(31 - count) ==> count < 31 && Pow2(31 - count) / 2 == Pow2(31 - (count + 1))
  {
    TopBitTest(u, 31 - count);
  }

  // ----- The iteration on integers

  /** What one step leaves of a residual of at most d. */
  function ResidualAfter(b: nat, d: nat): nat
    requires b > 0
  {
    (d * d + 2 * b * (4 * b * b + d)) / (2 * b * b)
  }

  function NewtonFactor(b: nat, n: int, out: int): int
    requires b > 0
  {
    2 * b - 1 - n * out / (2 * b)
  }

  function NewtonStep(b: nat, n: int, out: int): int
    requires b > 0
  {
    out * NewtonFactor(b, n, out) / b
  }

  lemma FloorBounds(x: int, d: int)
    requires d > 0
    ensures d * (x / d) <= x <= d * (x / d) + d - 1
  {
  }

  lemma MulMono(a: int, b: int, c: int)
    requires a <= b && c >= 0
    ensures a * c <= b * c
  {
  }

  lemma PositiveFactor(a: int, b: int)
    requires a > 0 && a * b > 0
    ensures b > 0
  {
  }

  lemma LargeProduct(b: nat, n: int, r: int)
    requires b > 0 && b <= n && r >= 2 * b
    ensures n * r >= 2 * b * b
  {
    MulMono(b, n, r);
    MulMono(2 * b, r, b);
  }

  /** Every intermediate of a step stays in its type: below 2B, 2B, (2B)^2 and 2B. */
  lemma NewtonRanges(b: nat, n: int, out: int)
    requires b > 0 && b <= n < 2 * b && 0 <= out <= 2 * b
    ensures 0 <= n * out < 4 * b * b
    ensures 0 <= NewtonFactor(b, n, out) < 2 * b
    ensures 0 <= out * NewtonFactor(b, n, out) < 4 * b * b
    ensures 0 <= NewtonStep(b, n, out) < 2 * b
    ensures n * NewtonStep(b, n, out) < 2 * b * b
  {
    var x, f, r := n * out, NewtonFactor(b, n, out), NewtonStep(b, n, out);
    MulBound(n, out, 2 * b - 1, 2 * b);
    assert (2 * b - 1) * (2 * b) < 4 * b * b;
    FactorBounds(b, x);
    MulBound(out, f, 2 * b, 2 * b - 1);
    FloorBounds(out * f, b);
    NewtonUpper(b, n, out, f, r);
    if r >= 2 * b {
      LargeProduct(b, n, r);
    } else if r < 0 {
      MulMono(r, -1, b);
    }
  }

  lemma FactorBounds(b: nat, x: int)
    requires b > 0 && 0 <= x < 4 * b * b
    ensures 0 <= 2 * b - 1 - x / (2 * b) < 2 * b
    ensures 4 * b * b - 2 * b - x <= 2 * b * (2 * b - 1 - x / (2 * b)) <= 4 * b * b - x - 1
  {
    var q := x / (2 * b);
    FloorBounds(x, 2 * b);
    assert 2 * b * (2 * b - 1 - q) == 4 * b * b - 2 * b - 2 * b * q;
    if q >= 2 * b {
      MulMono(2 * b, q, 2 * b);
    }
    if q < 0 {
      MulMono(q, -1, 2 * b);
    }
  }

  lemma Rearrange(b: int, n: int, out: int, f: int)
    ensures out * f * (2 * b * n) == n * out * (2 * b * f)
  {
    assert out * f * (2 * b * n) == (out * n) * (f * (2 * b));
  }

  lemma ParabolaBelow(x: int, t: int)
    requires x >= 0 && t > 0
    ensures x * (2 * t - x - 1) < t * t
  {
    assert (t - x) * (t - x) >= 0;
    assert x * (2 * t - x - 1) == t * t - (t - x) * (t - x) - x;
  }

  /** The step never overshoots the reciprocal. */
  lemma NewtonUpper(b: nat, n: int, out: int, f: int, r: int)
    requires b > 0 && b <= n < 2 * b && 0 <= out
    requires 2 * b * f <= 4 * b * b - n * out - 1
    requires b * r <= out * f
    ensures n * r < 2 * b * b
  {
    var x, t := n * out, 2 * b * b;
    var c := 2 * b * n;
    MulMono(b * r, out * f, c);
    assert b * r * c == t * (n * r) by { Rearrange(b, n, r, b); }
    Rearrange(b, n, out, f);
    MulMono(2 * b * f, 2 * t - x - 1, x);
    assert t * (n * r) <= x * (2 * t - x - 1);
    ParabolaBelow(x, t);
    assert t * (t - n * r) == t * t - t * (n * r);
    PositiveFactor(t, t - n * r);
  }

  /** One step squares the residual, up to the two truncations. */
  lemma NewtonContracts(b: nat, n: int, out: int)
    requires b > 0 && b <= n < 2 * b && 0 <= out <= 2 * b
    ensures var t := 2 * b * b;
      var residual, residual' := t - n * out, t - n * NewtonStep(b, n, out);
      && 0 < residual'
      && t * residual' < residual * residual + 2 * b * (t + n * out)
  {
    NewtonRanges(b, n, out);
    var x, f, r := n * out, NewtonFactor(b, n, out), NewtonStep(b, n, out);
    FactorBounds(b, x);
    FloorBounds(out * f, b);
    NewtonLower(b, n, out, f, r);
  }

  lemma ParabolaGap(x: int, t: int, b: int)
    ensures t * t - x * (2 * t - 2 * b - x) == (t - x) * (t - x) + 2 * b * x
  {
    assert x * (2 * t - 2 * b - x) == 2 * (x * t) - 2 * (b * x) - x * x;
    assert (t - x) * (t - x) == t * t - 2 * (x * t) + x * x;
  }

  lemma TruncationBound(b: nat, n: int)
    requires b > 0 && 0 <= n < 2 * b
    ensures (b - 1) * (2 * b * n) < 2 * b * (2 * b * b)
  {
    MulMono(n, 2 * b, b - 1);
    assert n * (b - 1) < 2 * b * b;
    assert (b - 1) * (2 * b * n) == 2 * b * (n * (b - 1));
  }

  lemma NewtonLower(b: nat, n: int, out: int, f: int, r: int)
    requires b > 0 && b <= n < 2 * b && 0 <= out
    requires 4 * b * b - 2 * b - n * out <= 2 * b * f
    requires out * f <= b * r + b - 1
    ensures var t := 2 * b * b;
      t * (t - n * r) < (t - n * out) * (t - n * out) + 2 * b * (t + n * out)
  {
    var x, t := n * out, 2 * b * b;
    assert t * (n * r) > x * (2 * t - 2 * b - x) - 2 * b * t by {
      ScaledStep(b, n, f * out, r);
      Rearrange(b, n, out, f);
      MulMono(2 * t - 2 * b - x, 2 * b * f, x);
      assert out * f * (2 * b * n) >= x * (2 * t - 2 * b - x);
    }
    ParabolaGap(x, t, b);
    Collect(t, n * r, 2 * b, x, x * (2 * t - 2 * b - x), (t - x) * (t - x));
  }

  lemma Collect(t: int, y: int, c: int, x: int, q: int, square: int)
    requires t * y > q - c * t
    requires t * t - q == square + c * x
    ensures t * (t - y) < square + c * (t + x)
  {
    assert t * (t - y) == t * t - t * y;
    assert c * (t + x) == c * t + c * x;
  }

  /** The truncated quotient, scaled back up, is less than 2B * 2B^2 below the exact one. */
  lemma ScaledStep(b: nat, n: int, product: int, r: int)
    requires b > 0 && b <= n < 2 * b
    requires product <= b * r + b - 1
    ensures 2 * b * b * (n * r) > product * (2 * b * n) - 2 * b * (2 * b * b)
  {
    var c := 2 * b * n;
    MulMono(product, b * r + b - 1, c);
    assert (b * r + b - 1) * c == b * r * c + (b - 1) * c;
    assert b * r * c == 2 * b * b * (n * r) by { Rearrange(b, n, r, b); }
    TruncationBound(b, n);
  }

  lemma SquareMono(a: int, d: int)
    requires 0 - d <= a <= d
    ensures a * a <= d * d
  {
    assert (d - a) * (d + a) >= 0;
  }

  /** A residual bounded by d becomes a positive one bounded by ResidualAfter. */
  lemma NewtonBound(b: nat, n: int, out: int, d: nat)
    requires b > 0 && b <= n < 2 * b && 0 <= out <= 2 * b
    requires 0 - d <= 2 * b * b - n * out <= d
    ensures 0 < 2 * b * b - n * NewtonStep(b, n, out) <= ResidualAfter(b, d)
  {
    hide NewtonStep;
    NewtonContracts(b, n, out);
    var t, x := 2 * b * b, n * out;
    var residual' := t - n * NewtonStep(b, n, out);
    BoundFromResidual(b, t, x, d, residual');
  }

  lemma BoundFromResidual(b: nat, t: int, x: int, d: nat, residual': int)
    requires b > 0 && t == 2 * b * b
    requires 0 - d <= t - x <= d
    requires t * residual' < (t - x) * (t - x) + 2 * b * (t + x)
    ensures residual' <= ResidualAfter(b, d)
  {
    WorstResidual(t, 2 * b, x, d, t * residual');
    assert 4 * b * b == 2 * t;
    QuotientAbove(residual', t, d * d + 2 * b * (2 * t + d));
  }

  lemma WorstResidual(t: int, c: int, x: int, d: nat, y: int)
    requires c >= 0 && 0 - d <= t - x <= d
    requires y < (t - x) * (t - x) + c * (t + x)
    ensures y < d * d + c * (2 * t + d)
  {
    SquareMono(t - x, d);
    MulMono(t + x, 2 * t + d, c);
  }

  lemma QuotientAbove(r: int, t: int, bound: int)
    requires t > 0 && t * r < bound
    ensures r <= bound / t
  {
    FloorBounds(bound, t);
    if r > bound / t {
      MulMono(bound / t + 1, r, t);
    }
  }

  // ----- Below zero: operand and approximation both negative

  /** The step then mirrors the positive one, except that the quotient is rounded away from zero. */
  lemma NewtonBelow(b: nat, m: int, o: int)
    requires b > 0 && b <= m < 2 * b && 0 <= o <= 2 * b
    ensures (0 - m) * (0 - o) == m * o
    ensures NewtonFactor(b, 0 - m, 0 - o) == NewtonFactor(b, m, o)
    ensures (0 - o) * NewtonFactor(b, m, o) == 0 - o * NewtonFactor(b, m, o)
    ensures 0 - NewtonStep(b, m, o) - 1 <= NewtonStep(b, 0 - m, 0 - o) <= 0 - NewtonStep(b, m, o)
  {
    assert (0 - m) * (0 - o) == m * o;
    var f := NewtonFactor(b, m, o);
    assert NewtonFactor(b, 0 - m, 0 - o) == f;
    hide NewtonFactor;
    assert (0 - o) * f == 0 - o * f;
    NegatedQuotient(0 - o * f, b);
  }

  lemma NegatedQuotient(x: int, d: int)
    requires d > 0
    ensures -(-x / d) - 1 <= x / d <= -(-x / d)
  {
    var q, q' := x / d, -x / d;
    FloorBounds(x, d);
    FloorBounds(-x, d);
    assert -d < d * (q + q') + d && d * (q + q') <= 0;
    if q + q' > 0 {
      MulMono(1, q + q', d);
    }
    if q + q' < -1 {
      MulMono(q + q', -2, d);
    }
  }

  /** The residual contracts as above; it may now also end just below zero. */
  lemma NewtonBoundBelow(b: nat, m: int, o: int, d: nat)
    requires b > 0 && b <= m < 2 * b && 0 <= o <= 2 * b
    requires 0 - d <= 2 * b * b - m * o <= d
    ensures -2 * b < 2 * b * b - (0 - m) * NewtonStep(b, 0 - m, 0 - o) <= ResidualAfter(b, d)
  {
    hide NewtonStep, NewtonFactor, ResidualAfter;
    NewtonBelow(b, m, o);
    NewtonBound(b, m, o, d);
    OneMore(m, NewtonStep(b, m, o), NewtonStep(b, 0 - m, 0 - o));
  }

  lemma OneMore(m: int, r: int, y: int)
    requires 0 - r - 1 <= y <= 0 - r
    ensures (0 - m) * y == if y == 0 - r then m * r else m * r + m
  {
    assert (0 - m) * y == m * (0 - y);
    assert m * (r + 1) == m * r + m;
  }

  lemma ResidualAtLeast(b: nat, d: nat)
    requires b > 0
    ensures ResidualAfter(b, d) >= 4 * b
  {
    var t := 2 * b * b;
    assert 2 * b * (4 * b * b + d) == 4 * b * t + 2 * b * d;
    assert d * d >= 0 && 2 * b * d >= 0;
    QuotientAtLeast(d * d + 2 * b * (4 * b * b + d), t, 4 * b);
  }

  lemma QuotientAtLeast(x: int, d: int, k: int)
    requires d > 0 && k * d <= x
    ensures x / d >= k
  {
    ModDrop(x - k * d, d, k);
  }

  // ----- Normalisation and the seed table

  /** The shift that brings an operand of at most k bits to exactly k bits. */
  function SignBits(x: int, k: nat): nat
    requires x != 0 && Magnitude(x) < Pow2(k)
  {
    BitLengthBrackets(Magnitude(x));
    BitLengthAtMost(Magnitude(x), k);
    k - BitLength(Magnitude(x))
  }

  lemma BitLengthAtMost(u: nat, k: nat)
    requires 0 < u < Pow2(k)
    ensures 1 <= BitLength(u) <= k
  {
    BitLengthBrackets(u);
    if BitLength(u) > k {
      Pow2Monotone(k, BitLength(u) - 1);
    }
  }

  function Normalized(x: int, k: nat): int
    requires x != 0 && Magnitude(x) < Pow2(k)
  {
    x * Pow2(SignBits(x, k))
  }

  /** The normalised operand has its top bit just below the sign. */
  lemma NormalizedRange(x: int, k: nat)
    requires x != 0 && Magnitude(x) < Pow2(k)
    ensures k >= 1
    ensures Pow2(k - 1) <= Magnitude(Normalized(x, k)) < Pow2(k)
    ensures x > 0 <==> Normalized(x, k) > 0
  {
    hide BitLength, Pow2;
    var m := Magnitude(x);
    BitLengthBrackets(m);
    BitLengthAtMost(m, k);
    var bl := BitLength(m);
    var p := Pow2(k - bl);
    Pow2Add(bl - 1, k - bl);
    Pow2Add(bl, k - bl);
    Scaled(x, p, Pow2(bl - 1), Pow2(bl));
  }

  lemma Scaled(x: int, p: int, lo: int, hi: int)
    requires p > 0 && 0 < lo <= Magnitude(x) < hi
    ensures lo * p <= Magnitude(x * p) < hi * p
    ensures x > 0 <==> x * p > 0
  {
    MulMono(lo, Magnitude(x), p);
    assert Magnitude(x) * p < hi * p;
    assert (0 - x) * p == 0 - x * p;
    assert lo * p > 0;
  }

  /** `(n >> 8) & 0x3F`, and the same with 24 for the wider format. */
  function SeedIndex(high: int): (i: nat)
    ensures i == high % 64
    ensures i < 64
  {
    SeedMask(high);
    And32(ToUint32(high), 0x3F)
  }

  lemma SeedMask(high: int)
    ensures And32(ToUint32(high), 0x3F) == high % 64
  {
    assert Pow2(6) == 0x40 by { Pow2Values(); }
    hide Pow2, BitAnd;
    AndLowMask(32, ToUint32(high), 6, 0x40);
    WordRemainder(high);
  }

  lemma WordRemainder(v: int)
    ensures ToUint32(v) % 64 == v % 64
  {
    DivModUnique(v % 0x1_0000_0000, 64, v / 64 - v / 0x1_0000_0000 * 0x400_0000, v % 64);
  }

  predicate NonNegative(table: seq<int>)
  {
    forall i :: 0 <= i < |table| ==> table[i] >= 0
  }

  /** Entry i lies between the reciprocals of the two ends of segment i of the operand range. */
  predicate Bracketing(table: seq<int>, b: nat)
  {
    |table| == 64 && forall i :: 0 <= i < 64 ==>
      (64 + i) * (b / 64) * table[i] <= 2 * b * b <= (65 + i) * (b / 64) * table[i]
  }

  /** The leading-zero count less the unused bits is the normalising shift. */
  lemma ShiftFromZeros(x: int, k: nat, zeros: int)
    requires 1 <= k < 32
    requires x != 0 && Magnitude(x) < Pow2(k) <= 0x8000_0000
    requires zeros == 32 - BitLength(ToUint32(Magnitude(x)))
    ensures ToUint32(zeros - (32 - k)) == SignBits(x, k) <= k - 1
    ensures ToUint32(SignBits(x, k) + 1) == SignBits(x, k) + 1 < 32
  {
    hide Pow2, BitLength;
    BitLengthAtMost(Magnitude(x), k);
  }

  // ----- Q15

  function StepQ15(n: Q15, out: Q15): Q15
  {
    var product := ToUint32(ToInt32(n * out) / 0x8000);
    var factor := ToUint32(0x7FFF - product);
    ToInt16(ToUint32(ToUint32(out) * factor) / 0x4000)
  }

  /** For every operand and approximation the unsigned casts amount to one wrap of the Newton step to 16 bits. */
  lemma StepQ15IsWrappedNewton(n: Q15, out: Q15)
    ensures StepQ15(n, out) == ToInt16(NewtonStep(0x4000, n, out))
  {
    var f := 0x7FFF - n * out / 0x8000;
    SmallProduct15(n, out);
    SubtractWrapped(n * out / 0x8000);
    WrappedFactor(out, f);
    NarrowWrapped(out * f);
    assert NewtonStep(0x4000, n, out) == out * f / 0x4000;
    hide ToInt16, ToUint32, ToInt32, NewtonStep;
  }

  lemma SmallProduct15(n: Q15, out: Q15)
    ensures ToInt32(n * out) == n * out
  {
    MulBound(Magnitude(n), Magnitude(out), 0x8000, 0x8000);
    assert -0x4000_0000 <= n * out <= 0x4000_0000 by { MagnitudeOfProduct(n, out); }
    ToInt32Is(n * out, n * out, 0);
  }

  lemma MagnitudeOfProduct(a: int, b: int)
    ensures Magnitude(a) * Magnitude(b) == Magnitude(a * b)
  {
  }

  lemma SubtractWrapped(q: int)
    ensures ToUint32(0x7FFF - ToUint32(q)) == ToUint32(0x7FFF - q)
  {
    ModDrop(0x7FFF - q, 0x1_0000_0000, q / 0x1_0000_0000);
  }

  lemma WrappedFactor(out: int, f: int)
    ensures ToUint32(ToUint32(out) * ToUint32(f)) == ToUint32(out * f)
  {
    var a, b := out / 0x1_0000_0000, f / 0x1_0000_0000;
    var u, v := ToUint32(out), ToUint32(f);
    var m := a * v + u * b + a * b * 0x1_0000_0000;
    assert out * f == u * v + m * 0x1_0000_0000 by { ExpandProduct(u, a, v, b, 0x1_0000_0000); }
    ModDrop(u * v, 0x1_0000_0000, m);
  }

  lemma ExpandProduct(u: int, a: int, v: int, b: int, g: int)
    ensures (u + a * g) * (v + b * g) == u * v + (a * v + u * b + a * b * g) * g
  {
    assert (u + a * g) * (v + b * g) == u * v + u * (b * g) + (a * g) * v + (a * g) * (b * g);
    assert (a * g) * v == (a * v) * g && u * (b * g) == (u * b) * g && (a * g) * (b * g) == (a * b * g) * g;
  }

  lemma NarrowWrapped(v: int)
    ensures ToInt16(ToUint32(v) / 0x4000) == ToInt16(v / 0x4000)
  {
    var k := v / 0x1_0000_0000;
    assert v == ToUint32(v) + (k * 0x4_0000) * 0x4000;
    ModDrop(ToUint32(v), 0x4000, k * 0x4_0000);
    ModDrop(ToUint32(v) / 0x4000 + 0x8000, 0x1_0000, k * 4);
  }

  /** On a positive operand no cast of the Q15 step loses anything. */
  lemma StepQ15IsNewton(n: Q15, out: Q15)
    requires n >= 0x4000 && out >= 0
    ensures StepQ15(n, out) == NewtonStep(0x4000, n, out)
    ensures 0 <= StepQ15(n, out)
  {
    NewtonRanges(0x4000, n, out);
    CastsQ15(n * out, out, NewtonFactor(0x4000, n, out));
    assert NewtonStep(0x4000, n, out) == out * NewtonFactor(0x4000, n, out) / 0x4000;
    hide ToInt16, ToInt32, ToUint32, NewtonStep;
  }

  lemma CastsQ15(x: int, out: Q15, f: int)
    requires 0 <= x < 0x4000_0000 && out >= 0
    requires f == 0x7FFF - x / 0x8000 && 0 <= f
    requires 0 <= out * f / 0x4000 < 0x8000
    ensures ToUint32(ToInt32(x) / 0x8000) == x / 0x8000
    ensures ToUint32(0x7FFF - x / 0x8000) == f
    ensures ToUint32(out) == out
    ensures ToInt16(ToUint32(out * f) / 0x4000) == out * f / 0x4000
  {
    hide ToInt16, ToInt32;
    HighPartQ15(x);
    NarrowQ15(out * f);
  }

  lemma HighPartQ15(x: int)
    requires 0 <= x < 0x4000_0000
    ensures ToUint32(ToInt32(x) / 0x8000) == x / 0x8000
  {
  }

  lemma NarrowQ15(v: int)
    requires 0 <= v / 0x4000 < 0x8000
    ensures ToInt16(ToUint32(v) / 0x4000) == v / 0x4000
  {
  }

  function RecipValueQ15(x: Q15, table: seq<Q15>): Q15
    requires x != 0 && x != -0x8000
    requires |table| == 64
  {
    Fits15(x);
    var n := ToInt16(Normalized(x, 15));
    StepQ15(n, StepQ15(n, table[SeedIndex(n / 0x100)]))
  }

  /** Two wrapped Newton steps from the table entry, for every operand and table. */
  lemma RecipQ15IsWrappedNewton(x: Q15, table: seq<Q15>)
    requires x != 0 && x != -0x8000 && |table| == 64
    ensures Magnitude(x) < Pow2(15)
    ensures var n := Normalized(x, 15);
      RecipValueQ15(x, table) == WrappedTwice15(n, table[n / 0x100 % 64])
  {
    Fits15(x);
    SignedFit15(x);
    hide StepQ15, Normalized, Pow2, NewtonStep, ToInt16, And32;
    var n := Normalized(x, 15);
    var seed := table[SeedIndex(n / 0x100)];
    StepQ15IsWrappedNewton(n, seed);
    StepQ15IsWrappedNewton(n, StepQ15(n, seed));
  }

  function WrappedTwice15(n: int, seed: int): Q15
  {
    ToInt16(NewtonStep(0x4000, n, ToInt16(NewtonStep(0x4000, n, seed))))
  }

  lemma SignedFit15(x: Q15)
    requires x != 0 && x != -0x8000
    ensures Magnitude(x) < Pow2(15)
    ensures -0x8000 < Normalized(x, 15) < 0x8000
    ensures ToInt16(Normalized(x, 15)) == Normalized(x, 15)
  {
    Fits15(x);
    NormalizedRange(x, 15);
  }

  lemma Fits15(x: int)
    requires -0x8000 < x < 0x8000
    ensures Magnitude(x) < Pow2(15)
    ensures Pow2(15) == 0x8000 && Pow2(14) == 0x4000
  {
    Pow2Values();
  }

  /** `arm_recip_q15`: the reciprocal through dst, and its exponent as the result. */
  method RecipQ15(x: Q15, table: seq<Q15>) returns (dst: Q15, exponent: uint32)
    requires x != 0 && x != -0x8000
    requires |table| == 64
    ensures Magnitude(x) < Pow2(15)
    ensures exponent == SignBits(x, 15) + 1 <= 15
    ensures dst == RecipValueQ15(x, table)
    ensures dst == WrappedTwice15(Normalized(x, 15), table[Normalized(x, 15) / 0x100 % 64])
    ensures x > 0 && NonNegative(table) ==> 0 <= Normalized(x, 15) * dst < 0x2000_0000
    ensures x > 0 && Bracketing(table, 0x4000) ==> 0 < 0x2000_0000 - Normalized(x, 15) * dst <= 65620
    ensures x < 0 && table[SeedIndex(Normalized(x, 15) / 0x100)] <= 0 ==> dst <= 0
  {
    hide BitLength, Pow2, SeedIndex, SignBits, ToInt16, ToInt32, ToUint32;
    Fits15(x);
    var zeros: int := Clz(Magnitude(x));
    ShiftFromZeros(x, 15, zeros);
    var signBits: int := ToUint32(zeros - 17);
    var n: int := ToInt16(x * Pow2(signBits));
    var out: int := table[SeedIndex(n / 0x100)];
    var i := 0;
    ghost var seed := out;
    while i < 2
      invariant 0 <= i <= 2
      invariant -0x8000 <= out < 0x8000
      invariant out == if i == 0 then seed else if i == 1 then StepQ15(n, seed) else StepQ15(n, StepQ15(n, seed))
    {
      var tempVal: int := ToUint32(ToInt32(n * out) / 0x8000);
      tempVal := ToUint32(0x7FFF - tempVal);
      out := ToInt16(ToUint32(ToUint32(out) * tempVal) / 0x4000);
      i := i + 1;
    }
    dst := out;
    exponent := ToUint32(signBits + 1);
    RecipQ15Meaning(x, table);
    RecipQ15IsWrappedNewton(x, table);
    hide WrappedTwice15, Normalized;
  }

  lemma RecipQ15Meaning(x: Q15, table: seq<Q15>)
    requires x != 0 && x != -0x8000 && |table| == 64
    ensures Magnitude(x) < Pow2(15)
    ensures x > 0 && NonNegative(table) ==> 0 <= Normalized(x, 15) * RecipValueQ15(x, table) < 0x2000_0000
    ensures x > 0 && Bracketing(table, 0x4000) ==>
              0 < 0x2000_0000 - Normalized(x, 15) * RecipValueQ15(x, table) <= 65620
    ensures x < 0 && table[SeedIndex(Normalized(x, 15) / 0x100)] <= 0 ==> RecipValueQ15(x, table) <= 0
  {
    Fits15(x);
    hide RecipValueQ15, Normalized, Bracketing, NonNegative, SeedIndex, Pow2, ResidualAfter;
    if x > 0 {
      if NonNegative(table) {
        RecipQ15NeverOvershoots(x, table);
        PositiveQ15(x);
        MulMono(0, Normalized(x, 15), RecipValueQ15(x, table));
      }
      if Bracketing(table, 0x4000) {
        RecipQ15Accurate(x, table);
      }
    } else if table[SeedIndex(Normalized(x, 15) / 0x100)] <= 0 {
      var n := Normalized(x, 15);
      RecipQ15ConvergesBelow(x, table, Magnitude(0x2000_0000 - n * table[SeedIndex(n / 0x100)]));
    }
  }

  lemma PositiveQ15(x: Q15)
    requires x > 0
    ensures Magnitude(x) < Pow2(15)
    ensures 0x4000 <= Normalized(x, 15) < 0x8000
    ensures ToInt16(Normalized(x, 15)) == Normalized(x, 15)
  {
    Fits15(x);
    NormalizedRange(x, 15);
  }

  /** With any non-negative table the reciprocal of a positive operand is never overestimated. */
  lemma RecipQ15NeverOvershoots(x: Q15, table: seq<Q15>)
    requires x > 0 && |table| == 64 && NonNegative(table)
    ensures Magnitude(x) < Pow2(15)
    ensures 0 <= RecipValueQ15(x, table)
    ensures Normalized(x, 15) * RecipValueQ15(x, table) < 0x2000_0000
  {
    PositiveQ15(x);
    hide StepQ15, NewtonStep, NewtonFactor, Normalized, And32, ToInt16, ResidualAfter;
    var n := Normalized(x, 15);
    var seed := table[SeedIndex(n / 0x100)];
    StepQ15IsNewton(n, seed);
    var out := StepQ15(n, seed);
    StepQ15IsNewton(n, out);
    NewtonRanges(0x4000, n, out);
  }

  /** A seed with residual at most d leaves a residual in (0, ResidualAfter^2(d)]. */
  lemma RecipQ15Converges(x: Q15, table: seq<Q15>, d: nat)
    requires x > 0 && |table| == 64 && NonNegative(table)
    requires Magnitude(x) < Pow2(15)
    requires var n := Normalized(x, 15);
      0 - d <= 0x2000_0000 - n * table[SeedIndex(n / 0x100)] <= d
    ensures var b := 0x4000;
      0 < 0x2000_0000 - Normalized(x, 15) * RecipValueQ15(x, table) <= ResidualAfter(b, ResidualAfter(b, d))
  {
    PositiveQ15(x);
    hide StepQ15, NewtonStep, NewtonFactor, Normalized, And32, ToInt16, ResidualAfter;
    var n := Normalized(x, 15);
    var seed := table[SeedIndex(n / 0x100)];
    StepQ15IsNewton(n, seed);
    NewtonBound(0x4000, n, seed, d);
    var out := StepQ15(n, seed);
    StepQ15IsNewton(n, out);
    NewtonBound(0x4000, n, out, ResidualAfter(0x4000, d));
  }

  /** A bracketing seed is within 1/64 of the reciprocal. */
  lemma SeedResidual(b: nat, n: int, i: nat, seed: int)
    requires b >= 64 && b % 64 == 0 && i < 64
    requires (64 + i) * (b / 64) <= n < (65 + i) * (b / 64)
    requires (64 + i) * (b / 64) * seed <= 2 * b * b <= (65 + i) * (b / 64) * seed
    ensures 0 - b * b / 32 <= 2 * b * b - n * seed <= b * b / 32
  {
    var step := b / 64;
    SegmentResidual(n, (64 + i) * step, step, 64 + i, seed, 2 * b * b);
    TableStep(b, step);
  }

  /** n and the target both lie between lo * seed and (lo + step) * seed, which are close. */
  lemma SegmentResidual(n: int, lo: int, step: int, m: int, seed: int, target: int)
    requires step > 0 && m >= 64 && lo == m * step && target > 0
    requires lo <= n < lo + step
    requires lo * seed <= target <= (m + 1) * step * seed
    ensures -target <= 64 * (target - n * seed) <= target
  {
    assert (m + 1) * step == lo + step;
    PositiveFactor(lo + step, seed);
    MulMono(lo, n, seed);
    MulMono(n, lo + step, seed);
    MulMono(64 * step, lo, seed);
    assert (lo + step) * seed == lo * seed + step * seed;
    assert 64 * step * seed == 64 * (step * seed);
  }

  lemma TableStep(b: nat, step: int)
    requires b == 64 * step
    ensures b * b / 32 * 32 == b * b
  {
    assert b * b == 32 * (128 * (step * step));
  }

  lemma SegmentQ15(n: int)
    requires 0x4000 <= n < 0x8000
    ensures var i := SeedIndex(n / 0x100);
      (64 + i) * 0x100 <= n < (65 + i) * 0x100
  {
  }

  lemma SeedQ15(n: int, table: seq<Q15>)
    requires 0x4000 <= n < 0x8000
    requires Bracketing(table, 0x4000)
    ensures 0 - 0x80_0000 <= 0x2000_0000 - n * table[SeedIndex(n / 0x100)] <= 0x80_0000
  {
    SegmentQ15(n);
    hide Bracketing, And32;
    var i := SeedIndex(n / 0x100);
    BracketingEntry(table, 0x4000, i);
    SeedResidual(0x4000, n, i, table[i]);
  }

  lemma FinalResidualQ15()
    ensures ResidualAfter(0x4000, ResidualAfter(0x4000, 0x80_0000)) == 65620
  {
    assert ResidualAfter(0x4000, 0x80_0000) == 197120;
  }

  /**
   End to end: a bracketing table gives every positive operand a reciprocal that is too small by
   less than 65621 / 2^29, about one part in 8000.
   */
  lemma RecipQ15Accurate(x: Q15, table: seq<Q15>)
    requires x > 0 && Bracketing(table, 0x4000)
    ensures Magnitude(x) < Pow2(15)
    ensures 0 < 0x2000_0000 - Normalized(x, 15) * RecipValueQ15(x, table) <= 65620
  {
    hide RecipValueQ15, Normalized, Bracketing, SeedIndex, ResidualAfter, NonNegative, Pow2;
    PositiveQ15(x);
    BracketingIsPositive(table, 0x4000);
    SeedQ15(Normalized(x, 15), table);
    RecipQ15Converges(x, table, 0x80_0000);
    FinalResidualQ15();
  }

  lemma BracketingEntry(table: seq<int>, b: nat, i: nat)
    requires Bracketing(table, b) && i < 64
    ensures (64 + i) * (b / 64) * table[i] <= 2 * b * b <= (65 + i) * (b / 64) * table[i]
  {
  }

  lemma BracketingIsPositive(table: seq<int>, b: nat)
    requires Bracketing(table, b) && b > 0
    ensures |table| == 64 && NonNegative(table)
  {
    forall i | 0 <= i < |table|
      ensures table[i] >= 0
    {
      BracketingEntry(table, b, i);
      if table[i] < 0 {
        MulMono(table[i], 0, (65 + i) * (b / 64));
      }
    }
  }

  // A negative operand takes the other branch of the sign test. The iteration follows it only when
  // the table entry is negative as well.

  lemma CastsQ15Below(x: int, out: Q15, f: int)
    requires 0 <= x < 0x4000_0000 && out <= 0
    requires f == 0x7FFF - x / 0x8000 && 0 <= f
    requires -0x4000_0000 < out * f <= 0
    requires -0x8000 <= out * f / 0x4000
    ensures ToUint32(ToInt32(x) / 0x8000) == x / 0x8000
    ensures ToUint32(0x7FFF - x / 0x8000) == f
    ensures ToInt16(ToUint32(ToUint32(out) * f) / 0x4000) == out * f / 0x4000
  {
    hide ToInt16, ToInt32;
    HighPartQ15(x);
    UnsignedProduct(out, f);
    NarrowQ15Below(out * f);
    hide ToUint32;
  }

  lemma UnsignedProduct(out: Q15, f: int)
    requires out <= 0
    ensures ToUint32(ToUint32(out) * f) == ToUint32(out * f)
  {
    if out < 0 {
      assert ToUint32(out) == out + 0x1_0000_0000;
      assert ToUint32(out) * f == out * f + f * 0x1_0000_0000;
      ModDrop(out * f, 0x1_0000_0000, f);
    }
  }

  lemma NarrowQ15Below(v: int)
    requires -0x4000_0000 < v <= 0 && -0x8000 <= v / 0x4000
    ensures ToInt16(ToUint32(v) / 0x4000) == v / 0x4000
  {
    if v < 0 {
      assert ToUint32(v) / 0x4000 == v / 0x4000 + 0x4_0000;
      ToInt16Is(v / 0x4000 + 0x4_0000, v / 0x4000, 4);
    }
  }

  /** With operand and approximation both negative no cast of the Q15 step loses anything. */
  lemma StepQ15IsNewtonBelow(n: Q15, out: Q15)
    requires -0x8000 < n <= -0x4000 && out <= 0
    ensures StepQ15(n, out) == NewtonStep(0x4000, n, out)
    ensures StepQ15(n, out) <= 0
  {
    NewtonRanges(0x4000, 0 - n, 0 - out);
    NewtonBelow(0x4000, 0 - n, 0 - out);
    var f := NewtonFactor(0x4000, n, out);
    CastsQ15Below(n * out, out, f);
    assert NewtonStep(0x4000, n, out) == out * f / 0x4000;
    hide ToInt16, ToInt32, ToUint32, NewtonStep;
  }

  lemma StepQ15BoundBelow(n: Q15, out: Q15, d: nat)
    requires -2 * 0x4000 < n <= -0x4000 && out <= 0
    requires 0 - d <= 0x2000_0000 - n * out <= d
    ensures StepQ15(n, out) <= 0
    ensures -2 * 0x4000 < 0x2000_0000 - n * StepQ15(n, out) <= ResidualAfter(0x4000, d)
  {
    hide StepQ15, NewtonStep, NewtonFactor, ResidualAfter;
    StepQ15IsNewtonBelow(n, out);
    var m, o := 0 - n, 0 - out;
    assert m * o == n * out;
    NewtonBoundBelow(0x4000, m, o, d);
  }

  lemma NegativeQ15(x: Q15)
    requires -0x8000 < x < 0
    ensures Magnitude(x) < Pow2(15)
    ensures -0x8000 < Normalized(x, 15) <= -0x4000
    ensures ToInt16(Normalized(x, 15)) == Normalized(x, 15)
  {
    Fits15(x);
    NormalizedRange(x, 15);
  }

  /**
   A negative operand is inverted just as well when its table entry is negative: a residual of at
   most d contracts twice.
   */
  lemma RecipQ15ConvergesBelow(x: Q15, table: seq<Q15>, d: nat)
    requires -0x8000 < x < 0 && |table| == 64
    requires Magnitude(x) < Pow2(15)
    requires var n := Normalized(x, 15);
      && table[SeedIndex(n / 0x100)] <= 0
      && 0 - d <= 0x2000_0000 - n * table[SeedIndex(n / 0x100)] <= d
    ensures RecipValueQ15(x, table) <= 0
    ensures var b := 0x4000;
      -2 * b < 0x2000_0000 - Normalized(x, 15) * RecipValueQ15(x, table) <= ResidualAfter(b, ResidualAfter(b, d))
  {
    NegativeQ15(x);
    hide StepQ15, Normalized, And32, ToInt16, ResidualAfter, Pow2;
    var n := Normalized(x, 15);
    var seed := table[SeedIndex(n / 0x100)];
    StepQ15BoundBelow(n, seed, d);
    ResidualAtLeast(0x4000, d);
    StepQ15BoundBelow(n, StepQ15(n, seed), ResidualAfter(0x4000, d));
  }

  /**
   With a positive entry the factor exceeds 16 bits and the casts lose its carry: for
   -24576, whose reciprocal mantissa is near -21845, two steps end at -6.
   */
  lemma NegativeOperandIsNotInverted(table: seq<Q15>)
    requires |table| == 64 && table[32] == 21845
    ensures RecipValueQ15(-24576, table) == -6
  {
    hide And32, BitLength, Pow2, SeedIndex, StepQ15;
    Fits15(-24576);
    NegativeNormalized();
    NegativeSteps();
  }

  /**
   The lost carries can also hit the right value by accident, so the sign of the operand is not the
   exact condition: entry 5 lies between the reciprocals of the ends of its segment, and -31488 is
   inverted as accurately as a positive operand.
   */
  lemma NegativeOperandInvertedByAccident(table: seq<Q15>)
    requires |table| == 64 && table[5] == 30186
    ensures 69 * 0x100 * 30186 <= 0x2000_0000 <= 70 * 0x100 * 30186
    ensures RecipValueQ15(-31488, table) == -17048
    ensures 0 < 0x2000_0000 - (-31488) * -17048 <= 65620
  {
    hide And32, Pow2, SeedIndex, StepQ15;
    Fits15(-31488);
    AccidentNormalized();
    AccidentSteps();
  }

  lemma AccidentNormalized()
    ensures Magnitude(-31488) < Pow2(15)
    ensures Normalized(-31488, 15) == -31488
    ensures SeedIndex(-123) == 5
  {
    Fits15(-31488);
    BitLengthUnique(31488, 15);
    hide BitLength;
    assert SignBits(-31488, 15) == 0;
  }

  lemma NegativeNormalized()
    ensures Magnitude(-24576) < Pow2(15)
    ensures Normalized(-24576, 15) == -24576
    ensures SeedIndex(-96) == 32
  {
    Fits15(-24576);
    BitLengthUnique(24576, 15);
    hide BitLength;
    assert SignBits(-24576, 15) == 0;
  }

  lemma NegativeSteps()
    ensures StepQ15(-24576, 21845) == -3
    ensures StepQ15(-24576, -3) == -6
  {
    StepByHand(-24576, 21845, 4294950912, 49151, 1073703595);
    StepByHand(-24576, -3, 2, 32765, 4294869001);
    assert ToInt16(1073703595 / 0x4000) == -3;
    assert ToInt16(4294869001 / 0x4000) == -6;
    hide StepQ15;
  }

  lemma AccidentSteps()
    ensures StepQ15(-31488, 30186) == -17260
    ensures StepQ15(-31488, -17260) == -17048
  {
    StepByHand(-31488, 30186, 4294938289, 61774, 1864709964);
    StepByHand(-31488, -17260, 16585, 16182, 4015665976);
    assert ToInt16(1864709964 / 0x4000) == -17260;
    assert ToInt16(4015665976 / 0x4000) == -17048;
    hide StepQ15;
  }

  lemma StepByHand(n: Q15, out: Q15, product: uint32, factor: uint32, scaled: uint32)
    requires product == ToUint32(ToInt32(n * out) / 0x8000)
    requires factor == ToUint32(0x7FFF - product)
    requires scaled == ToUint32(ToUint32(out) * factor)
    ensures StepQ15(n, out) == ToInt16(scaled / 0x4000)
  {
  }

  // ----- Q31

  function StepQ31(n: Q31, out: Q31): Q31
  {
    var product := ToUint32(ToInt64(n * out) / 0x8000_0000);
    var factor := ToUint32(0x7FFF_FFFF - product);
    ClipQ63ToQ31(ToInt64(out * factor) / 0x4000_0000)
  }

  lemma CastsQ31(x: int, out: Q31, f: int)
    requires 0 <= x < 0x4000_0000_0000_0000 && out >= 0
    requires f == 0x7FFF_FFFF - x / 0x8000_0000 && 0 <= f
    requires 0 <= out * f < 0x4000_0000_0000_0000
    ensures ToUint32(ToInt64(x) / 0x8000_0000) == x / 0x8000_0000
    ensures ToUint32(0x7FFF_FFFF - x / 0x8000_0000) == f
    ensures ToInt64(out * f) / 0x4000_0000 == out * f / 0x4000_0000
  {
    HighPartQ31(x);
    WidenQ31(out * f);
    hide ToInt64;
  }

  lemma HighPartQ31(x: int)
    requires 0 <= x < 0x4000_0000_0000_0000
    ensures ToUint32(ToInt64(x) / 0x8000_0000) == x / 0x8000_0000
  {
  }

  lemma WidenQ31(v: int)
    requires 0 <= v < 0x4000_0000_0000_0000
    ensures ToInt64(v) == v
  {
  }

  /** On a positive operand no cast of the Q31 step loses anything, and the clip never acts. */
  lemma StepQ31IsNewton(n: Q31, out: Q31)
    requires n >= 0x4000_0000 && out >= 0
    ensures StepQ31(n, out) == NewtonStep(0x4000_0000, n, out)
    ensures 0 <= StepQ31(n, out)
    ensures ClipQ63ToQ31(NewtonStep(0x4000_0000, n, out)) == NewtonStep(0x4000_0000, n, out)
  {
    hide ClipQ63ToQ31, ToInt64, ToInt32, ToUint32;
    NewtonRanges(0x4000_0000, n, out);
    CastsQ31(n * out, out, NewtonFactor(0x4000_0000, n, out));
    assert NewtonStep(0x4000_0000, n, out) == out * NewtonFactor(0x4000_0000, n, out) / 0x4000_0000;
    ClipQ63ToQ31IsClamp(NewtonStep(0x4000_0000, n, out));
    hide NewtonStep;
  }

  lemma CastsQ31Below(x: int, out: Q31, f: int)
    requires 0 <= x < 0x4000_0000_0000_0000 && out <= 0
    requires f == 0x7FFF_FFFF - x / 0x8000_0000 && 0 <= f
    requires -0x4000_0000_0000_0000 < out * f <= 0
    ensures ToUint32(ToInt64(x) / 0x8000_0000) == x / 0x8000_0000
    ensures ToUint32(0x7FFF_FFFF - x / 0x8000_0000) == f
    ensures ToInt64(out * f) / 0x4000_0000 == out * f / 0x4000_0000
  {
    HighPartQ31(x);
    assert ToInt64(out * f) == out * f;
    hide ToInt64;
  }

  lemma StepQ31IsNewtonBelow(n: Q31, out: Q31)
    requires -0x8000_0000 < n <= -0x4000_0000 && out <= 0
    ensures StepQ31(n, out) == NewtonStep(0x4000_0000, n, out)
    ensures StepQ31(n, out) <= 0
  {
    hide ClipQ63ToQ31, ToInt64, ToInt32, ToUint32;
    NewtonRanges(0x4000_0000, 0 - n, 0 - out);
    NewtonBelow(0x4000_0000, 0 - n, 0 - out);
    var f := NewtonFactor(0x4000_0000, n, out);
    CastsQ31Below(n * out, out, f);
    assert NewtonStep(0x4000_0000, n, out) == out * f / 0x4000_0000;
    ClipQ63ToQ31IsClamp(NewtonStep(0x4000_0000, n, out));
    hide NewtonStep;
  }

  /** With opposite signs the step doubles the approximation at least, until the clip holds it. */
  lemma StepQ31Opposite(n: Q31, out: Q31)
    requires n < 0 && 0 <= out
    ensures Min(2 * out, 0x7FFF_FFFF) <= StepQ31(n, out)
  {
    hide ClipQ63ToQ31, ToInt64, ToInt32, ToUint32;
    assert -0x4000_0000_0000_0000 <= n * out <= 0 by {
      MulBound(0 - n, out, 0x8000_0000, 0x7FFF_FFFF);
      assert (0 - n) * out == 0 - n * out;
    }
    if out > 0 {
      MulMono(n, -1, out);
    }
    var q := n * out / 0x8000_0000;
    OppositeFactor(n * out, out);
    var f := 0x7FFF_FFFF - q;
    MulBound(out, f, 0x7FFF_FFFF, 0xFFFF_FFFF);
    if out > 0 {
      MulMono(0x8000_0000, f, out);
    }
    PositiveProduct(out * f);
    ClipQ63ToQ31IsClamp(out * f / 0x4000_0000);
  }

  lemma OppositeFactor(p: int, out: Q31)
    requires -0x4000_0000_0000_0000 <= p <= 0 && (out > 0 ==> p < 0)
    ensures var q := p / 0x8000_0000;
      && ToUint32(0x7FFF_FFFF - ToUint32(ToInt64(p) / 0x8000_0000)) == 0x7FFF_FFFF - q
      && 0 <= 0x7FFF_FFFF - q <= 0xFFFF_FFFF
      && (out > 0 ==> 0x8000_0000 <= 0x7FFF_FFFF - q)
  {
    assert ToInt64(p) == p;
    hide ToInt64;
    var q := p / 0x8000_0000;
    assert -0x8000_0000 <= q <= 0;
    assert ToUint32(q) == if q < 0 then q + 0x1_0000_0000 else q;
  }

  lemma PositiveProduct(p: int)
    requires 0 <= p < 0x8000_0000_0000_0000
    ensures ToInt64(p) == p
  {
  }

  /** For every operand but -2^31 and every approximation the Q31 step is the Newton step, clamped. */
  lemma StepQ31IsClampedNewton(n: Q31, out: Q31)
    requires n != -0x8000_0000
    ensures StepQ31(n, out) == Clamp(NewtonStep(0x4000_0000, n, out), -0x8000_0000, 0x7FFF_FFFF)
  {
    var x := n * out;
    assert -0x3FFF_FFFF_8000_0000 <= x <= 0x3FFF_FFFF_8000_0000 by {
      MulBound(Magnitude(n), Magnitude(out), 0x7FFF_FFFF, 0x8000_0000);
      MagnitudeOfProduct(n, out);
    }
    SmallFactor31(x);
    var f := 0x7FFF_FFFF - x / 0x8000_0000;
    assert -0x8000_0000_0000_0000 <= out * f < 0x8000_0000_0000_0000 by {
      MulBound(Magnitude(out), f, 0x8000_0000, 0xFFFF_FFFE);
      MagnitudeOfProduct(out, f);
    }
    Fits64(out * f);
    ClipQ63ToQ31IsClamp(out * f / 0x4000_0000);
    assert NewtonStep(0x4000_0000, n, out) == out * f / 0x4000_0000;
    hide ToInt64, ToUint32, ToInt32, NewtonStep, ClipQ63ToQ31;
  }

  lemma SmallFactor31(x: int)
    requires -0x3FFF_FFFF_8000_0000 <= x <= 0x3FFF_FFFF_8000_0000
    ensures var f := 0x7FFF_FFFF - x / 0x8000_0000;
      0 <= f <= 0xFFFF_FFFE && ToUint32(0x7FFF_FFFF - ToUint32(ToInt64(x) / 0x8000_0000)) == f
  {
    Fits64(x);
    hide ToInt64;
    var q := x / 0x8000_0000;
    assert -0x7FFF_FFFF <= q <= 0x7FFF_FFFF;
    assert ToUint32(q) == if q < 0 then q + 0x1_0000_0000 else q;
  }

  lemma Fits64(p: int)
    requires -0x8000_0000_0000_0000 <= p < 0x8000_0000_0000_0000
    ensures ToInt64(p) == p
  {
  }

  lemma RecipQ31IsClampedNewton(x: Q31, table: seq<Q31>)
    requires x != 0 && x != -0x8000_0000 && |table| == 64
    ensures Magnitude(x) < Pow2(31)
    ensures var n := Normalized(x, 31);
      RecipValueQ31(x, table) == ClampedTwice31(n, table[n / 0x100_0000 % 64])
  {
    Fits31(x);
    SignedFit31(x);
    hide StepQ31, Normalized, Pow2, NewtonStep, ToInt32, And32;
    var n := Normalized(x, 31);
    var seed := table[SeedIndex(n / 0x100_0000)];
    StepQ31IsClampedNewton(n, seed);
    StepQ31IsClampedNewton(n, StepQ31(n, seed));
  }

  function ClampedTwice31(n: int, seed: int): Q31
  {
    var out := Clamp(NewtonStep(0x4000_0000, n, seed), -0x8000_0000, 0x7FFF_FFFF);
    Clamp(NewtonStep(0x4000_0000, n, out), -0x8000_0000, 0x7FFF_FFFF)
  }

  lemma SignedFit31(x: Q31)
    requires x != 0 && x != -0x8000_0000
    ensures Magnitude(x) < Pow2(31)
    ensures -0x8000_0000 < Normalized(x, 31) < 0x8000_0000
    ensures ToInt32(Normalized(x, 31)) == Normalized(x, 31)
  {
    Fits31(x);
    NormalizedRange(x, 31);
  }

  lemma Fits31(x: int)
    requires -0x8000_0000 < x < 0x8000_0000
    ensures Magnitude(x) < Pow2(31)
    ensures Pow2(31) == 0x8000_0000 && Pow2(30) == 0x4000_0000
  {
    Pow2Values();
  }

  function RecipValueQ31(x: Q31, table: seq<Q31>): Q31
    requires x != 0 && x != -0x8000_0000
    requires |table| == 64
  {
    Fits31(x);
    var n := ToInt32(Normalized(x, 31));
    StepQ31(n, StepQ31(n, table[SeedIndex(n / 0x100_0000)]))
  }

  /** `arm_recip_q31` */
  method RecipQ31(x: Q31, table: seq<Q31>) returns (dst: Q31, exponent: uint32)
    requires x != 0 && x != -0x8000_0000
    requires |table| == 64
    ensures Magnitude(x) < Pow2(31)
    ensures exponent == SignBits(x, 31) + 1 <= 31
    ensures dst == RecipValueQ31(x, table)
    ensures dst == ClampedTwice31(Normalized(x, 31), table[Normalized(x, 31) / 0x100_0000 % 64])
    ensures x > 0 && NonNegative(table) ==> 0 <= Normalized(x, 31) * dst < 0x2000_0000_0000_0000
    ensures x < 0 && NonNegative(table) ==> Normalized(x, 31) < 0 <= dst
    ensures Bracketing(table, 0x4000_0000) ==>
              (0 < 0x2000_0000_0000_0000 - Normalized(x, 31) * dst <= 141736558604 <==> x > 0)
  {
    hide BitLength, Pow2, SeedIndex, SignBits, ToInt32, ToInt64, ToUint32, ClipQ63ToQ31;
    Fits31(x);
    var zeros: int := Clz(Magnitude(x));
    ShiftFromZeros(x, 31, zeros);
    var signBits: int := ToUint32(zeros - 1);
    var n: int := ToInt32(x * Pow2(signBits));
    var out: int := table[SeedIndex(n / 0x100_0000)];
    var i := 0;
    ghost var seed := out;
    while i < 2
      invariant 0 <= i <= 2
      invariant -0x8000_0000 <= out < 0x8000_0000
      invariant out == if i == 0 then seed else if i == 1 then StepQ31(n, seed) else StepQ31(n, StepQ31(n, seed))
    {
      var tempVal: int := ToUint32(ToInt64(n * out) / 0x8000_0000);
      tempVal := ToUint32(0x7FFF_FFFF - tempVal);
      out := ClipQ63ToQ31(ToInt64(out * tempVal) / 0x4000_0000);
      i := i + 1;
    }
    dst := out;
    exponent := ToUint32(signBits + 1);
    RecipQ31Meaning(x, table);
    RecipQ31IsClampedNewton(x, table);
    hide ClampedTwice31, Normalized;
  }

  /** What the value means to a caller, for either sign of the operand. */
  lemma RecipQ31Meaning(x: Q31, table: seq<Q31>)
    requires x != 0 && x != -0x8000_0000 && |table| == 64
    ensures Magnitude(x) < Pow2(31)
    ensures x > 0 && NonNegative(table) ==> 0 <= Normalized(x, 31) * RecipValueQ31(x, table) < 0x2000_0000_0000_0000
    ensures x < 0 && NonNegative(table) ==> Normalized(x, 31) < 0 <= RecipValueQ31(x, table)
    ensures Bracketing(table, 0x4000_0000) ==>
              (0 < 0x2000_0000_0000_0000 - Normalized(x, 31) * RecipValueQ31(x, table) <= 141736558604 <==> x > 0)
  {
    Fits31(x);
    hide RecipValueQ31, Normalized, Bracketing, NonNegative, Pow2;
    if NonNegative(table) {
      if x > 0 {
        RecipQ31NeverOvershoots(x, table);
        PositiveQ31(x);
        MulMono(0, Normalized(x, 31), RecipValueQ31(x, table));
      } else {
        RecipQ31LosesSign(x, table);
      }
    }
    if Bracketing(table, 0x4000_0000) {
      RecipQ31AccurateExactlyWhen(x, table);
    }
  }

  lemma PositiveQ31(x: Q31)
    requires x > 0
    ensures Magnitude(x) < Pow2(31)
    ensures 0x4000_0000 <= Normalized(x, 31) < 0x8000_0000
    ensures ToInt32(Normalized(x, 31)) == Normalized(x, 31)
  {
    Fits31(x);
    NormalizedRange(x, 31);
  }

  /** With any non-negative table the reciprocal of a positive operand is never overestimated. */
  lemma RecipQ31NeverOvershoots(x: Q31, table: seq<Q31>)
    requires x > 0 && |table| == 64 && NonNegative(table)
    ensures Magnitude(x) < Pow2(31)
    ensures 0 <= RecipValueQ31(x, table)
    ensures Normalized(x, 31) * RecipValueQ31(x, table) < 0x2000_0000_0000_0000
  {
    PositiveQ31(x);
    hide StepQ31, NewtonStep, NewtonFactor, Normalized, And32, ToInt32, ClipQ63ToQ31;
    var n := Normalized(x, 31);
    var seed := table[SeedIndex(n / 0x100_0000)];
    StepQ31IsNewton(n, seed);
    var out := StepQ31(n, seed);
    StepQ31IsNewton(n, out);
    NewtonRanges(0x4000_0000, n, out);
  }

  /** A seed with residual at most d leaves a residual in (0, ResidualAfter^2(d)]. */
  lemma RecipQ31Converges(x: Q31, table: seq<Q31>, d: nat)
    requires x > 0 && |table| == 64 && NonNegative(table)
    requires Magnitude(x) < Pow2(31)
    requires var n := Normalized(x, 31);
      0 - d <= 0x2000_0000_0000_0000 - n * table[SeedIndex(n / 0x100_0000)] <= d
    ensures var b := 0x4000_0000;
      0 < 0x2000_0000_0000_0000 - Normalized(x, 31) * RecipValueQ31(x, table) <= ResidualAfter(b, ResidualAfter(b, d))
  {
    PositiveQ31(x);
    hide StepQ31, NewtonStep, NewtonFactor, Normalized, And32, ToInt32, ResidualAfter, ClipQ63ToQ31;
    var n := Normalized(x, 31);
    var seed := table[SeedIndex(n / 0x100_0000)];
    StepQ31IsNewton(n, seed);
    NewtonBound(0x4000_0000, n, seed, d);
    var out := StepQ31(n, seed);
    StepQ31IsNewton(n, out);
    NewtonBound(0x4000_0000, n, out, ResidualAfter(0x4000_0000, d));
  }

  lemma SegmentQ31(n: int)
    requires 0x4000_0000 <= n < 0x8000_0000
    ensures var i := SeedIndex(n / 0x100_0000);
      (64 + i) * 0x100_0000 <= n < (65 + i) * 0x100_0000
  {
  }

  lemma SeedQ31(n: int, table: seq<Q31>)
    requires 0x4000_0000 <= n < 0x8000_0000
    requires Bracketing(table, 0x4000_0000)
    ensures var residual := 0x2000_0000_0000_0000 - n * table[SeedIndex(n / 0x100_0000)];
      0 - 0x80_0000_0000_0000 <= residual <= 0x80_0000_0000_0000
  {
    SegmentQ31(n);
    hide Bracketing, And32;
    var i := SeedIndex(n / 0x100_0000);
    BracketingEntry(table, 0x4000_0000, i);
    SeedResidual(0x4000_0000, n, i, table[i]);
  }

  lemma FinalResidualQ31()
    ensures ResidualAfter(0x4000_0000, ResidualAfter(0x4000_0000, 0x80_0000_0000_0000)) == 141736558604
  {
    assert ResidualAfter(0x4000_0000, 0x80_0000_0000_0000) == 562954281943040;
  }

  lemma StepQ31BoundBelow(n: Q31, out: Q31, d: nat)
    requires -2 * 0x4000_0000 < n <= -0x4000_0000 && out <= 0
    requires 0 - d <= 0x2000_0000_0000_0000 - n * out <= d
    ensures StepQ31(n, out) <= 0
    ensures -2 * 0x4000_0000 < 0x2000_0000_0000_0000 - n * StepQ31(n, out) <= ResidualAfter(0x4000_0000, d)
  {
    hide StepQ31, NewtonStep, NewtonFactor, ResidualAfter;
    StepQ31IsNewtonBelow(n, out);
    var m, o := 0 - n, 0 - out;
    assert m * o == n * out;
    NewtonBoundBelow(0x4000_0000, m, o, d);
  }

  lemma NegativeQ31(x: Q31)
    requires -0x8000_0000 < x < 0
    ensures Magnitude(x) < Pow2(31)
    ensures -0x8000_0000 < Normalized(x, 31) <= -0x4000_0000
    ensures ToInt32(Normalized(x, 31)) == Normalized(x, 31)
  {
    Fits31(x);
    NormalizedRange(x, 31);
  }

  /** A negative operand is inverted as well as a positive one when its table entry is negative. */
  lemma RecipQ31ConvergesBelow(x: Q31, table: seq<Q31>, d: nat)
    requires -0x8000_0000 < x < 0 && |table| == 64
    requires Magnitude(x) < Pow2(31)
    requires var n := Normalized(x, 31);
      && table[SeedIndex(n / 0x100_0000)] <= 0
      && 0 - d <= 0x2000_0000_0000_0000 - n * table[SeedIndex(n / 0x100_0000)] <= d
    ensures RecipValueQ31(x, table) <= 0
    ensures var b, residual := 0x4000_0000, 0x2000_0000_0000_0000 - Normalized(x, 31) * RecipValueQ31(x, table);
      -2 * b < residual <= ResidualAfter(b, ResidualAfter(b, d))
  {
    NegativeQ31(x);
    hide StepQ31, Normalized, And32, ToInt32, ResidualAfter, Pow2;
    var n := Normalized(x, 31);
    var seed := table[SeedIndex(n / 0x100_0000)];
    StepQ31BoundBelow(n, seed, d);
    ResidualAtLeast(0x4000_0000, d);
    StepQ31BoundBelow(n, StepQ31(n, seed), ResidualAfter(0x4000_0000, d));
  }

  /** With a non-negative table the reciprocal of a negative operand is non-negative. */
  lemma RecipQ31LosesSign(x: Q31, table: seq<Q31>)
    requires -0x8000_0000 < x < 0 && |table| == 64 && NonNegative(table)
    ensures Magnitude(x) < Pow2(31)
    ensures Normalized(x, 31) < 0 <= RecipValueQ31(x, table)
  {
    NegativeQ31(x);
    hide StepQ31, Normalized, And32, ToInt32;
    var n := Normalized(x, 31);
    var seed := table[SeedIndex(n / 0x100_0000)];
    StepQ31Opposite(n, seed);
    StepQ31Opposite(n, StepQ31(n, seed));
  }

  /** With a bracketing one, whose entries are at least half of full scale, it is the largest value. */
  lemma RecipQ31Saturates(x: Q31, table: seq<Q31>)
    requires -0x8000_0000 < x < 0 && Bracketing(table, 0x4000_0000)
    ensures RecipValueQ31(x, table) == 0x7FFF_FFFF
  {
    NegativeQ31(x);
    hide StepQ31, Normalized, And32, ToInt32, Bracketing;
    var n := Normalized(x, 31);
    var i := SeedIndex(n / 0x100_0000);
    BracketingEntryAtLeast(table, 0x4000_0000, i);
    StepQ31Opposite(n, table[i]);
    StepQ31Opposite(n, StepQ31(n, table[i]));
  }

  /** End to end: less than 141736558605 / 2^61 too small, about one part in 2^24. */
  lemma RecipQ31Accurate(x: Q31, table: seq<Q31>)
    requires x > 0 && Bracketing(table, 0x4000_0000)
    ensures Magnitude(x) < Pow2(31)
    ensures 0 < 0x2000_0000_0000_0000 - Normalized(x, 31) * RecipValueQ31(x, table) <= 141736558604
  {
    hide RecipValueQ31, Normalized, Bracketing, SeedIndex, ResidualAfter, NonNegative, Pow2;
    PositiveQ31(x);
    BracketingIsPositive(table, 0x4000_0000);
    SeedQ31(Normalized(x, 31), table);
    RecipQ31Converges(x, table, 0x80_0000_0000_0000);
    FinalResidualQ31();
  }

  lemma BracketingEntryAtLeast(table: seq<int>, b: nat, i: nat)
    requires Bracketing(table, b) && i < 64 && b > 0 && b % 64 == 0
    ensures table[i] >= b
  {
    BracketingEntry(table, b, i);
    BracketingIsPositive(table, b);
    if table[i] < b {
      SmallEntry(b, 65 + i, b / 64, table[i]);
    }
  }

  lemma SmallEntry(b: nat, m: nat, step: nat, t: int)
    requires b > 0 && b == 64 * step && m <= 128 && 0 <= t < b
    ensures m * step * t < 2 * b * b
  {
    MulMono(m, 128, step);
    MulMono(m * step, 2 * b, t);
    MulMono(t, b - 1, 2 * b);
    assert 2 * b * (b - 1) == 2 * b * b - 2 * b;
  }

  /**
   So a bracketing table gives the same answer, the largest value, for every negative operand, and
   the reciprocal is accurate exactly when the operand is positive.
   */
  lemma RecipQ31AccurateExactlyWhen(x: Q31, table: seq<Q31>)
    requires x != 0 && x != -0x8000_0000 && Bracketing(table, 0x4000_0000)
    ensures Magnitude(x) < Pow2(31)
    ensures 0 < 0x2000_0000_0000_0000 - Normalized(x, 31) * RecipValueQ31(x, table) <= 141736558604 <==> x > 0
    ensures x < 0 ==> RecipValueQ31(x, table) == 0x7FFF_FFFF
  {
    Fits31(x);
    hide RecipValueQ31, Normalized, Bracketing, SeedIndex, NonNegative, Pow2;
    if x > 0 {
      RecipQ31Accurate(x, table);
    } else {
      BracketingIsPositive(table, 0x4000_0000);
      RecipQ31LosesSign(x, table);
      RecipQ31Saturates(x, table);
      MulMono(Normalized(x, 31), 0, RecipValueQ31(x, table));
    }
  }
}
