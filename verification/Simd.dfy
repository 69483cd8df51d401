/**
 The C emulations of the DSP instructions of the ARMv7-M Architecture Reference Manual
 (ARM DDI 0403, section A7.7) for cores that do not have them.

 `Half` and `Byte` read a lane of a packed word. Every emulation is compared with the
 operation it stands for, lane by lane.
 */
module Simd {
  import opened Words
  import opened Saturation

  // ----- Lanes

  const MIN16: int16 := -0x8000

  /** Signed halfword lane 0 (low) or 1 (high). */
  function Half(x: uint32, lane: nat): int16
    requires lane < 2
  {
    if lane == 0 then ToInt16(x) else ToInt16(x / 0x1_0000)
  }

  /** Signed byte lane 0 (lowest) to 3. */
  function Byte(x: uint32, lane: nat): int8
    requires lane < 4
  {
    if lane == 0 then ToInt8(x)
    else if lane == 1 then ToInt8(x / 0x100)
    else if lane == 2 then ToInt8(x / 0x1_0000)
    else ToInt8(x / 0x100_0000)
  }

  predicate IsHalves(x: uint32, lo: int, hi: int)
  {
    Half(x, 0) == lo && Half(x, 1) == hi
  }

  predicate IsBytes(x: uint32, b0: int, b1: int, b2: int, b3: int)
  {
    Byte(x, 0) == b0 && Byte(x, 1) == b1 && Byte(x, 2) == b2 && Byte(x, 3) == b3
  }

  function Clamp8(x: int): int8 { Clamp(x, -0x80, 0x7F) }

  function Clamp16(x: int): int16 { Clamp(x, -0x8000, 0x7FFF) }

  // ----- The lane extractions of the source: shift up in 32 bits, then down

  /** `((q31_t)x << 16) >> 16` */
  function LowHalf(x: uint32): int32 { ToInt32(ToInt32(x) * 0x1_0000) / 0x1_0000 }

  /** `((q31_t)x) >> 16` */
  function HighHalf(x: uint32): int32 { ToInt32(x) / 0x1_0000 }

  /** `((q31_t)x << 24) >> 24` and its neighbours. */
  function Byte0(x: uint32): int32 { ToInt32(ToInt32(x) * 0x100_0000) / 0x100_0000 }

  function Byte1(x: uint32): int32 { ToInt32(ToInt32(x) * 0x1_0000) / 0x100_0000 }

  function Byte2(x: uint32): int32 { ToInt32(ToInt32(x) * 0x100) / 0x100_0000 }

  function Byte3(x: uint32): int32 { ToInt32(x) / 0x100_0000 }

  lemma HalvesAreLanes(x: uint32)
    ensures LowHalf(x) == Half(x, 0) && HighHalf(x) == Half(x, 1)
  {
    var h, l := x / 0x1_0000, x % 0x1_0000;
    var c, d := if h < 0x8000 then 0 else 1, if l < 0x8000 then 0 else 1;
    ToInt32Is(x, x - c * 0x1_0000_0000, c);
    ToInt16Is(h, h - c * 0x1_0000, c);
    ToInt16Is(x, l - d * 0x1_0000, h + d);
    ToInt32Is(ToInt32(x) * 0x1_0000, (l - d * 0x1_0000) * 0x1_0000, h - c * 0x1_0000 + d);
  }

  lemma BytesAreLanes(x: uint32)
    ensures Byte0(x) == Byte(x, 0) && Byte1(x) == Byte(x, 1) && Byte2(x) == Byte(x, 2) && Byte3(x) == Byte(x, 3)
  {
    hide ToInt32, ToInt8;
    ToInt32Is(ToInt32(x), ToInt32(x), 0);
    ByteLane(x, 0x100_0000, 1);
    ByteLane(x, 0x1_0000, 0x100);
    ByteLane(x, 0x100, 0x1_0000);
    ByteLane(x, 1, 0x100_0000);
  }

  /** Shifting up until a byte is on top and then down by 24 sign-extends that byte. */
  lemma ByteLane(x: uint32, up: int, down: int)
    requires (up, down) in {(1, 0x100_0000), (0x100, 0x1_0000), (0x1_0000, 0x100), (0x100_0000, 1)}
    ensures ToInt32(ToInt32(x) * up) / 0x100_0000 == ToInt8(x / down)
  {
    var h, l := x / down, x % down;
    var g, b := h / 0x100, h % 0x100;
    var c, d := if x < 0x8000_0000 then 0 else 1, if b < 0x80 then 0 else 1;
    ToInt32Is(x, x - c * 0x1_0000_0000, c);
    ToInt8Is(h, b - d * 0x100, g + d);
    assert up * down == 0x100_0000;
    assert x == (g * 0x100 + b) * down + l;
    assert ToInt32(x) * up == ((b - d * 0x100) * 0x100_0000 + l * up) + (g + d - c * up) * 0x1_0000_0000 by {
      assert (g * 0x100 + b) * down * up == (g * 0x100 + b) * 0x100_0000;
    }
    assert 0 <= l * up < 0x100_0000;
    ToInt32Is(ToInt32(x) * up, (b - d * 0x100) * 0x100_0000 + l * up, g + d - c * up);
  }

  // ----- Packing lanes: mask, shift up in 32 bits, or together

  /** `(s << 16) | r` with both masked to 16 bits. */
  function PackHalves(hi: int32, lo: int32): uint32
  {
    Or32(ToInt32(And32(hi, 0xFFFF) * 0x1_0000), And32(lo, 0xFFFF))
  }

  /** `(u << 24) | (t << 16) | (s << 8) | r` with each masked to 8 bits. */
  function PackBytes(u: int32, t: int32, s: int32, r: int32): uint32
  {
    Or32(Or32(Or32(ToInt32(And32(u, 0xFF) * 0x100_0000), ToInt32(And32(t, 0xFF) * 0x1_0000)),
              ToInt32(And32(s, 0xFF) * 0x100)),
         And32(r, 0xFF))
  }

  lemma MaskHalf(x: int)
    ensures And32(x, 0xFFFF) == x % 0x1_0000
  {
    assert Pow2(16) == 0x1_0000 by { Pow2Values(); }
    AndLowMask(32, x, 16, 0x1_0000);
  }

  lemma MaskByte(x: int)
    ensures And32(x, 0xFF) == x % 0x100
  {
    assert Pow2(8) == 0x100 by { Pow2Values(); }
    AndLowMask(32, x, 8, 0x100);
  }

  lemma OrAdds(a: int, b: int, k: nat, p: int)
    requires k <= 32 && p == Pow2(k)
    requires a % p == 0 && 0 <= b < p
    ensures Or32(a, b) == (a + b) % 0x1_0000_0000
  {
    assert Pow2(32) == 0x1_0000_0000 by { Pow2Values(); }
    OrDisjoint(32, a, b, 0x1_0000_0000, k, p);
  }

  lemma PackHalvesValue(hi: int32, lo: int32)
    ensures PackHalves(hi, lo) == hi % 0x1_0000 * 0x1_0000 + lo % 0x1_0000
  {
    MaskHalf(hi);
    MaskHalf(lo);
    assert Pow2(16) == 0x1_0000 by { Pow2Values(); }
    OrAdds(ToInt32(hi % 0x1_0000 * 0x1_0000), lo % 0x1_0000, 16, 0x1_0000);
  }

  lemma PackBytesValue(u: int32, t: int32, s: int32, r: int32)
    ensures PackBytes(u, t, s, r)
         == u % 0x100 * 0x100_0000 + t % 0x100 * 0x1_0000 + s % 0x100 * 0x100 + r % 0x100
  {
    MaskByte(u);
    MaskByte(t);
    MaskByte(s);
    MaskByte(r);
    OrOfBytes(u % 0x100, t % 0x100, s % 0x100, r % 0x100);
  }

  lemma OrOfBytes(u: uint8, t: uint8, s: uint8, r: uint8)
    ensures Or32(Or32(Or32(ToInt32(u * 0x100_0000), ToInt32(t * 0x1_0000)), ToInt32(s * 0x100)), r)
         == u * 0x100_0000 + t * 0x1_0000 + s * 0x100 + r
  {
    hide Or32;
    var c := if u < 0x80 then 0 else 1;
    ToInt32Is(u * 0x100_0000, u * 0x100_0000 - c * 0x1_0000_0000, c);
    assert Pow2(24) == 0x100_0000 && Pow2(16) == 0x1_0000 && Pow2(8) == 0x100 by { Pow2Values(); }
    OrAdds(u * 0x100_0000 - c * 0x1_0000_0000, t * 0x1_0000, 24, 0x100_0000);
    OrAdds(u * 0x100_0000 + t * 0x1_0000, s * 0x100, 16, 0x1_0000);
    OrAdds(u * 0x100_0000 + t * 0x1_0000 + s * 0x100, r, 8, 0x100);
  }

  lemma PackedHalves(hi: int16, lo: int16)
    ensures IsHalves(PackHalves(hi, lo), lo, hi)
  {
    PackHalvesValue(hi, lo);
  }

  lemma PackedBytes(u: int8, t: int8, s: int8, r: int8)
    ensures IsBytes(PackBytes(u, t, s, r), r, s, t, u)
  {
    PackBytesValue(u, t, s, r);
    hide PackBytes, Byte;
    BytesOfSum(u % 0x100, t % 0x100, s % 0x100, r % 0x100);
    ByteOfSigned(u);
    ByteOfSigned(t);
    ByteOfSigned(s);
    ByteOfSigned(r);
    hide ToInt8;
  }

  lemma ByteOfSigned(v: int8)
    ensures ToInt8(v % 0x100) == v
    ensures 0 <= v % 0x100 < 0x100
  {
  }

  lemma BytesOfSum(u: uint8, t: uint8, s: uint8, r: uint8)
    ensures var x := u * 0x100_0000 + t * 0x1_0000 + s * 0x100 + r;
      IsBytes(x, ToInt8(r), ToInt8(s), ToInt8(t), ToInt8(u))
  {
    var x := u * 0x100_0000 + t * 0x1_0000 + s * 0x100 + r;
    assert x / 0x100 == u * 0x1_0000 + t * 0x100 + s;
    assert x / 0x1_0000 == u * 0x100 + t;
    assert x / 0x100_0000 == u;
    ToInt8Drop(r, u * 0x1_0000 + t * 0x100 + s);
    ToInt8Drop(s, u * 0x100 + t);
    ToInt8Drop(t, u);
    hide ToInt8;
  }

  // ----- Saturating arithmetic

  function QAdd8(x: uint32, y: uint32): uint32
  {
    PackBytes(SSatValue(Byte3(x) + Byte3(y), 8), SSatValue(Byte2(x) + Byte2(y), 8),
              SSatValue(Byte1(x) + Byte1(y), 8), SSatValue(Byte0(x) + Byte0(y), 8))
  }

  function QSub8(x: uint32, y: uint32): uint32
  {
    PackBytes(SSatValue(Byte3(x) - Byte3(y), 8), SSatValue(Byte2(x) - Byte2(y), 8),
              SSatValue(Byte1(x) - Byte1(y), 8), SSatValue(Byte0(x) - Byte0(y), 8))
  }

  function QAdd16(x: uint32, y: uint32): uint32
  {
    PackHalves(SSatValue(HighHalf(x) + HighHalf(y), 16), SSatValue(LowHalf(x) + LowHalf(y), 16))
  }

  function QSub16(x: uint32, y: uint32): uint32
  {
    PackHalves(SSatValue(HighHalf(x) - HighHalf(y), 16), SSatValue(LowHalf(x) - LowHalf(y), 16))
  }

  function QAsx(x: uint32, y: uint32): uint32
  {
    PackHalves(SSatValue(HighHalf(x) + LowHalf(y), 16), SSatValue(LowHalf(x) - HighHalf(y), 16))
  }

  function QSax(x: uint32, y: uint32): uint32
  {
    PackHalves(SSatValue(HighHalf(x) - LowHalf(y), 16), SSatValue(LowHalf(x) + HighHalf(y), 16))
  }

  lemma SSat8(x: Q31)
    ensures SSatValue(x, 8) == Clamp8(x)
  {
    assert Pow2(7) == 0x80 by { Pow2Values(); }
  }

  lemma SSat16(x: Q31)
    ensures SSatValue(x, 16) == Clamp16(x)
  {
    assert Pow2(15) == 0x8000 by { Pow2Values(); }
  }

  /** The four-byte adder and subtracter saturate each byte lane on its own. */
  lemma SaturatingBytesAreLanewise(x: uint32, y: uint32)
    ensures IsBytes(QAdd8(x, y), Clamp8(Byte(x, 0) + Byte(y, 0)), Clamp8(Byte(x, 1) + Byte(y, 1)),
                    Clamp8(Byte(x, 2) + Byte(y, 2)), Clamp8(Byte(x, 3) + Byte(y, 3)))
    ensures IsBytes(QSub8(x, y), Clamp8(Byte(x, 0) - Byte(y, 0)), Clamp8(Byte(x, 1) - Byte(y, 1)),
                    Clamp8(Byte(x, 2) - Byte(y, 2)), Clamp8(Byte(x, 3) - Byte(y, 3)))
  {
    BytesAreLanes(x);
    BytesAreLanes(y);
    hide Byte0, Byte1, Byte2, Byte3, Byte, PackBytes, SSatValue;
    SaturatedBytes(Byte3(x) + Byte3(y), Byte2(x) + Byte2(y), Byte1(x) + Byte1(y), Byte0(x) + Byte0(y));
    SaturatedBytes(Byte3(x) - Byte3(y), Byte2(x) - Byte2(y), Byte1(x) - Byte1(y), Byte0(x) - Byte0(y));
  }

  lemma SaturatedBytes(u: Q31, t: Q31, s: Q31, r: Q31)
    ensures IsBytes(PackBytes(SSatValue(u, 8), SSatValue(t, 8), SSatValue(s, 8), SSatValue(r, 8)),
                    Clamp8(r), Clamp8(s), Clamp8(t), Clamp8(u))
  {
    SSat8(u);
    SSat8(t);
    SSat8(s);
    SSat8(r);
    PackedBytes(Clamp8(u), Clamp8(t), Clamp8(s), Clamp8(r));
  }

  lemma SaturatedHalves(hi: Q31, lo: Q31)
    ensures IsHalves(PackHalves(SSatValue(hi, 16), SSatValue(lo, 16)), Clamp16(lo), Clamp16(hi))
  {
    SSat16(hi);
    SSat16(lo);
    PackedHalves(Clamp16(hi), Clamp16(lo));
  }

  /** The halfword operations saturate each lane; ASX and SAX cross the lanes of y. */
  lemma SaturatingHalvesAreLanewise(x: uint32, y: uint32)
    ensures IsHalves(QAdd16(x, y), Clamp16(Half(x, 0) + Half(y, 0)), Clamp16(Half(x, 1) + Half(y, 1)))
    ensures IsHalves(QSub16(x, y), Clamp16(Half(x, 0) - Half(y, 0)), Clamp16(Half(x, 1) - Half(y, 1)))
    ensures IsHalves(QAsx(x, y), Clamp16(Half(x, 0) - Half(y, 1)), Clamp16(Half(x, 1) + Half(y, 0)))
    ensures IsHalves(QSax(x, y), Clamp16(Half(x, 0) + Half(y, 1)), Clamp16(Half(x, 1) - Half(y, 0)))
  {
    HalvesAreLanes(x);
    HalvesAreLanes(y);
    hide LowHalf, HighHalf, Half, PackHalves, SSatValue;
    SaturatedHalves(HighHalf(x) + HighHalf(y), LowHalf(x) + LowHalf(y));
    SaturatedHalves(HighHalf(x) - HighHalf(y), LowHalf(x) - LowHalf(y));
    SaturatedHalves(HighHalf(x) + LowHalf(y), LowHalf(x) - HighHalf(y));
    SaturatedHalves(HighHalf(x) - LowHalf(y), LowHalf(x) + HighHalf(y));
  }

  // ----- Halving arithmetic

  function ShAdd16(x: uint32, y: uint32): uint32
  {
    PackHalves((HighHalf(x) + HighHalf(y)) / 2, (LowHalf(x) + LowHalf(y)) / 2)
  }

  function ShSub16(x: uint32, y: uint32): uint32
  {
    PackHalves((HighHalf(x) - HighHalf(y)) / 2, (LowHalf(x) - LowHalf(y)) / 2)
  }

  function ShAsx(x: uint32, y: uint32): uint32
  {
    PackHalves((HighHalf(x) + LowHalf(y)) / 2, (LowHalf(x) - HighHalf(y)) / 2)
  }

  function ShSax(x: uint32, y: uint32): uint32
  {
    PackHalves((HighHalf(x) - LowHalf(y)) / 2, (LowHalf(x) + HighHalf(y)) / 2)
  }

  /** The halving operations give the floor of half the exact sum or difference, per lane. */
  lemma HalvingIsLanewise(x: uint32, y: uint32)
    ensures IsHalves(ShAdd16(x, y), (Half(x, 0) + Half(y, 0)) / 2, (Half(x, 1) + Half(y, 1)) / 2)
    ensures IsHalves(ShSub16(x, y), (Half(x, 0) - Half(y, 0)) / 2, (Half(x, 1) - Half(y, 1)) / 2)
    ensures IsHalves(ShAsx(x, y), (Half(x, 0) - Half(y, 1)) / 2, (Half(x, 1) + Half(y, 0)) / 2)
    ensures IsHalves(ShSax(x, y), (Half(x, 0) + Half(y, 1)) / 2, (Half(x, 1) - Half(y, 0)) / 2)
  {
    HalvesAreLanes(x);
    HalvesAreLanes(y);
    hide LowHalf, HighHalf, Half, PackHalves;
    PackedHalves((HighHalf(x) + HighHalf(y)) / 2, (LowHalf(x) + LowHalf(y)) / 2);
    PackedHalves((HighHalf(x) - HighHalf(y)) / 2, (LowHalf(x) - LowHalf(y)) / 2);
    PackedHalves((HighHalf(x) + LowHalf(y)) / 2, (LowHalf(x) - HighHalf(y)) / 2);
    PackedHalves((HighHalf(x) - LowHalf(y)) / 2, (LowHalf(x) + HighHalf(y)) / 2);
  }

  // ----- Dual multiplies

  function Smuad(x: uint32, y: uint32): uint32
  {
    ToUint32(ToInt32(ToInt32(LowHalf(x) * LowHalf(y)) + ToInt32(HighHalf(x) * HighHalf(y))))
  }

  function Smusd(x: uint32, y: uint32): uint32
  {
    ToUint32(ToInt32(ToInt32(LowHalf(x) * LowHalf(y)) - ToInt32(HighHalf(x) * HighHalf(y))))
  }

  function Smuadx(x: uint32, y: uint32): uint32
  {
    ToUint32(ToInt32(ToInt32(LowHalf(x) * HighHalf(y)) + ToInt32(HighHalf(x) * LowHalf(y))))
  }

  function Smusdx(x: uint32, y: uint32): uint32
  {
    ToUint32(ToInt32(ToInt32(LowHalf(x) * HighHalf(y)) - ToInt32(HighHalf(x) * LowHalf(y))))
  }

  function Smlad(x: uint32, y: uint32, sum: uint32): uint32
  {
    ToUint32(ToInt32(ToInt32(ToInt32(LowHalf(x) * LowHalf(y)) + ToInt32(HighHalf(x) * HighHalf(y))) + ToInt32(sum)))
  }

  function Smladx(x: uint32, y: uint32, sum: uint32): uint32
  {
    ToUint32(ToInt32(ToInt32(ToInt32(LowHalf(x) * HighHalf(y)) + ToInt32(HighHalf(x) * LowHalf(y))) + ToInt32(sum)))
  }

  function Smlsdx(x: uint32, y: uint32, sum: uint32): uint32
  {
    ToUint32(ToInt32(ToInt32(ToInt32(LowHalf(x) * HighHalf(y)) - ToInt32(HighHalf(x) * LowHalf(y))) + ToInt32(sum)))
  }

  /** The two products are added in 32 bits before the 64-bit accumulator comes in. */
  function Smlald(x: uint32, y: uint32, sum: uint64): uint64
  {
    ToUint64(ToInt64(ToInt32(ToInt32(LowHalf(x) * LowHalf(y)) + ToInt32(HighHalf(x) * HighHalf(y))) + ToInt64(sum)))
  }

  function Smlaldx(x: uint32, y: uint32, sum: uint64): uint64
  {
    ToUint64(ToInt64(ToInt32(ToInt32(LowHalf(x) * HighHalf(y)) + ToInt32(HighHalf(x) * LowHalf(y))) + ToInt64(sum)))
  }

  function DotProduct(x: uint32, y: uint32): int
  {
    Half(x, 0) * Half(y, 0) + Half(x, 1) * Half(y, 1)
  }

  function CrossProduct(x: uint32, y: uint32): int
  {
    Half(x, 0) * Half(y, 1) + Half(x, 1) * Half(y, 0)
  }

  predicate AllLanesMinimal(x: uint32, y: uint32)
  {
    IsHalves(x, MIN16, MIN16) && IsHalves(y, MIN16, MIN16)
  }

  /** A product of two halfwords; only the two smallest values reach 2^30. */
  lemma LaneProduct(a: int16, b: int16)
    ensures -0x3FFF_8000 <= a * b <= 0x4000_0000
    ensures a * b == 0x4000_0000 <==> a == MIN16 && b == MIN16
  {
    if a == MIN16 {
    } else if b == MIN16 {
    } else {
      var m, n := if a < 0 then 0 - a else a, if b < 0 then 0 - b else b;
      MulBound(m, n, 0x7FFF, 0x7FFF);
      assert a * b == m * n || a * b == 0 - m * n;
    }
  }

  lemma ProductRanges(x: uint32, y: uint32)
    ensures LowHalf(x) == Half(x, 0) && HighHalf(x) == Half(x, 1)
    ensures LowHalf(y) == Half(y, 0) && HighHalf(y) == Half(y, 1)
    ensures -0x7FFF_0000 <= DotProduct(x, y) <= 0x8000_0000
    ensures -0x7FFF_0000 <= CrossProduct(x, y) <= 0x8000_0000
    ensures DotProduct(x, y) == 0x8000_0000 <==> AllLanesMinimal(x, y)
    ensures CrossProduct(x, y) == 0x8000_0000 <==> AllLanesMinimal(x, y)
    ensures ToInt32(LowHalf(x) * LowHalf(y)) == Half(x, 0) * Half(y, 0)
    ensures ToInt32(HighHalf(x) * HighHalf(y)) == Half(x, 1) * Half(y, 1)
    ensures ToInt32(LowHalf(x) * HighHalf(y)) == Half(x, 0) * Half(y, 1)
    ensures ToInt32(HighHalf(x) * LowHalf(y)) == Half(x, 1) * Half(y, 0)
  {
    HalvesAreLanes(x);
    HalvesAreLanes(y);
    hide LowHalf, HighHalf, Half;
    LaneProduct(Half(x, 0), Half(y, 0));
    LaneProduct(Half(x, 1), Half(y, 1));
    LaneProduct(Half(x, 0), Half(y, 1));
    LaneProduct(Half(x, 1), Half(y, 0));
  }

  lemma WrapDual(p: int)
    requires -0x8000_0000 <= p <= 0x8000_0000
    ensures ToInt32(ToUint32(ToInt32(p))) == if p < 0x8000_0000 then p else p - 0x1_0000_0000
  {
    Reread32(ToInt32(p));
  }

  /** The sum of two products is exact except when all four lanes are -2^15. */
  lemma DualMultiplyAddExactlyWhen(x: uint32, y: uint32)
    ensures ToInt32(Smuad(x, y)) == DotProduct(x, y) <==> !AllLanesMinimal(x, y)
    ensures ToInt32(Smuadx(x, y)) == CrossProduct(x, y) <==> !AllLanesMinimal(x, y)
    ensures AllLanesMinimal(x, y) ==> ToInt32(Smuad(x, y)) == ToInt32(Smuadx(x, y)) == -0x8000_0000
  {
    ProductRanges(x, y);
    hide LowHalf, HighHalf, Half, ToInt32, ToUint32;
    WrapDual(DotProduct(x, y));
    WrapDual(CrossProduct(x, y));
  }

  /** The difference of two products is always exact. */
  lemma DualMultiplySubtractIsExact(x: uint32, y: uint32)
    ensures ToInt32(Smusd(x, y)) == Half(x, 0) * Half(y, 0) - Half(x, 1) * Half(y, 1)
    ensures ToInt32(Smusdx(x, y)) == Half(x, 0) * Half(y, 1) - Half(x, 1) * Half(y, 0)
  {
    ProductRanges(x, y);
    hide LowHalf, HighHalf, Half, ToInt32, ToUint32;
    LaneProduct(Half(x, 0), Half(y, 0));
    LaneProduct(Half(x, 1), Half(y, 1));
    LaneProduct(Half(x, 0), Half(y, 1));
    LaneProduct(Half(x, 1), Half(y, 0));
    WrapDual(Half(x, 0) * Half(y, 0) - Half(x, 1) * Half(y, 1));
    WrapDual(Half(x, 0) * Half(y, 1) - Half(x, 1) * Half(y, 0));
  }

  lemma WrapAccumulate(p: int, sum: uint32)
    ensures ToUint32(ToInt32(ToInt32(p) + ToInt32(sum))) == ToUint32(p + sum)
  {
    WrapSum32(p, sum);
    Reread32(p + sum);
  }

  /** With a 32-bit accumulator the result is the exact value modulo 2^32, always. */
  lemma AccumulateIsModular(x: uint32, y: uint32, sum: uint32)
    ensures Smlad(x, y, sum) == ToUint32(DotProduct(x, y) + sum)
    ensures Smladx(x, y, sum) == ToUint32(CrossProduct(x, y) + sum)
    ensures Smlsdx(x, y, sum) == ToUint32(Half(x, 0) * Half(y, 1) - Half(x, 1) * Half(y, 0) + sum)
  {
    ProductRanges(x, y);
    hide LowHalf, HighHalf, Half, ToInt32, ToUint32;
    WrapAccumulate(DotProduct(x, y), sum);
    WrapAccumulate(CrossProduct(x, y), sum);
    WrapAccumulate(Half(x, 0) * Half(y, 1) - Half(x, 1) * Half(y, 0), sum);
  }

  lemma WrapLongAccumulate(p: int, sum: uint64)
    requires -0x8000_0000 <= p <= 0x8000_0000
    ensures var r := ToUint64(ToInt64(ToInt32(p) + ToInt64(sum)));
      && (r == ToUint64(p + sum) <==> p < 0x8000_0000)
      && (p == 0x8000_0000 ==> r == ToUint64(p - 0x1_0000_0000 + sum))
  {
    WrapSum64(ToInt32(p), sum);
    Reread64(ToInt32(p) + sum);
  }

  /**
   With a 64-bit accumulator it is not: the 32-bit sum of the products loses 2^32 when all four
   lanes are -2^15, and only then.
   */
  lemma LongAccumulateExactlyWhen(x: uint32, y: uint32, sum: uint64)
    ensures Smlald(x, y, sum) == ToUint64(DotProduct(x, y) + sum) <==> !AllLanesMinimal(x, y)
    ensures Smlaldx(x, y, sum) == ToUint64(CrossProduct(x, y) + sum) <==> !AllLanesMinimal(x, y)
    ensures AllLanesMinimal(x, y) ==> Smlald(x, y, sum) == ToUint64(DotProduct(x, y) - 0x1_0000_0000 + sum)
    ensures AllLanesMinimal(x, y) ==> Smlaldx(x, y, sum) == ToUint64(CrossProduct(x, y) - 0x1_0000_0000 + sum)
  {
    ProductRanges(x, y);
    hide LowHalf, HighHalf, Half, ToInt32, ToInt64, ToUint64;
    WrapLongAccumulate(DotProduct(x, y), sum);
    WrapLongAccumulate(CrossProduct(x, y), sum);
  }

  // ----- Extraction and packing

  function Sxtb16(x: uint32): uint32
  {
    Or32(And32(ToInt32(ToInt32(x) * 0x100_0000) / 0x100_0000, 0xFFFF),
         And32(ToInt32(ToInt32(x) * 0x100) / 0x100, 0xFFFF_0000))
  }

  /** `__PKHBT(a, b, 16)` */
  function PackBottomTop16(a: int32, b: int32): uint32
  {
    Or32(And32(a, 0xFFFF), And32(ToInt32(b * 0x1_0000), 0xFFFF_0000))
  }

  lemma MaskHighHalf(x: int)
    ensures And32(x, 0xFFFF_0000) == x % 0x1_0000_0000 - x % 0x1_0000
  {
    assert Pow2(32) == 0x1_0000_0000 && Pow2(16) == 0x1_0000 by { Pow2Values(); }
    AndHighMask(32, x, 0x1_0000_0000, 16, 0x1_0000);
  }

  lemma OrIsCommutative(a: int, b: int)
    ensures Or32(a, b) == Or32(b, a)
  {
    assert seq(32, i requires 0 <= i => Bit(a, i) == 1 || Bit(b, i) == 1)
        == seq(32, i requires 0 <= i => Bit(b, i) == 1 || Bit(a, i) == 1);
  }

  lemma OrOfMasked(lo: int, hi: int)
    ensures Or32(And32(lo, 0xFFFF), And32(hi, 0xFFFF_0000)) == hi % 0x1_0000_0000 / 0x1_0000 * 0x1_0000 + lo % 0x1_0000
  {
    MaskHalf(lo);
    MaskHighHalf(hi);
    hide And32, Or32;
    var top := hi % 0x1_0000_0000 - hi % 0x1_0000;
    assert top == hi % 0x1_0000_0000 / 0x1_0000 * 0x1_0000;
    OrIsCommutative(lo % 0x1_0000, top);
    assert Pow2(16) == 0x1_0000 by { Pow2Values(); }
    OrAdds(top, lo % 0x1_0000, 16, 0x1_0000);
  }

  lemma HalvesOfSum(hi: uint16, lo: uint16)
    ensures IsHalves(hi * 0x1_0000 + lo, ToInt16(lo), ToInt16(hi))
  {
  }

  lemma UpperHalf(v: int)
    ensures v % 0x1_0000_0000 / 0x1_0000 == v / 0x1_0000 % 0x1_0000
  {
  }

  lemma HalfOfSigned(v: int)
    ensures ToInt16(v % 0x1_0000) == ToInt16(v)
    ensures 0 <= v % 0x1_0000 < 0x1_0000
  {
  }

  /** The two masked words put together: the low half of one, the high half of the other. */
  lemma OrOfMaskedLanes(lo: int, hi: int)
    ensures IsHalves(Or32(And32(lo, 0xFFFF), And32(hi, 0xFFFF_0000)), ToInt16(lo), ToInt16(hi / 0x1_0000))
  {
    OrOfMasked(lo, hi);
    UpperHalf(hi);
    HalfOfSigned(lo);
    HalfOfSigned(hi / 0x1_0000);
    hide And32, Or32, Half, ToInt16;
    HalvesOfSum(hi / 0x1_0000 % 0x1_0000, lo % 0x1_0000);
  }

  lemma ByteAsHalf(b: int8)
    ensures ToInt16(b) == b
  {
  }

  lemma ShiftedByte(v: int)
    ensures v / 0x100 / 0x1_0000 == v / 0x100_0000
  {
  }

  /** Bytes 0 and 2 are sign-extended into the two halfwords. */
  lemma Sxtb16ExtendsBytes(x: uint32)
    ensures IsHalves(Sxtb16(x), Byte(x, 0), Byte(x, 2))
  {
    hide And32, Or32, Half, ToInt16;
    var lo, hi := ToInt32(ToInt32(x) * 0x100_0000) / 0x100_0000, ToInt32(ToInt32(x) * 0x100) / 0x100;
    OrOfMaskedLanes(lo, hi);
    ShiftedByte(ToInt32(ToInt32(x) * 0x100));
    BytesAreLanes(x);
    ByteAsHalf(Byte(x, 0));
    ByteAsHalf(Byte(x, 2));
    hide Byte, ToInt32;
  }

  lemma UpperHalfOfShifted(b: int)
    ensures ToInt16(ToInt32(b * 0x1_0000) / 0x1_0000) == ToInt16(b)
  {
    var k := (b + 0x8000) / 0x1_0000;
    ToInt32Is(b * 0x1_0000, (b - k * 0x1_0000) * 0x1_0000, k);
    ToInt16Is(b, b - k * 0x1_0000, k);
    ToInt16Is(b - k * 0x1_0000, b - k * 0x1_0000, 0);
  }

  lemma PackBottomTopLanes(a: int32, b: int32)
    ensures IsHalves(PackBottomTop16(a, b), ToInt16(a), ToInt16(b))
  {
    var hi := ToInt32(b * 0x1_0000);
    hide And32, Or32, Half, ToInt16, ToInt32;
    OrOfMaskedLanes(a, hi);
    UpperHalfOfShifted(b);
  }

  /** `__PACKq7` (little endian) and the byte lanes are inverse. */
  lemma PackQ7RoundTrip(v0: Q7, v1: Q7, v2: Q7, v3: Q7, x: uint32)
    ensures IsBytes(PackBytes(v3, v2, v1, v0), v0, v1, v2, v3)
    ensures PackBytes(Byte(x, 3), Byte(x, 2), Byte(x, 1), Byte(x, 0)) == x
  {
    PackedBytes(v3, v2, v1, v0);
    PackBytesValue(Byte(x, 3), Byte(x, 2), Byte(x, 1), Byte(x, 0));
    hide PackBytes, Byte;
    LanesAsBytes(x);
  }

  lemma LanesAsBytes(x: uint32)
    ensures Byte(x, 3) % 0x100 * 0x100_0000 + Byte(x, 2) % 0x100 * 0x1_0000 + Byte(x, 1) % 0x100 * 0x100
          + Byte(x, 0) % 0x100 == x
  {
    var q1 := x / 0x100;
    var q2 := q1 / 0x100;
    var q3 := q2 / 0x100;
    LowByte(x);
    LowByte(q1);
    LowByte(q2);
    LowByte(q3);
    hide ToInt8;
    assert x / 0x1_0000 == q2;
    assert x / 0x100_0000 == q3;
  }

  lemma LowByte(v: int)
    ensures ToInt8(v) % 0x100 == v % 0x100
  {
  }
}
