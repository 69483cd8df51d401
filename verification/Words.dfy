/**
 Machine words of the C code: fixed-width integer types, the casts between them,
 and the bitwise operators.

 Every C integer is modelled by the mathematical integer it denotes. A cast or a
 fixed-width operation that may leave its type goes through one of the wrapping
 functions below, so that the absence of overflow is proved and never assumed.

 A right shift by k, which is arithmetic on signed operands, is floor division by 2^k;
 Dafny's `/` rounds down for a positive divisor. A left shift by k is multiplication
 by 2^k followed by the wrap to the type of the result.
 */
module Words {

  type int8 = x: int | -0x80 <= x < 0x80
  type int16 = x: int | -0x8000 <= x < 0x8000
  type int32 = x: int | -0x8000_0000 <= x < 0x8000_0000
  type int64 = x: int | -0x8000_0000_0000_0000 <= x < 0x8000_0000_0000_0000

  type uint8 = x: int | 0 <= x < 0x100
  type uint16 = x: int | 0 <= x < 0x1_0000
  type uint32 = x: int | 0 <= x < 0x1_0000_0000
  type uint64 = x: int | 0 <= x < 0x1_0000_0000_0000_0000

  // The fractional types of the DSP library are the plain signed integers.
  type Q7 = int8
  type Q15 = int16
  type Q31 = int32
  type Q63 = int64

  // Narrowing casts: two's complement wrap-around.
  function ToInt8(x: int): int8 { (x + 0x80) % 0x100 - 0x80 }

  function ToInt16(x: int): int16 { (x + 0x8000) % 0x1_0000 - 0x8000 }

  function ToInt32(x: int): int32 { (x + 0x8000_0000) % 0x1_0000_0000 - 0x8000_0000 }

  function ToInt64(x: int): int64
  {
    (x + 0x8000_0000_0000_0000) % 0x1_0000_0000_0000_0000 - 0x8000_0000_0000_0000
  }

  function ToUint16(x: int): uint16 { x % 0x1_0000 }

  function ToUint32(x: int): uint32 { x % 0x1_0000_0000 }

  function ToUint64(x: int): uint64 { x % 0x1_0000_0000_0000_0000 }

  function Pow2(n: nat): (p: int)
    ensures p > 0
  {
    if n == 0 then 1 else 2 * Pow2(n - 1)
  }

  function Min(a: int, b: int): int { if a <= b then a else b }

  function Max(a: int, b: int): int { if a <= b then b else a }

  function Magnitude(x: int): nat { if x < 0 then 0 - x else x }

  /** The value of [lo, hi] closest to x. */
  function Clamp(x: int, lo: int, hi: int): int
  {
    if x < lo then lo else if x > hi then hi else x
  }

  /** Bit i of the two's complement expansion of x. */
  function Bit(x: int, i: nat): int
    decreases i
  {
    if i == 0 then x % 2 else Bit(x / 2, i - 1)
  }

  /** The unsigned number with the given bits, least significant first. */
  function FromBits(bits: seq<bool>): nat
  {
    if |bits| == 0 then 0 else (if bits[0] then 1 else 0) + 2 * FromBits(bits[1..])
  }

  // The bitwise operators on w-bit words. The result is the unsigned reading of the word;
  // operands may be given in either their signed or their unsigned reading.
  function BitAnd(w: nat, a: int, b: int): nat
  {
    FromBits(seq(w, i requires 0 <= i => Bit(a, i) == 1 && Bit(b, i) == 1))
  }

  function BitOr(w: nat, a: int, b: int): nat
  {
    FromBits(seq(w, i requires 0 <= i => Bit(a, i) == 1 || Bit(b, i) == 1))
  }

  function BitXor(w: nat, a: int, b: int): nat
  {
    FromBits(seq(w, i requires 0 <= i => Bit(a, i) != Bit(b, i)))
  }

  function And32(a: int, b: int): uint32
  {
    FromBits32(seq(32, i requires 0 <= i => Bit(a, i) == 1 && Bit(b, i) == 1)); BitAnd(32, a, b)
  }

  function Or32(a: int, b: int): uint32
  {
    FromBits32(seq(32, i requires 0 <= i => Bit(a, i) == 1 || Bit(b, i) == 1)); BitOr(32, a, b)
  }

  function Xor32(a: int, b: int): uint32
  {
    FromBits32(seq(32, i requires 0 <= i => Bit(a, i) != Bit(b, i))); BitXor(32, a, b)
  }

  // ----- Powers of two, quotients and remainders

  lemma DivModUnique(x: int, d: int, q: int, r: int)
    requires 0 <= r < d
    requires x == q * d + r
    ensures x / d == q && x % d == r
  {
    var t := x / d - q;
    assert d * t == r - x % d by {
      assert x == d * (x / d) + x % d;
      assert d * t == d * (x / d) - d * q;
    }
    SmallMultiple(d, t);
  }

  lemma SmallMultiple(d: int, t: int)
    requires -d < d * t < d
    ensures t == 0
  {
  }

  // The value of a wrapping cast, given how many times the modulus is taken off.
  lemma ToInt8Is(x: int, r: int8, k: int)
    requires x == r + k * 0x100
    ensures ToInt8(x) == r
  {
  }

  lemma ToInt16Is(x: int, r: int16, k: int)
    requires x == r + k * 0x1_0000
    ensures ToInt16(x) == r
  {
  }

  lemma ToInt32Is(x: int, r: int32, k: int)
    requires x == r + k * 0x1_0000_0000
    ensures ToInt32(x) == r
  {
  }

  lemma ToInt8Drop(x: int, k: int)
    ensures ToInt8(x + k * 0x100) == ToInt8(x)
  {
  }

  lemma ToInt32Drop(x: int, k: int)
    ensures ToInt32(x + k * 0x1_0000_0000) == ToInt32(x)
  {
  }

  /** Re-reading a word as signed or unsigned does not change it modulo its size. */
  lemma Reread32(v: int)
    ensures ToUint32(ToInt32(v)) == ToUint32(v)
    ensures ToInt32(ToUint32(v)) == ToInt32(v)
  {
  }

  lemma Reread64(v: int)
    ensures ToUint64(ToInt64(v)) == ToUint64(v)
    ensures ToInt64(ToUint64(v)) == ToInt64(v)
  {
  }

  /** Wrapping the operands first does not change a wrapped sum. */
  lemma WrapSum32(a: int, b: int)
    ensures ToInt32(ToInt32(a) + ToInt32(b)) == ToInt32(a + b)
  {
    var i, j := (a - ToInt32(a)) / 0x1_0000_0000, (b - ToInt32(b)) / 0x1_0000_0000;
    var k := (ToInt32(a) + ToInt32(b) + 0x8000_0000) / 0x1_0000_0000;
    ToInt32Is(a + b, ToInt32(ToInt32(a) + ToInt32(b)), i + j + k);
  }

  lemma WrapSum64(a: int, b: int)
    ensures ToInt64(a + ToInt64(b)) == ToInt64(a + b)
  {
  }

  lemma ProductBound(a: int, bound: int, y: Q31)
    requires 0 <= a <= bound
    ensures -0x8000_0000 * a <= a * y <= 0x7FFF_FFFF * a
    ensures -0x8000_0000 * bound <= a * y <= 0x7FFF_FFFF * bound
  {
    assert a * (y + 0x8000_0000) >= 0;
    assert a * (0x7FFF_FFFF - y) >= 0;
  }

  lemma MulBound(a: int, b: int, hiA: int, hiB: int)
    requires 0 <= a <= hiA && 0 <= b <= hiB
    ensures 0 <= a * b <= hiA * hiB
  {
    assert a * b <= a * hiB;
    assert a * hiB <= hiA * hiB;
  }

  lemma {:induction false} Pow2Add(a: nat, b: nat)
    ensures Pow2(a + b) == Pow2(a) * Pow2(b)
  {
    if a > 0 {
      Pow2Add(a - 1, b);
      assert Pow2(a + b) == 2 * Pow2(a - 1 + b);
      assert Pow2(a + b) == 2 * (Pow2(a - 1) * Pow2(b));
    }
  }

  lemma {:induction false} Pow2Monotone(a: nat, b: nat)
    requires a <= b
    ensures Pow2(a) <= Pow2(b)
  {
    if a < b {
      Pow2Monotone(a, b - 1);
    }
  }

  /** The remainder by 2^k, split off one low bit at a time. */
  lemma ModPow2Step(a: int, k: nat)
    requires k > 0
    ensures a % Pow2(k) == 2 * ((a / 2) % Pow2(k - 1)) + a % 2
    ensures a / Pow2(k) == (a / 2) / Pow2(k - 1)
  {
    var p := Pow2(k - 1);
    var q, r := (a / 2) / p, (a / 2) % p;
    assert a / 2 == p * q + r;
    assert a == 2 * (a / 2) + a % 2;
    assert a == q * (2 * p) + (2 * r + a % 2) by {
      assert 2 * (p * q) == q * (2 * p);
    }
    DivModUnique(a, 2 * p, q, 2 * r + a % 2);
  }

  lemma ModDrop(a: int, d: int, m: int)
    requires d > 0
    ensures (a + m * d) % d == a % d
    ensures (a + m * d) / d == a / d + m
  {
    assert a + m * d == (a / d + m) * d + a % d by {
      assert a == (a / d) * d + a % d;
      assert (a / d + m) * d == (a / d) * d + m * d;
    }
    DivModUnique(a + m * d, d, a / d + m, a % d);
  }

  lemma Pow2Values()
    ensures Pow2(0) == 1 && Pow2(1) == 2 && Pow2(4) == 0x10 && Pow2(6) == 0x40 && Pow2(7) == 0x80
    ensures Pow2(8) == 0x100 && Pow2(14) == 0x4000 && Pow2(15) == 0x8000 && Pow2(16) == 0x1_0000
    ensures Pow2(20) == 0x10_0000 && Pow2(24) == 0x100_0000 && Pow2(30) == 0x4000_0000
    ensures Pow2(31) == 0x8000_0000 && Pow2(32) == 0x1_0000_0000
    ensures Pow2(64) == 0x1_0000_0000_0000_0000
  {
    assert Pow2(6) == 0x40 && Pow2(7) == 0x80 && Pow2(8) == 0x100;
    Pow2Add(7, 7);
    Pow2Add(8, 7);
    Pow2Add(8, 8);
    Pow2Add(4, 16);
    Pow2Add(8, 16);
    Pow2Add(6, 24);
    Pow2Add(7, 24);
    Pow2Add(16, 16);
    Pow2Add(32, 32);
  }

  lemma {:induction false} FromBitsBelow(bits: seq<bool>)
    ensures FromBits(bits) < Pow2(|bits|)
  {
    if |bits| > 0 {
      FromBitsBelow(bits[1..]);
    }
  }

  lemma FromBits32(bits: seq<bool>)
    requires |bits| == 32
    ensures FromBits(bits) < 0x1_0000_0000
  {
    FromBitsBelow(bits);
    Pow2Values();
  }

  // One step of each operator: the low bit, and the same operator on the halves.
  lemma {:induction false} AndStep(w: nat, a: int, b: int)
    requires w > 0
    ensures BitAnd(w, a, b) == 2 * BitAnd(w - 1, a / 2, b / 2) + (if a % 2 == 1 && b % 2 == 1 then 1 else 0)
  {
    var s := seq(w, i requires 0 <= i => Bit(a, i) == 1 && Bit(b, i) == 1);
    assert s[1..] == seq(w - 1, i requires 0 <= i => Bit(a / 2, i) == 1 && Bit(b / 2, i) == 1);
  }

  lemma {:induction false} OrStep(w: nat, a: int, b: int)
    requires w > 0
    ensures BitOr(w, a, b) == 2 * BitOr(w - 1, a / 2, b / 2) + (if a % 2 == 1 || b % 2 == 1 then 1 else 0)
  {
    var s := seq(w, i requires 0 <= i => Bit(a, i) == 1 || Bit(b, i) == 1);
    assert s[1..] == seq(w - 1, i requires 0 <= i => Bit(a / 2, i) == 1 || Bit(b / 2, i) == 1);
  }

  lemma {:induction false} XorStep(w: nat, a: int, b: int)
    requires w > 0
    ensures BitXor(w, a, b) == 2 * BitXor(w - 1, a / 2, b / 2) + (if a % 2 != b % 2 then 1 else 0)
  {
    var s := seq(w, i requires 0 <= i => Bit(a, i) != Bit(b, i));
    assert s[1..] == seq(w - 1, i requires 0 <= i => Bit(a / 2, i) != Bit(b / 2, i));
  }

  // ----- The bitwise operators in terms of arithmetic
  //
  // Each lemma takes the powers of two it mentions as arguments, so that a caller can pass
  // numerals and keep its own arithmetic linear.

  /** `a & (2^k - 1)` is the remainder by 2^k. */
  lemma {:induction false} AndLowMask(w: nat, a: int, k: nat, p: int)
    requires k <= w
    requires p == Pow2(k)
    ensures BitAnd(w, a, p - 1) == a % p
  {
    if k == 0 {
      AndZero(w, a);
    } else {
      AndStep(w, a, p - 1);
      AndLowMask(w - 1, a / 2, k - 1, p / 2);
      ModPow2Step(a, k);
    }
  }

  lemma {:induction false} AndZero(w: nat, a: int)
    ensures BitAnd(w, a, 0) == 0
  {
    if w > 0 {
      AndStep(w, a, 0);
      AndZero(w - 1, a / 2);
    }
  }

  /** `a & ~(2^k - 1)` clears the low k bits. */
  lemma {:induction false} AndHighMask(w: nat, a: int, wp: int, k: nat, p: int)
    requires k <= w
    requires wp == Pow2(w) && p == Pow2(k)
    ensures BitAnd(w, a, wp - p) == a % wp - a % p
  {
    if w == 0 {
    } else if k == 0 {
      AndLowMask(w, a, w, wp);
    } else {
      AndStep(w, a, wp - p);
      AndHighMask(w - 1, a / 2, wp / 2, k - 1, p / 2);
      ModPow2Step(a, w);
      ModPow2Step(a, k);
    }
  }

  /** `|` of a multiple of 2^k with a value below 2^k adds the two. */
  lemma {:induction false} OrDisjoint(w: nat, a: int, b: int, wp: int, k: nat, p: int)
    requires k <= w
    requires wp == Pow2(w) && p == Pow2(k)
    requires a % p == 0 && 0 <= b < p
    ensures BitOr(w, a, b) == (a + b) % wp
  {
    if k == 0 {
      OrZero(w, a, wp);
    } else {
      ModPow2Step(a, k);
      OrStep(w, a, b);
      OrDisjoint(w - 1, a / 2, b / 2, wp / 2, k - 1, p / 2);
      ModPow2Step(a + b, w);
    }
  }

  lemma {:induction false} OrZero(w: nat, a: int, wp: int)
    requires wp == Pow2(w)
    ensures BitOr(w, a, 0) == a % wp
  {
    if w > 0 {
      OrStep(w, a, 0);
      OrZero(w - 1, a / 2, wp / 2);
      ModPow2Step(a, w);
    }
  }

  /** `^` with 0 keeps the word and `^` with -1 complements it. */
  lemma {:induction false} XorSignWord(w: nat, a: int, s: int, wp: int)
    requires wp == Pow2(w)
    requires s == 0 || s == -1
    ensures BitXor(w, a, s) == if s == 0 then a % wp else wp - 1 - a % wp
  {
    if w > 0 {
      XorStep(w, a, s);
      XorSignWord(w - 1, a / 2, s, wp / 2);
      ModPow2Step(a, w);
    }
  }

  // ----- Words as sequences of bits

  lemma {:induction false} BitOfMod(x: int, k: nat, i: nat)
    ensures Bit(x % Pow2(k), i) == if i < k then Bit(x, i) else 0
    decreases k
  {
    if k == 0 {
      BitOfZero(i);
    } else {
      ModPow2Step(x, k);
      if i > 0 {
        assert (x % Pow2(k)) / 2 == (x / 2) % Pow2(k - 1);
        BitOfMod(x / 2, k - 1, i - 1);
      }
    }
  }

  lemma {:induction false} BitOfZero(i: nat)
    ensures Bit(0, i) == 0
  {
    if i > 0 {
      BitOfZero(i - 1);
    }
  }

  lemma {:induction false} BitOfShr(x: int, k: nat, i: nat)
    ensures Bit(x / Pow2(k), i) == Bit(x, i + k)
    decreases k
  {
    if k > 0 {
      ModPow2Step(x, k);
      BitOfShr(x / 2, k - 1, i);
    }
  }

  lemma {:induction false} BitOfShl(x: int, k: nat, i: nat)
    ensures Bit(x * Pow2(k), i) == if i < k then 0 else Bit(x, i - k)
    decreases k
  {
    if k > 0 {
      assert x * Pow2(k) == 2 * (x * Pow2(k - 1));
      if i > 0 {
        BitOfShl(x, k - 1, i - 1);
      }
    }
  }

  lemma {:induction false} BitOfFromBits(bits: seq<bool>, i: nat)
    ensures Bit(FromBits(bits), i) == if i < |bits| && bits[i] then 1 else 0
    decreases |bits|
  {
    if |bits| == 0 {
      BitOfZero(i);
    } else if i > 0 {
      BitOfFromBits(bits[1..], i - 1);
    }
  }

  lemma {:induction false} BitOfOr(w: nat, a: int, b: int, i: nat)
    ensures Bit(BitOr(w, a, b), i) == if i < w && (Bit(a, i) == 1 || Bit(b, i) == 1) then 1 else 0
  {
    BitOfFromBits(seq(w, j requires 0 <= j => Bit(a, j) == 1 || Bit(b, j) == 1), i);
  }

  /** Two w-bit words with the same bits are the same word. */
  lemma {:induction false} WordExtensionality(w: nat, a: int, b: int)
    requires 0 <= a < Pow2(w) && 0 <= b < Pow2(w)
    requires forall i: nat :: i < w ==> Bit(a, i) == Bit(b, i)
    ensures a == b
  {
    if w > 0 {
      assert Bit(a, 0) == Bit(b, 0);
      forall i: nat | i < w - 1
        ensures Bit(a / 2, i) == Bit(b / 2, i)
      {
        assert Bit(a, i + 1) == Bit(b, i + 1);
      }
      WordExtensionality(w - 1, a / 2, b / 2);
    }
  }
}
