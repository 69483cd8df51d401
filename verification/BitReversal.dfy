/** Software bit reversal, rotation, and how the two interact. */
module BitReversal {
  import opened Words

  /** The reversal of the low w bits of v, defined one bit at a time. */
  function Reversed(w: nat, v: nat): nat
  {
    if w == 0 then 0 else (v % 2) * Pow2(w - 1) + Reversed(w - 1, v / 2)
  }

  lemma {:induction false} ReversedBelow(w: nat, v: nat)
    ensures Reversed(w, v) < Pow2(w)
  {
    if w > 0 {
      ReversedBelow(w - 1, v / 2);
      assert v % 2 == 0 || v % 2 == 1;
    }
  }

  /** Bit i of the reversal is bit w-1-i of the word, for every width. */
  lemma {:induction false} ReversedBits(w: nat, v: nat, i: nat)
    requires i < w
    ensures Bit(Reversed(w, v), i) == Bit(v, w - 1 - i)
  {
    var p, rest := Pow2(w - 1), Reversed(w - 1, v / 2);
    ReversedBelow(w - 1, v / 2);
    assert Reversed(w, v) == (v % 2) * p + rest;
    hide Reversed, Pow2;
    DivModUnique(Reversed(w, v), p, v % 2, rest);
    if i == w - 1 {
      BitOfShr(Reversed(w, v), w - 1, 0);
    } else {
      BitOfMod(Reversed(w, v), w - 1, i);
      ReversedBits(w - 1, v / 2, i);
    }
  }

  /** Reversing twice gives the word back. */
  lemma ReversalIsInvolution(w: nat, v: nat)
    requires v < Pow2(w)
    ensures Reversed(w, v) < Pow2(w)
    ensures Reversed(w, Reversed(w, v)) == v
  {
    var r := Reversed(w, v);
    ReversedBelow(w, v);
    ReversedBelow(w, r);
    forall i: nat | i < w
      ensures Bit(Reversed(w, r), i) == Bit(v, i)
    {
      ReversedBits(w, r, i);
      ReversedBits(w, v, w - 1 - i);
    }
    WordExtensionality(w, Reversed(w, r), v);
  }

  /** One round of the loop moves one bit from v into the result. */
  lemma ReversalStep(r: uint32, v: nat, s: nat, goal: int)
    requires s > 0
    requires (r * Pow2(s) + Reversed(s, v)) % 0x1_0000_0000 == goal
    ensures var r' := ToUint32(r * 2) + v % 2;
      (r' * Pow2(s - 1) + Reversed(s - 1, v / 2)) % 0x1_0000_0000 == goal
  {
    var p, rest := Pow2(s - 1), Reversed(s - 1, v / 2);
    assert Pow2(s) == 2 * p;
    assert Reversed(s, v) == (v % 2) * p + rest;
    hide Pow2, Reversed;
    ShiftIn(r, p, v % 2, rest);
  }

  lemma ShiftIn(r: int, p: int, b: int, rest: int)
    ensures ((r * 2 % 0x1_0000_0000 + b) * p + rest) % 0x1_0000_0000
         == (r * (2 * p) + (b * p + rest)) % 0x1_0000_0000
  {
    var k, low := r * 2 / 0x1_0000_0000, r * 2 % 0x1_0000_0000;
    assert r * (2 * p) == low * p + (k * p) * 0x1_0000_0000 by {
      assert r * (2 * p) == (r * 2) * p;
      assert r * 2 == low + k * 0x1_0000_0000;
      assert (low + k * 0x1_0000_0000) * p == low * p + (k * p) * 0x1_0000_0000;
    }
    assert (low + b) * p == low * p + b * p;
    ModDrop(low * p + b * p + rest, 0x1_0000_0000, k * p);
  }

  lemma HalfBelow(v: nat, s: nat)
    requires v < Pow2(s) && v != 0
    ensures s > 0 && v / 2 < Pow2(s - 1)
  {
  }

  lemma AppendLowBit(r: uint32, v: nat)
    ensures Or32(ToUint32(r * 2), And32(v, 1)) == ToUint32(r * 2) + v % 2
  {
    assert Pow2(1) == 2 && Pow2(32) == 0x1_0000_0000 by { Pow2Values(); }
    AndLowMask(32, v, 1, 2);
    OrDisjoint(32, ToUint32(r * 2), v % 2, 0x1_0000_0000, 1, 2);
  }

  lemma {:induction false} ReversedZero(w: nat)
    ensures Reversed(w, 0) == 0
  {
    if w > 0 {
      ReversedZero(w - 1);
    }
  }

  /** `__RBIT`: stops as soon as no bits are left and makes up the missing shifts at the end. */
  method Rbit(value: uint32) returns (result: uint32)
    ensures result == Reversed(32, value)
    ensures forall i: nat :: i < 32 ==> Bit(result, i) == Bit(value, 31 - i)
  {
    hide Pow2, Reversed, Bit, And32, Or32;
    var s := 31;
    var v: uint32 := value;
    result := v;
    v := v / 2;
    InitialRound(value);
    while v != 0
      invariant 0 <= s <= 31
      invariant v < Pow2(s)
      invariant (result * Pow2(s) + Reversed(s, v)) % 0x1_0000_0000 == Reversed(32, value)
      decreases v
    {
      HalfBelow(v, s);
      ReversalStep(result, v, s, Reversed(32, value));
      AppendLowBit(result, v);
      result := ToUint32(result * 2);
      result := Or32(result, And32(v, 1));
      s := s - 1;
      v := v / 2;
    }
    ReversedZero(s);
    result := ToUint32(result * Pow2(s));
    forall i: nat | i < 32
      ensures Bit(result, i) == Bit(value, 31 - i)
    {
      ReversedBits(32, value, i);
    }
  }

  /** Before the loop the result still holds the whole word; only its lowest bit will survive. */
  lemma InitialRound(value: uint32)
    ensures value / 2 < Pow2(31)
    ensures (value * Pow2(31) + Reversed(31, value / 2)) % 0x1_0000_0000 == Reversed(32, value)
  {
    var rest := Reversed(31, value / 2);
    assert Pow2(31) == 0x8000_0000 && Pow2(32) == 0x1_0000_0000 by { Pow2Values(); }
    ReversedBelow(32, value);
    UnfoldReversed(value);
    hide Pow2, Reversed;
    ModDrop(Reversed(32, value), 0x1_0000_0000, value / 2);
    DivModUnique(Reversed(32, value), 0x1_0000_0000, 0, Reversed(32, value));
  }

  lemma UnfoldReversed(value: uint32)
    ensures Reversed(32, value) == value % 2 * Pow2(31) + Reversed(31, value / 2)
  {
  }

  /** `__ROR`; a count of 0 would shift left by 32, which C leaves undefined. */
  function Ror(x: uint32, k: nat): uint32
    requires 0 < k < 32
  {
    Or32(x / Pow2(k), ToUint32(x * Pow2(32 - k)))
  }

  /** Bit i of the rotation is bit i+k, taken cyclically. */
  lemma RorBits(x: uint32, k: nat, i: nat)
    requires 0 < k < 32 && i < 32
    ensures Bit(Ror(x, k), i) == Bit(x, (i + k) % 32)
  {
    hide Bit, Pow2;
    assert Pow2(32) == 0x1_0000_0000 by { Pow2Values(); }
    BitOfOr(32, x / Pow2(k), ToUint32(x * Pow2(32 - k)), i);
    BitOfShr(x, k, i);
    BitOfMod(x * Pow2(32 - k), 32, i);
    BitOfShl(x, 32 - k, i);
    hide Or32, BitOr;
    assert Ror(x, k) == BitOr(32, x / Pow2(k), ToUint32(x * Pow2(32 - k))) by { UnfoldRor(x, k); }
    hide Ror;
    BitIsBinary(x, (i + k) % 32);
    if i + k >= 32 {
      BitBeyondWord(x, i + k);
    }
  }

  lemma UnfoldRor(x: uint32, k: nat)
    requires 0 < k < 32
    ensures Ror(x, k) == BitOr(32, x / Pow2(k), ToUint32(x * Pow2(32 - k)))
  {
  }

  lemma BitBeyondWord(x: uint32, i: nat)
    requires i >= 32
    ensures Bit(x, i) == 0
  {
    assert Pow2(32) == 0x1_0000_0000 by { Pow2Values(); }
    BitOfMod(x, 32, i);
    DivModUnique(x, 0x1_0000_0000, 0, x);
  }

  lemma {:induction false} BitIsBinary(x: int, i: nat)
    ensures Bit(x, i) == 0 || Bit(x, i) == 1
    decreases i
  {
    if i > 0 {
      BitIsBinary(x / 2, i - 1);
    }
  }

  lemma SameBits(a: uint32, b: uint32)
    requires forall i: nat :: i < 32 ==> Bit(a, i) == Bit(b, i)
    ensures a == b
  {
    assert Pow2(32) == 0x1_0000_0000 by { Pow2Values(); }
    WordExtensionality(32, a, b);
  }

  /** Rotations compose by adding their counts modulo 32. */
  lemma RorComposes(x: uint32, j: nat, k: nat)
    requires 0 < j < 32 && 0 < k < 32
    ensures Ror(Ror(x, j), k) == if (j + k) % 32 == 0 then x else Ror(x, (j + k) % 32)
  {
    hide Ror, Bit, Pow2;
    var n := (j + k) % 32;
    forall i: nat | i < 32
      ensures Bit(Ror(Ror(x, j), k), i) == Bit(if n == 0 then x else Ror(x, n), i)
    {
      RorBits(Ror(x, j), k, i);
      RorBits(x, j, (i + k) % 32);
      CyclicIndex(i, j, k);
      if n != 0 {
        RorBits(x, n, i);
      }
    }
    SameBits(Ror(Ror(x, j), k), if n == 0 then x else Ror(x, n));
  }

  lemma CyclicIndex(i: nat, j: nat, k: nat)
    requires i < 32 && j < 32 && k < 32
    ensures ((i + k) % 32 + j) % 32 == (i + (j + k) % 32) % 32
  {
    var a, b := (i + k) / 32, (j + k) / 32;
    ModDrop((i + k) % 32 + j, 32, a);
    ModDrop(i + (j + k) % 32, 32, b);
  }

  function Reverse32(x: uint32): uint32
  {
    ReversedBelow(32, x);
    assert Pow2(32) == 0x1_0000_0000 by { Pow2Values(); }
    Reversed(32, x)
  }

  /** Reversal turns a rotation to the right into one to the left. */
  lemma ReversalMirrorsRotation(x: uint32, k: nat)
    requires 0 < k < 32
    ensures Reverse32(Ror(x, k)) == Ror(Reverse32(x), 32 - k)
  {
    hide Ror, Bit, Reversed, Pow2;
    forall i: nat | i < 32
      ensures Bit(Reverse32(Ror(x, k)), i) == Bit(Ror(Reverse32(x), 32 - k), i)
    {
      ReversedBits(32, Ror(x, k), i);
      RorBits(x, k, 31 - i);
      RorBits(Reverse32(x), 32 - k, i);
      ReversedBits(32, x, (i + 32 - k) % 32);
      assert 31 - (i + 32 - k) % 32 == (31 - i + k) % 32;
    }
    SameBits(Reverse32(Ror(x, k)), Ror(Reverse32(x), 32 - k));
  }
}
