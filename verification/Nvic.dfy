/**
 Interrupt priorities of the nested vectored interrupt controller (section B1.5.4 of the
 ARMv7-M Architecture Reference Manual, ARM DDI 0403): grouping, and the priority registers.

 `bits` is the number of priority bits that the device implements, 1 to 8.
 */
module Nvic {
  import opened Words

  type PrioBits = n: int | 1 <= n <= 8 witness 4

  // ----- Grouping

  /** `PriorityGroup & 7` */
  function GroupOf(group: uint32): uint32 { And32(group, 7) }

  function PreemptBits(group: uint32, bits: PrioBits): nat
  {
    GroupRange(group);
    if 7 - GroupOf(group) > bits then bits else 7 - GroupOf(group)
  }

  /** The subtraction of 7 wraps below zero and the addition brings it back. */
  function SubBits(group: uint32, bits: PrioBits): nat
  {
    if GroupOf(group) + bits < 7 then 0 else ToUint32(ToUint32(GroupOf(group) - 7) + bits)
  }

  lemma GroupRange(group: uint32)
    ensures GroupOf(group) == group % 8
  {
    assert Pow2(3) == 8;
    AndLowMask(32, group, 3, 8);
  }

  /** At most 7 - group bits preempt; a higher group leaves more of them to the sub field. */
  function PreemptWidth(group: uint32, bits: PrioBits): nat { Min(bits, 7 - group % 8) }

  function SubWidth(group: uint32, bits: PrioBits): nat { Max(0, bits + group % 8 - 7) }

  /** The computed widths are these, and share the implemented bits between them, whatever the group. */
  lemma FieldsShareBits(group: uint32, bits: PrioBits)
    ensures PreemptBits(group, bits) == PreemptWidth(group, bits)
    ensures SubBits(group, bits) == SubWidth(group, bits)
    ensures PreemptBits(group, bits) + SubBits(group, bits) == bits
    ensures PreemptBits(group, bits) <= 7
  {
    GroupRange(group);
    hide GroupOf;
  }

  datatype Priority = Priority(preempt: int, sub: int)

  function EncodePriority(group: uint32, p: Priority, bits: PrioBits): uint32
  {
    var preemptBits, subBits := PreemptBits(group, bits), SubBits(group, bits);
    Or32(ToUint32(And32(p.preempt, ToUint32(Pow2(preemptBits) - 1)) * Pow2(subBits)),
         And32(p.sub, ToUint32(Pow2(subBits) - 1)))
  }

  /** The two results that the source stores through pointers. */
  function DecodePriority(value: uint32, group: uint32, bits: PrioBits): Priority
  {
    var preemptBits, subBits := PreemptBits(group, bits), SubBits(group, bits);
    Priority(And32(value / Pow2(subBits), ToUint32(Pow2(preemptBits) - 1)),
             And32(value, ToUint32(Pow2(subBits) - 1)))
  }

  /** Both fields cut down to their widths. */
  function Reduced(p: Priority, group: uint32, bits: PrioBits): Priority
  {
    Priority(p.preempt % Pow2(PreemptWidth(group, bits)), p.sub % Pow2(SubWidth(group, bits)))
  }

  predicate Before(p: Priority, q: Priority)
  {
    p.preempt < q.preempt || (p.preempt == q.preempt && p.sub < q.sub)
  }

  lemma MaskField(x: int, k: nat)
    requires k <= 8
    ensures 1 <= Pow2(k) <= 0x100
    ensures And32(x, ToUint32(Pow2(k) - 1)) == x % Pow2(k)
  {
    assert Pow2(8) == 0x100;
    Pow2Monotone(k, 8);
    AndLowMask(32, x, k, Pow2(k));
  }

  /** The encoded value is the reduced preempt field above the reduced sub field. */
  lemma EncodedValue(group: uint32, p: Priority, bits: PrioBits)
    ensures var r := Reduced(p, group, bits);
      EncodePriority(group, p, bits) == r.preempt * Pow2(SubWidth(group, bits)) + r.sub < Pow2(bits)
  {
    FieldsShareBits(group, bits);
    hide PreemptBits, SubBits, PreemptWidth, SubWidth, And32, Or32;
    var pb, sb := PreemptBits(group, bits), SubBits(group, bits);
    MaskField(p.preempt, pb);
    MaskField(p.sub, sb);
    Pow2Add(pb, sb);
    assert Pow2(bits) <= 0x100 by { MaskField(0, bits); }
    FieldsBelow(p.preempt % Pow2(pb), p.sub % Pow2(sb), Pow2(pb), Pow2(sb));
    OrFields(p.preempt % Pow2(pb), p.sub % Pow2(sb), sb);
  }

  lemma FieldsBelow(a: int, b: int, pa: int, pb: int)
    requires 0 <= a < pa && 0 <= b < pb
    ensures 0 <= a * pb <= a * pb + b < pa * pb
  {
    assert (pa - 1 - a) * pb >= 0;
    assert (pa - 1 - a) * pb == pa * pb - pb - a * pb;
  }

  lemma OrFields(a: int, b: int, sb: nat)
    requires 0 <= a && 0 <= b < Pow2(sb) && sb <= 32 && a * Pow2(sb) + b < 0x100
    ensures Or32(ToUint32(a * Pow2(sb)), b) == a * Pow2(sb) + b
  {
    hide Or32, Pow2;
    var p := Pow2(sb);
    assert a * p >= 0;
    var high := a * p;
    DivModUnique(high, p, a, 0);
    OrSmall(high, b, sb, p);
  }

  lemma OrSmall(high: int, b: int, sb: nat, p: int)
    requires sb <= 32 && p == Pow2(sb)
    requires 0 <= high && high % p == 0 && 0 <= b < p && high + b < 0x100
    ensures Or32(ToUint32(high), b) == high + b
  {
    hide Pow2, Or32, ToUint32;
    assert Pow2(32) == 0x1_0000_0000 by { Pow2Values(); }
    OrDisjoint(32, high, b, 0x1_0000_0000, sb, p);
    SmallWord(high);
    SmallWord(high + b);
    assert Or32(high, b) == BitOr(32, high, b) by { UnfoldOr(high, b); }
    hide BitOr;
  }

  lemma SmallWord(v: int)
    requires 0 <= v < 0x100
    ensures ToUint32(v) == v && v % 0x1_0000_0000 == v
  {
  }

  lemma UnfoldOr(a: int, b: int)
    ensures Or32(a, b) == BitOr(32, a, b)
  {
  }

  /** The decoded fields of any value are its digits, reduced to their widths. */
  lemma DecodedValue(value: uint32, group: uint32, bits: PrioBits)
    ensures DecodePriority(value, group, bits)
         == Reduced(Priority(value / Pow2(SubWidth(group, bits)), value), group, bits)
  {
    FieldsShareBits(group, bits);
    hide PreemptBits, SubBits, PreemptWidth, SubWidth, And32;
    MaskField(value / Pow2(SubBits(group, bits)), PreemptBits(group, bits));
    MaskField(value, SubBits(group, bits));
  }

  /** Decoding what was encoded gives both fields, reduced to their widths. */
  lemma DecodeEncode(group: uint32, p: Priority, bits: PrioBits)
    ensures DecodePriority(EncodePriority(group, p, bits), group, bits) == Reduced(p, group, bits)
  {
    EncodedValue(group, p, bits);
    DecodedValue(EncodePriority(group, p, bits), group, bits);
    hide PreemptBits, SubBits, PreemptWidth, SubWidth, EncodePriority, DecodePriority;
    var r, pa, pb := Reduced(p, group, bits), Pow2(PreemptWidth(group, bits)), Pow2(SubWidth(group, bits));
    DivModUnique(r.preempt * pb + r.sub, pb, r.preempt, r.sub);
    DivModUnique(r.preempt, pa, 0, r.preempt);
  }

  /** Encoding what was decoded gives the value back, reduced to the implemented bits. */
  lemma EncodeDecode(value: uint32, group: uint32, bits: PrioBits)
    ensures EncodePriority(group, DecodePriority(value, group, bits), bits) == value % Pow2(bits)
    ensures value < Pow2(bits) ==> EncodePriority(group, DecodePriority(value, group, bits), bits) == value
  {
    var d := DecodePriority(value, group, bits);
    DecodedValue(value, group, bits);
    EncodedValue(group, d, bits);
    FieldsShareBits(group, bits);
    hide PreemptBits, SubBits, PreemptWidth, SubWidth, EncodePriority, DecodePriority;
    var pb, sb := PreemptBits(group, bits), SubBits(group, bits);
    var pa, ps := Pow2(pb), Pow2(sb);
    Pow2Add(pb, sb);
    hide Pow2;
    Recombine(value, pa, ps);
  }

  /** Taking two fields of a value apart and putting them together again. */
  lemma Recombine(value: nat, pa: int, ps: int)
    requires pa > 0 && ps > 0
    ensures pa * ps > 0
    ensures value / ps % pa % pa == value / ps % pa && value % ps % ps == value % ps
    ensures value / ps % pa * ps + value % ps == value % (pa * ps)
    ensures value < pa * ps ==> value % (pa * ps) == value
  {
    var high := value / ps;
    var a, b := high % pa, value % ps;
    DivModUnique(a, pa, 0, a);
    DivModUnique(b, ps, 0, b);
    FieldsBelow(a, b, pa, ps);
    Regroup(value, high, high / pa, a, b, pa, ps);
    DivModUnique(value, pa * ps, high / pa, a * ps + b);
    if value < pa * ps {
      DivModUnique(value, pa * ps, 0, value);
    }
  }

  lemma Regroup(value: int, high: int, q: int, a: int, b: int, pa: int, ps: int)
    requires value == high * ps + b && high == q * pa + a
    ensures value == q * (pa * ps) + (a * ps + b)
  {
    assert (q * pa + a) * ps == q * (pa * ps) + a * ps;
  }

  /** Encoded values are ordered as their fields are, preempt first. */
  lemma EncodedOrder(group: uint32, p: Priority, q: Priority, bits: PrioBits)
    ensures EncodePriority(group, p, bits) < EncodePriority(group, q, bits)
      <==> Before(Reduced(p, group, bits), Reduced(q, group, bits))
  {
    EncodedValue(group, p, bits);
    EncodedValue(group, q, bits);
    hide EncodePriority, SubWidth, PreemptWidth;
    var ps := Pow2(SubWidth(group, bits));
    var r, t := Reduced(p, group, bits), Reduced(q, group, bits);
    assert 0 <= r.sub < ps && 0 <= t.sub < ps;
    Lexicographic(r.preempt, r.sub, t.preempt, t.sub, ps);
  }

  lemma Apart(a: int, c: int, p: int)
    requires a < c && p > 0
    ensures a * p + p <= c * p
  {
    assert (c - a - 1) * p >= 0;
    assert (c - a - 1) * p == c * p - a * p - p;
  }

  lemma Lexicographic(a: int, b: int, c: int, d: int, p: int)
    requires 0 <= b < p && 0 <= d < p
    ensures a * p + b < c * p + d <==> (a < c || (a == c && b < d))
  {
    if a < c {
      Apart(a, c, p);
    } else if a > c {
      Apart(c, a, p);
    }
  }

  // ----- The priority registers

  /** `(priority << (8 - bits)) & 0xff` */
  function Stored(priority: uint32, bits: PrioBits): uint8
  {
    ByteMask(ToUint32(priority * Pow2(8 - bits)));
    And32(ToUint32(priority * Pow2(8 - bits)), 0xFF)
  }

  function Loaded(byte: uint8, bits: PrioBits): int { byte / Pow2(8 - bits) }

  lemma ByteMask(x: int)
    ensures And32(x, 0xFF) == x % 0x100
  {
    assert Pow2(8) == 0x100;
    AndLowMask(32, x, 8, 0x100);
  }

  /** The byte holds the implemented bits at its top; the unimplemented ones read as zero. */
  lemma StoredValue(priority: uint32, bits: PrioBits)
    ensures Stored(priority, bits) == priority % Pow2(bits) * Pow2(8 - bits)
    ensures Loaded(Stored(priority, bits), bits) == priority % Pow2(bits)
  {
    var up, p := Pow2(8 - bits), Pow2(bits);
    Pow2Add(bits, 8 - bits);
    assert Pow2(8) == 0x100;
    ByteMask(ToUint32(priority * up));
    hide And32, Pow2;
    LowByteOfWord(priority * up);
    ShiftedByte(priority, p, up);
  }

  lemma LowByteOfWord(x: int)
    ensures ToUint32(x) % 0x100 == x % 0x100
  {
  }

  /** Shifting left by the unimplemented bits and cutting to a byte keeps the implemented bits. */
  lemma ShiftedByte(priority: nat, p: int, up: int)
    requires p > 0 && up > 0 && p * up == 0x100
    ensures priority * up % 0x100 == priority % p * up
    ensures priority % p * up / up == priority % p
  {
    var q, r := priority / p, priority % p;
    FieldsBelow(r, 0, p, up);
    Regroup(priority * up, priority, q, r, 0, p, up);
    DivModUnique(priority * up, 0x100, q, r * up);
    DivModUnique(r * up, up, r, 0);
  }

  /** The registers compare as the priorities do, so as (preempt, sub) pairs. */
  lemma RegisterOrder(group: uint32, p: Priority, q: Priority, bits: PrioBits)
    ensures Stored(EncodePriority(group, p, bits), bits) < Stored(EncodePriority(group, q, bits), bits)
      <==> Before(Reduced(p, group, bits), Reduced(q, group, bits))
  {
    EncodedOrder(group, p, q, bits);
    EncodedValue(group, p, bits);
    EncodedValue(group, q, bits);
    hide EncodePriority, Stored, Reduced, PreemptWidth, SubWidth;
    var a, b := EncodePriority(group, p, bits), EncodePriority(group, q, bits);
    StoredValue(a, bits);
    StoredValue(b, bits);
    DivModUnique(a, Pow2(bits), 0, a);
    DivModUnique(b, Pow2(bits), 0, b);
    Lexicographic(a, 0, b, 0, Pow2(8 - bits));
  }

  /** Interrupt numbers with a priority register: system handlers below zero, devices from zero on. */
  predicate HasPriority(irq: int) { -12 <= irq < 240 }

  /** `((uint32_t)IRQn & 0xF) - 4` */
  function HandlerIndex(irq: int): int { And32(ToUint32(irq), 0xF) - 4 }

  lemma HandlerIndexValue(irq: int)
    requires -12 <= irq < 0
    ensures HandlerIndex(irq) == irq + 12
  {
    assert Pow2(4) == 0x10;
    AndLowMask(32, ToUint32(irq), 4, 0x10);
    assert ToUint32(irq) % 0x10 == irq + 16;
  }

  class Controller {
    const bits: PrioBits
    const SHP: array<uint8>
    const IP: array<uint8>

    ghost predicate Valid()
    {
      SHP.Length == 12 && IP.Length == 240 && SHP != IP
    }

    constructor (bits: PrioBits)
      ensures Valid() && fresh(SHP) && fresh(IP)
      ensures this.bits == bits
    {
      this.bits := bits;
      SHP := new uint8[12](_ => 0);
      IP := new uint8[240](_ => 0);
    }

    /** The register of an interrupt. */
    ghost function Register(irq: int): uint8
      requires Valid() && HasPriority(irq)
      reads SHP, IP
    {
      if irq < 0 then SHP[irq + 12] else IP[irq]
    }

    /** `NVIC_SetPriority` */
    method SetPriority(irq: int, priority: uint32)
      requires Valid() && HasPriority(irq)
      modifies SHP, IP
      ensures irq < 0 ==> SHP[irq + 12] == priority % Pow2(bits) * Pow2(8 - bits)
      ensures irq >= 0 ==> IP[irq] == priority % Pow2(bits) * Pow2(8 - bits)
      ensures Loaded(Register(irq), bits) == priority % Pow2(bits)
      ensures forall i :: 0 <= i < 12 && i != irq + 12 ==> SHP[i] == old(SHP[i])
      ensures forall i :: 0 <= i < 240 && i != irq ==> IP[i] == old(IP[i])
      ensures forall other :: HasPriority(other) && other != irq ==> Register(other) == old(Register(other))
    {
      hide Stored, HandlerIndex, Pow2;
      StoredValue(priority, bits);
      if irq < 0 {
        HandlerIndexValue(irq);
        SHP[HandlerIndex(irq)] := Stored(priority, bits);
      } else {
        IP[irq] := Stored(priority, bits);
      }
    }

    /** `NVIC_GetPriority` */
    method GetPriority(irq: int) returns (priority: int)
      requires Valid() && HasPriority(irq)
      ensures irq < 0 ==> priority == SHP[irq + 12] / Pow2(8 - bits)
      ensures irq >= 0 ==> priority == IP[irq] / Pow2(8 - bits)
      ensures priority == Loaded(Register(irq), bits)
    {
      hide HandlerIndex;
      if irq < 0 {
        HandlerIndexValue(irq);
        priority := SHP[HandlerIndex(irq)] / Pow2(8 - bits);
      } else {
        priority := IP[irq] / Pow2(8 - bits);
      }
    }
  }

  /** An encoded priority survives its register, and decoding it gives the reduced fields. */
  lemma PriorityRoundTrip(group: uint32, p: Priority, bits: PrioBits)
    ensures Loaded(Stored(EncodePriority(group, p, bits), bits), bits) == EncodePriority(group, p, bits)
    ensures DecodePriority(EncodePriority(group, p, bits), group, bits) == Reduced(p, group, bits)
  {
    EncodedValue(group, p, bits);
    DecodeEncode(group, p, bits);
    hide EncodePriority, DecodePriority, Stored, Loaded, Reduced, PreemptWidth, SubWidth;
    var a := EncodePriority(group, p, bits);
    StoredValue(a, bits);
    DivModUnique(a, Pow2(bits), 0, a);
  }
}
