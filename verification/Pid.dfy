/**
 The incremental PID controller: one step in Q15 (scalar and SIMD form) and Q31, and what
 whole runs of steps compute.

     y[n] = y[n-1] + A0 * x[n] + A1 * x[n-1] + A2 * x[n-2]
 */
module Pid {
  import opened Words
  import opened Saturation
  import opened Simd

  datatype Gains = Gains(a0: int, a1: int, a2: int)

  /** The three state words: the last two inputs and the last output. */
  datatype State = State(x1: int, x2: int, y: int)

  const RESET := State(0, 0, 0)

  predicate IsQ15Gains(g: Gains)
  {
    -0x8000 <= g.a0 < 0x8000 && -0x8000 <= g.a1 < 0x8000 && -0x8000 <= g.a2 < 0x8000
  }

  predicate IsQ15State(s: State)
  {
    -0x8000 <= s.x1 < 0x8000 && -0x8000 <= s.x2 < 0x8000 && -0x8000 <= s.y < 0x8000
  }

  /** The weighted sum of the three latest inputs, in units of 2^-15 (or 2^-31) of an output step. */
  function Weighted(g: Gains, s: State, x: int): int
  {
    g.a0 * x + g.a1 * s.x1 + g.a2 * s.x2
  }

  /** The next output before any limiting, with scale d. */
  function NextOutput(g: Gains, s: State, x: int, d: int): int
    requires d > 0
  {
    s.y + Weighted(g, s, x) / d
  }

  function Advance(s: State, x: int, y: int): State { State(x, s.x1, y) }

  // ----- Q15, scalar form

  /** The clamped difference equation. */
  function StepQ15(g: Gains, s: State, x: int): State
  {
    Advance(s, x, Clamp16(NextOutput(g, s, x, 0x8000)))
  }

  lemma WeightedRange(g: Gains, s: State, x: Q15)
    requires IsQ15Gains(g) && IsQ15State(s)
    ensures -0x4000_0000 <= g.a0 * x <= 0x4000_0000
    ensures -0x4000_0000 <= g.a1 * s.x1 <= 0x4000_0000
    ensures -0x4000_0000 <= g.a2 * s.x2 <= 0x4000_0000
  {
    LaneProduct(g.a0, x);
    LaneProduct(g.a1, s.x1);
    LaneProduct(g.a2, s.x2);
  }

  /** The accumulated sum, y included, is the next output scaled up; it needs no rounding of y. */
  lemma AccumulatorToOutput(y: Q15, w: int)
    requires -0x1_C000_0000 <= w <= 0x1_C000_0000
    ensures ToInt64(w + ToInt32(y * 0x8000)) == w + y * 0x8000
    ensures ToInt32((w + y * 0x8000) / 0x8000) == y + w / 0x8000
  {
  }

  /** The products fit 32 bits and their sums 64 bits. */
  lemma NoOverflow(p0: int, p1: int, p2: int)
    requires -0x4000_0000 <= p0 <= 0x4000_0000
    requires -0x4000_0000 <= p1 <= 0x4000_0000
    requires -0x4000_0000 <= p2 <= 0x4000_0000
    ensures ToInt32(p0) == p0 && ToInt32(p1) == p1 && ToInt32(p2) == p2
    ensures ToInt64(p0 + p1) == p0 + p1 && ToInt64(p0 + p1 + p2) == p0 + p1 + p2
  {
  }

  /** The accumulator as the source builds it up, cast by cast. */
  function ScalarAccumulator(g: Gains, s: State, x: int): int64
  {
    var acc0 := ToInt32(g.a0 * x);
    var acc1 := ToInt64(acc0 + ToInt32(g.a1 * s.x1));
    var acc2 := ToInt64(acc1 + ToInt32(g.a2 * s.x2));
    ToInt64(acc2 + ToInt32(s.y * 0x8000))
  }

  lemma SumRange(g: Gains, s: State, x: Q15)
    requires IsQ15Gains(g) && IsQ15State(s)
    ensures -0xC000_0000 <= Weighted(g, s, x) <= 0xC000_0000
    ensures -0x1_C000_0000 <= SimdWeighted(g, s, x) <= 0x1_C000_0000
  {
    WeightedRange(g, s, x);
  }

  /** No cast of a scalar step changes its value, and the output is the clamped sum. */
  lemma ScalarOutput(g: Gains, s: State, x: Q15)
    requires IsQ15Gains(g) && IsQ15State(s)
    ensures ScalarAccumulator(g, s, x) == Weighted(g, s, x) + s.y * 0x8000
    ensures Clamp16(ToInt32(ScalarAccumulator(g, s, x) / 0x8000)) == StepQ15(g, s, x).y
  {
    hide ToInt32, ToInt64, Clamp16;
    assert ToInt64(ToInt64(ToInt32(g.a0 * x) + ToInt32(g.a1 * s.x1)) + ToInt32(g.a2 * s.x2)) == Weighted(g, s, x) by {
      WeightedRange(g, s, x);
      NoOverflow(g.a0 * x, g.a1 * s.x1, g.a2 * s.x2);
    }
    SumRange(g, s, x);
    hide Weighted, SimdWeighted;
    AccumulatorToOutput(s.y, Weighted(g, s, x));
  }

  class PidQ15 {
    var A0: Q15
    var A1: Q15
    var A2: Q15
    var state: array<Q15>

    ghost predicate Valid()
      reads this
    {
      state.Length == 3
    }

    function G(): Gains
      reads this
    {
      Gains(A0, A1, A2)
    }

    function S(): State
      requires Valid()
      reads this, state
    {
      State(state[0], state[1], state[2])
    }

    constructor (a0: Q15, a1: Q15, a2: Q15)
      ensures Valid() && fresh(state)
      ensures G() == Gains(a0, a1, a2) && S() == RESET
    {
      A0, A1, A2 := a0, a1, a2;
      state := new Q15[3](_ => 0);
    }

    /** `arm_pid_q15`, 64-bit accumulation and saturation of the output. */
    method Process(x: Q15) returns (out: Q15)
      requires Valid()
      modifies state
      ensures Valid()
      ensures S() == StepQ15(old(G()), old(S()), x)
      ensures out == S().y
    {
      hide ToInt32, ToInt64, Clamp16, NextOutput;
      ScalarOutput(G(), S(), x);
      var acc: int := ToInt32(A0 * x);
      acc := ToInt64(acc + ToInt32(A1 * state[0]));
      acc := ToInt64(acc + ToInt32(A2 * state[1]));
      acc := ToInt64(acc + ToInt32(state[2] as int * 0x8000));
      assert acc == ScalarAccumulator(G(), S(), x);
      out := SaturatedOutput(acc);
      state[1] := state[0];
      state[0] := x;
      state[2] := out;
    }
  }

  /** `(q15_t)(__SSAT((acc >> 15), 16))` */
  method SaturatedOutput(acc: int64) returns (out: Q15)
    ensures out == Clamp16(ToInt32(acc / 0x8000))
  {
    var r := SSat(ToInt32(acc / 0x8000), 16);
    SSat16(ToInt32(acc / 0x8000));
    out := ToInt16(r);
  }

  // ----- Runs

  function RunQ15(g: Gains, s: State, xs: seq<int>): State
  {
    if |xs| == 0 then s else StepQ15(g, RunQ15(g, s, xs[..|xs| - 1]), xs[|xs| - 1])
  }

  /** The run with outputs of unlimited size. */
  function IdealRun(g: Gains, s: State, xs: seq<int>, d: int): State
    requires d > 0
  {
    if |xs| == 0 then s
    else
      var before := IdealRun(g, s, xs[..|xs| - 1], d);
      var x := xs[|xs| - 1];
      Advance(before, x, NextOutput(g, before, x, d))
  }

  /** No output of the run reaches beyond 16 bits. */
  ghost predicate NeverSaturates(g: Gains, s: State, xs: seq<int>)
  {
    forall n :: 0 < n <= |xs| ==> -0x8000 <= IdealRun(g, s, xs[..n], 0x8000).y < 0x8000
  }

  lemma {:induction false} UnsaturatedRunIsIdeal(g: Gains, s: State, xs: seq<int>)
    requires NeverSaturates(g, s, xs)
    ensures RunQ15(g, s, xs) == IdealRun(g, s, xs, 0x8000)
  {
    if |xs| > 0 {
      var before := xs[..|xs| - 1];
      assert xs[..|xs|] == xs;
      forall n | 0 < n <= |before|
        ensures -0x8000 <= IdealRun(g, s, before[..n], 0x8000).y < 0x8000
      {
        assert before[..n] == xs[..n];
      }
      UnsaturatedRunIsIdeal(g, s, before);
    }
  }

  // ----- The positional form

  datatype Constants = Constants(kp: int, ki: int, kd: int)

  /** A0 = Kp + Ki + Kd, A1 = -Kp - 2 Kd, A2 = Kd. */
  function DerivedGains(k: Constants): Gains
  {
    Gains(k.kp + k.ki + k.kd, -k.kp - 2 * k.kd, k.kd)
  }

  function Sum(xs: seq<int>): int
  {
    if |xs| == 0 then 0 else Sum(xs[..|xs| - 1]) + xs[|xs| - 1]
  }

  /** Input k steps before the last one, 0 before the run started. */
  function Recent(xs: seq<int>, k: nat): int
  {
    if k < |xs| then xs[|xs| - 1 - k] else 0
  }

  /** The textbook controller: proportional, integral and derivative terms of the inputs so far. */
  function Positional(k: Constants, xs: seq<int>): int
  {
    k.kp * Recent(xs, 0) + k.ki * Sum(xs) + k.kd * (Recent(xs, 0) - Recent(xs, 1))
  }

  lemma {:induction false} IdealRunHistory(g: Gains, xs: seq<int>, d: int)
    requires d > 0
    ensures IdealRun(g, RESET, xs, d).x1 == Recent(xs, 0)
    ensures IdealRun(g, RESET, xs, d).x2 == Recent(xs, 1)
  {
    if |xs| > 0 {
      IdealRunHistory(g, xs[..|xs| - 1], d);
    }
  }

  lemma PositionalIncrement(k: Constants, x0: int, x1: int, x2: int, sum: int)
    ensures k.kp * x0 + k.ki * (sum + x0) + k.kd * (x0 - x1)
         == k.kp * x1 + k.ki * sum + k.kd * (x1 - x2)
            + ((k.kp + k.ki + k.kd) * x0 + (-k.kp - 2 * k.kd) * x1 + k.kd * x2)
  {
  }

  /**
   From reset, n steps of the incremental controller are below the positional one by less than
   n units of the last place: each step truncates once, and nothing else is lost.
   */
  lemma {:induction false} IdealRunTracksPositional(k: Constants, xs: seq<int>, d: int)
    requires d > 0
    ensures 0 <= Positional(k, xs) - d * IdealRun(DerivedGains(k), RESET, xs, d).y <= |xs| * (d - 1)
  {
    if |xs| > 0 {
      var g := DerivedGains(k);
      var before, x := xs[..|xs| - 1], xs[|xs| - 1];
      IdealRunTracksPositional(k, before, d);
      IdealRunHistory(g, before, d);
      var s := IdealRun(g, RESET, before, d);
      var w := Weighted(g, s, x);
      assert Positional(k, xs) == Positional(k, before) + w by {
        PositionalIncrement(k, x, s.x1, s.x2, Sum(before));
      }
      TruncatedStep(d, s.y, w, Positional(k, before), |before|);
    }
  }

  lemma TruncatedStep(d: int, y: int, w: int, p: int, n: nat)
    requires d > 0
    requires 0 <= p - d * y <= n * (d - 1)
    ensures 0 <= p + w - d * (y + w / d) <= (n + 1) * (d - 1)
  {
    assert d * (y + w / d) == d * y + d * (w / d);
    assert (n + 1) * (d - 1) == n * (d - 1) + (d - 1);
  }

  /** The Q15 controller tracks the positional one over every run in which it never saturates. */
  lemma PidQ15TracksPositional(k: Constants, xs: seq<int>)
    requires NeverSaturates(DerivedGains(k), RESET, xs)
    ensures 0 <= Positional(k, xs) - 0x8000 * RunQ15(DerivedGains(k), RESET, xs).y <= |xs| * 0x7FFF
  {
    UnsaturatedRunIsIdeal(DerivedGains(k), RESET, xs);
    hide IdealRun, RunQ15, Positional;
    IdealRunTracksPositional(k, xs, 0x8000);
  }

  // ----- Q15, SIMD form

  predicate IsMinimal(v: int) { v == -0x8000 }

  /** All four lanes of the second product pair at -2^15: their 32-bit sum overflows. */
  predicate PairOverflows(g: Gains, s: State)
  {
    IsMinimal(g.a1) && IsMinimal(g.a2) && IsMinimal(s.x1) && IsMinimal(s.x2)
  }

  /** The sign-extended high halves of A0 and the input multiply to one when both are negative. */
  function SignCarry(a0: int, x: int): int
  {
    if a0 < 0 && x < 0 then 1 else 0
  }

  function SimdWeighted(g: Gains, s: State, x: int): int
  {
    Weighted(g, s, x) + SignCarry(g.a0, x) - (if PairOverflows(g, s) then 0x1_0000_0000 else 0)
  }

  function StepQ15Simd(g: Gains, s: State, x: int): State
  {
    Advance(s, x, Clamp16(s.y + SimdWeighted(g, s, x) / 0x8000))
  }

  /** Two adjacent halfwords of memory read as one little-endian word. */
  function LoadPair(first: int16, second: int16): uint32
  {
    first % 0x1_0000 + second % 0x1_0000 * 0x1_0000
  }

  lemma LoadPairLanes(first: int16, second: int16)
    ensures IsHalves(LoadPair(first, second), first, second)
  {
    hide Half;
    HalfOfSigned(first);
    HalfOfSigned(second);
    HalvesOfSum(second % 0x1_0000, first % 0x1_0000);
    ToInt16Is(first, first, 0);
    ToInt16Is(second, second, 0);
    hide ToInt16;
  }

  lemma SignExtendedLanes(v: int16)
    ensures IsHalves(ToUint32(v), v, if v < 0 then -1 else 0)
  {
  }

  /** `(q31_t)__SMUAD((uint32_t)A0, (uint32_t)in)` */
  lemma FirstProduct(a0: Q15, x: Q15)
    ensures ToInt32(Smuad(ToUint32(a0), ToUint32(x))) == a0 * x + SignCarry(a0, x)
  {
    SignExtendedLanes(a0);
    SignExtendedLanes(x);
    hide Smuad, Half, ToInt32, ToUint32;
    DualMultiplyAddExactlyWhen(ToUint32(a0), ToUint32(x));
  }

  /** `(q63_t)__SMLALD(A1, *vstate, (uint64_t)acc)` */
  lemma SecondProduct(packed: uint32, word: uint32, acc: int32, g: Gains, s: State)
    requires IsQ15Gains(g) && IsQ15State(s)
    requires IsHalves(packed, g.a1, g.a2) && IsHalves(word, s.x1, s.x2)
    ensures ToInt64(Smlald(packed, word, ToUint64(acc)))
         == acc + g.a1 * s.x1 + g.a2 * s.x2 - (if PairOverflows(g, s) then 0x1_0000_0000 else 0)
  {
    LongAccumulateExactlyWhen(packed, word, ToUint64(acc));
    LaneProduct(g.a1, s.x1);
    LaneProduct(g.a2, s.x2);
    hide Smlald, Half;
    var sum := g.a1 * s.x1 + g.a2 * s.x2 - (if PairOverflows(g, s) then 0x1_0000_0000 else 0);
    AccumulateSigned(sum, acc);
  }

  lemma AccumulateSigned(sum: int, acc: int32)
    requires -0x1_8000_0000 <= sum <= 0x1_8000_0000
    ensures ToInt64(ToUint64(sum + ToUint64(acc))) == sum + acc
  {
  }

  function SimdAccumulator(a0: int16, packed: uint32, s0: int16, s1: int16, y: int, x: int16): int64
  {
    var acc0 := ToInt32(Smuad(ToUint32(a0), ToUint32(x)));
    var acc1 := ToInt64(Smlald(packed, LoadPair(s0, s1), ToUint64(acc0)));
    ToInt64(acc1 + ToInt32(y * 0x8000))
  }

  lemma SimdOutput(packed: uint32, g: Gains, s: State, x: Q15)
    requires IsQ15Gains(g) && IsQ15State(s)
    requires IsHalves(packed, g.a1, g.a2)
    ensures Clamp16(ToInt32(SimdAccumulator(g.a0, packed, s.x1, s.x2, s.y, x) / 0x8000)) == StepQ15Simd(g, s, x).y
  {
    hide ToInt32, ToInt64, ToUint32, ToUint64, Clamp16, Half, Smuad, Smlald, LoadPair;
    var acc0 := ToInt32(Smuad(ToUint32(g.a0), ToUint32(x)));
    assert ToInt64(Smlald(packed, LoadPair(s.x1, s.x2), ToUint64(acc0))) == SimdWeighted(g, s, x) by {
      FirstProduct(g.a0, x);
      LoadPairLanes(s.x1, s.x2);
      SecondProduct(packed, LoadPair(s.x1, s.x2), acc0, g, s);
    }
    SumRange(g, s, x);
    hide Weighted, SimdWeighted;
    AccumulatorToOutput(s.y, SimdWeighted(g, s, x));
  }

  lemma PackedGains(a1: Q15, a2: Q15)
    ensures IsHalves(PackBottomTop16(a1, a2), a1, a2)
  {
    hide PackBottomTop16, Half;
    PackBottomTopLanes(a1, a2);
    ToInt16Is(a1, a1, 0);
    ToInt16Is(a2, a2, 0);
  }

  class PidQ15Simd {
    var A0: Q15
    var A1: uint32  // A1 in the low halfword, A2 in the high one
    var state: array<Q15>

    ghost predicate Valid()
      reads this
    {
      state.Length == 3
    }

    function G(): Gains
      reads this
    {
      Gains(A0, Half(A1, 0), Half(A1, 1))
    }

    function S(): State
      requires Valid()
      reads this, state
    {
      State(state[0], state[1], state[2])
    }

    constructor (a0: Q15, a1: Q15, a2: Q15)
      ensures Valid() && fresh(state)
      ensures G() == Gains(a0, a1, a2) && S() == RESET
    {
      hide PackBottomTop16, Half;
      PackedGains(a1, a2);
      A0, A1 := a0, PackBottomTop16(a1, a2);
      state := new Q15[3](_ => 0);
    }

    /** `arm_pid_q15` on the two dual multiplies. */
    method Process(x: Q15) returns (out: Q15)
      requires Valid()
      modifies state
      ensures Valid()
      ensures S() == StepQ15Simd(old(G()), old(S()), x)
      ensures out == S().y
    {
      hide ToInt32, ToInt64, ToUint32, ToUint64, Clamp16, Half, Smuad, Smlald, LoadPair, SimdWeighted;
      SimdOutput(A1, G(), S(), x);
      var acc: int := ToInt32(Smuad(ToUint32(A0), ToUint32(x)));
      acc := ToInt64(Smlald(A1, LoadPair(state[0], state[1]), ToUint64(acc)));
      acc := ToInt64(acc + ToInt32(state[2] as int * 0x8000));
      assert acc == SimdAccumulator(A0, A1, state[0], state[1], state[2], x);
      out := SaturatedOutput(acc);
      state[1] := state[0];
      state[0] := x;
      state[2] := out;
    }
  }

  /**
   One SIMD step equals one scalar step except in two cases: the products of A1, A2 and the old
   inputs overflow together, or the carry of two negative signs reaches the output, which takes a
   remainder of all ones and an output that is not held by the clamp.
   */
  lemma SimdStepEqualsScalarExactlyWhen(g: Gains, s: State, x: Q15)
    requires IsQ15Gains(g) && IsQ15State(s)
    ensures var next := NextOutput(g, s, x, 0x8000);
      StepQ15Simd(g, s, x) == StepQ15(g, s, x) <==>
        && !PairOverflows(g, s)
        && !(g.a0 < 0 && x < 0 && Weighted(g, s, x) % 0x8000 == 0x7FFF && -0x8000 <= next < 0x7FFF)
  {
    WeightedRange(g, s, x);
    var w := Weighted(g, s, x);
    if PairOverflows(g, s) {
      LaneProduct(g.a0, x);
      OverflowShowsInOutput(s.y, g.a0 * x, SignCarry(g.a0, x));
    } else {
      CarryIntoQuotient(w);
    }
  }

  lemma CarryIntoQuotient(w: int)
    ensures (w + 1) / 0x8000 == w / 0x8000 + if w % 0x8000 == 0x7FFF then 1 else 0
  {
  }

  lemma OverflowShowsInOutput(y: Q15, p: int, carry: int)
    requires -0x3FFF_8000 <= p <= 0x4000_0000
    requires carry == 0 || carry == 1
    requires carry == 1 ==> p > 0
    ensures Clamp16(y + (p + 0x8000_0000 + carry - 0x1_0000_0000) / 0x8000) < Clamp16(y + (p + 0x8000_0000) / 0x8000)
  {
  }

  function RunQ15Simd(g: Gains, s: State, xs: seq<int>): State
  {
    if |xs| == 0 then s else StepQ15Simd(g, RunQ15Simd(g, s, xs[..|xs| - 1]), xs[|xs| - 1])
  }

  function NegativeInputs(xs: seq<int>): nat
  {
    if |xs| == 0 then 0 else NegativeInputs(xs[..|xs| - 1]) + if xs[|xs| - 1] < 0 then 1 else 0
  }

  /** Clamping never increases a distance. */
  lemma ClampNonexpansive(a: int, b: int, d: nat)
    requires a <= b <= a + d
    ensures Clamp16(a) <= Clamp16(b) <= Clamp16(a) + d
  {
  }

  /** No step of the run multiplies A1 = A2 = -2^15 by two states of -2^15. */
  ghost predicate NeverPairOverflows(g: Gains, s: State, xs: seq<int>)
  {
    forall n :: 0 <= n < |xs| ==> !PairOverflows(g, RunQ15(g, s, xs[..n]))
  }

  lemma NeverPairOverflowsBefore(g: Gains, s: State, xs: seq<int>)
    requires |xs| > 0 && NeverPairOverflows(g, s, xs)
    ensures NeverPairOverflows(g, s, xs[..|xs| - 1])
    ensures !PairOverflows(g, RunQ15(g, s, xs[..|xs| - 1]))
  {
    var before := xs[..|xs| - 1];
    forall n | 0 <= n < |before|
      ensures !PairOverflows(g, RunQ15(g, s, before[..n]))
    {
      assert before[..n] == xs[..n];
    }
  }

  /**
   Over a whole run the SIMD outputs are never below the scalar ones, and above them by at most
   one unit for every negative input so far, and only when A0 is negative.
   */
  lemma {:induction false} SimdRunTracksScalar(g: Gains, s: State, xs: seq<int>)
    requires NeverPairOverflows(g, s, xs)
    ensures RunQ15Simd(g, s, xs).x1 == RunQ15(g, s, xs).x1
    ensures RunQ15Simd(g, s, xs).x2 == RunQ15(g, s, xs).x2
    ensures 0 <= RunQ15Simd(g, s, xs).y - RunQ15(g, s, xs).y <= if g.a0 < 0 then NegativeInputs(xs) else 0
  {
    if |xs| > 0 {
      var before, x := xs[..|xs| - 1], xs[|xs| - 1];
      NeverPairOverflowsBefore(g, s, xs);
      SimdRunTracksScalar(g, s, before);
      var scalar, simd := RunQ15(g, s, before), RunQ15Simd(g, s, before);
      var w := Weighted(g, scalar, x);
      assert Weighted(g, simd, x) == w;
      CarryIntoQuotient(w);
      ClampNonexpansive(NextOutput(g, scalar, x, 0x8000), simd.y + SimdWeighted(g, simd, x) / 0x8000,
                        simd.y - scalar.y + SignCarry(g.a0, x));
    }
  }

  lemma {:induction false} RunQ15InRange(g: Gains, s: State, xs: seq<Q15>)
    requires IsQ15State(s)
    ensures IsQ15State(RunQ15(g, s, xs))
  {
    if |xs| > 0 {
      RunQ15InRange(g, s, xs[..|xs| - 1]);
      hide NextOutput;
    }
  }

  /** With a non-negative A0 the two forms go through the same states exactly when no pair overflows. */
  lemma SimdRunEqualsScalarRunExactlyWhen(g: Gains, s: State, xs: seq<Q15>)
    requires IsQ15Gains(g) && IsQ15State(s) && g.a0 >= 0
    ensures (forall n :: 0 <= n <= |xs| ==> RunQ15Simd(g, s, xs[..n]) == RunQ15(g, s, xs[..n]))
      <==> NeverPairOverflows(g, s, xs)
  {
    hide RunQ15, RunQ15Simd, StepQ15, StepQ15Simd, PairOverflows;
    if NeverPairOverflows(g, s, xs) {
      forall n | 0 <= n <= |xs|
        ensures RunQ15Simd(g, s, xs[..n]) == RunQ15(g, s, xs[..n])
      {
        assert forall m :: 0 <= m < n ==> xs[..n][..m] == xs[..m];
        SimdRunTracksScalar(g, s, xs[..n]);
      }
    } else {
      var n :| 0 <= n < |xs| && PairOverflows(g, RunQ15(g, s, xs[..n]));
      OverflowSeparatesRuns(g, s, xs, n);
    }
  }

  /** An overflowing pair changes the next output. */
  lemma OverflowSeparatesRuns(g: Gains, s: State, xs: seq<Q15>, n: nat)
    requires IsQ15Gains(g) && IsQ15State(s)
    requires n < |xs| && PairOverflows(g, RunQ15(g, s, xs[..n]))
    ensures !(RunQ15Simd(g, s, xs[..n]) == RunQ15(g, s, xs[..n])
              && RunQ15Simd(g, s, xs[..n + 1]) == RunQ15(g, s, xs[..n + 1]))
  {
    assert xs[..n + 1][..n] == xs[..n];
    RunQ15InRange(g, s, xs[..n]);
    SimdStepEqualsScalarExactlyWhen(g, RunQ15(g, s, xs[..n]), xs[n]);
    hide StepQ15, StepQ15Simd, PairOverflows;
  }

  // ----- Q31

  predicate IsQ31Gains(g: Gains)
  {
    && -0x8000_0000 <= g.a0 < 0x8000_0000
    && -0x8000_0000 <= g.a1 < 0x8000_0000
    && -0x8000_0000 <= g.a2 < 0x8000_0000
  }

  predicate IsQ31State(s: State)
  {
    && -0x8000_0000 <= s.x1 < 0x8000_0000
    && -0x8000_0000 <= s.x2 < 0x8000_0000
    && -0x8000_0000 <= s.y < 0x8000_0000
  }

  /** The difference equation modulo 2^32. */
  function StepQ31(g: Gains, s: State, x: int): State
  {
    Advance(s, x, ToInt32(NextOutput(g, s, x, 0x8000_0000)))
  }

  class PidQ31 {
    var A0: Q31
    var A1: Q31
    var A2: Q31
    var state: array<Q31>

    ghost predicate Valid()
      reads this
    {
      state.Length == 3
    }

    function G(): Gains
      reads this
    {
      Gains(A0, A1, A2)
    }

    function S(): State
      requires Valid()
      reads this, state
    {
      State(state[0], state[1], state[2])
    }

    constructor (a0: Q31, a1: Q31, a2: Q31)
      ensures Valid() && fresh(state)
      ensures G() == Gains(a0, a1, a2) && S() == RESET
    {
      A0, A1, A2 := a0, a1, a2;
      state := new Q31[3](_ => 0);
    }

    /**
     `arm_pid_q31`. The accumulator may overflow 64 bits; the shift turns a lost multiple of 2^64
     into one of 2^33, which the final 32-bit sum cannot see.
     */
    method Process(x: Q31) returns (out: Q31)
      requires Valid()
      modifies state
      ensures Valid()
      ensures S() == StepQ31(old(G()), old(S()), x)
      ensures out == S().y
    {
      hide ToInt32, ToInt64;
      var acc: int := ToInt64(A0 * x);
      acc := ToInt64(acc + ToInt64(A1 * state[0]));
      acc := ToInt64(acc + ToInt64(A2 * state[1]));
      WrapsOnce(A0 * x, A1 * state[0], A2 * state[1]);
      WrapInvisible(Weighted(G(), S(), x), state[2]);
      out := ToInt32(acc / 0x8000_0000);
      out := ToInt32(out as int + state[2]);
      state[1] := state[0];
      state[0] := x;
      state[2] := out;
    }
  }

  lemma WrapsOnce(a: int, b: int, c: int)
    ensures ToInt64(ToInt64(ToInt64(a) + ToInt64(b)) + ToInt64(c)) == ToInt64(a + b + c)
  {
    WrapSum64(ToInt64(a), b);
    WrapSum64(b, a);
    WrapSum64(c, a + b);
    WrapSum64(ToInt64(a + b), c);
  }

  lemma WrapInvisible(w: int, y: Q31)
    ensures ToInt32(ToInt32(ToInt64(w) / 0x8000_0000) + y) == ToInt32(y + w / 0x8000_0000)
  {
    var q, k := w / 0x8000_0000, (w + 0x8000_0000_0000_0000) / 0x1_0000_0000_0000_0000;
    assert ToInt64(w) / 0x8000_0000 == q - k * 0x2_0000_0000;
    hide ToInt32, ToInt64;
    WrapOnce32(q - k * 0x2_0000_0000, y);
    ToInt32Drop(y + q, -2 * k);
  }

  function RunQ31(g: Gains, s: State, xs: seq<int>): State
  {
    if |xs| == 0 then s else StepQ31(g, RunQ31(g, s, xs[..|xs| - 1]), xs[|xs| - 1])
  }

  /**
   Wraps along the way cancel: the output of a run is the ideal output wrapped once, however often
   outputs before it left the 32-bit range.
   */
  lemma {:induction false} RunQ31WrapsOnce(g: Gains, s: State, xs: seq<int>)
    requires IsQ31State(s)
    ensures var ideal := IdealRun(g, s, xs, 0x8000_0000);
      RunQ31(g, s, xs) == State(ideal.x1, ideal.x2, ToInt32(ideal.y))
  {
    if |xs| > 0 {
      var before, x := xs[..|xs| - 1], xs[|xs| - 1];
      RunQ31WrapsOnce(g, s, before);
      var ideal := IdealRun(g, s, before, 0x8000_0000);
      var q := Weighted(g, ideal, x) / 0x8000_0000;
      WrapOnce32(ideal.y, q);
    }
  }

  lemma WrapOnce32(a: int, b: int)
    ensures ToInt32(ToInt32(a) + b) == ToInt32(a + b)
  {
    WrapSum32(a, b);
    WrapSum32(ToInt32(a), b);
  }

  /**
   Hence the Q31 controller tracks the positional one whenever the present output is in range,
   whatever happened before.
   */
  lemma PidQ31TracksPositional(k: Constants, xs: seq<int>)
    requires -0x8000_0000 <= IdealRun(DerivedGains(k), RESET, xs, 0x8000_0000).y < 0x8000_0000
    ensures 0 <= Positional(k, xs) - 0x8000_0000 * RunQ31(DerivedGains(k), RESET, xs).y <= |xs| * 0x7FFF_FFFF
  {
    RunQ31WrapsOnce(DerivedGains(k), RESET, xs);
    var y := IdealRun(DerivedGains(k), RESET, xs, 0x8000_0000).y;
    ToInt32Is(y, y, 0);
    hide IdealRun, RunQ31, Positional, DerivedGains, ToInt32;
    IdealRunTracksPositional(k, xs, 0x8000_0000);
  }

  /**
   The documentation promises saturation to 1.31. The step wraps instead, so it saturates exactly
   when the next output is in range or one full turn past a bound.
   */
  lemma PidQ31SaturatesExactlyWhen(g: Gains, s: State, x: Q31)
    requires IsQ31Gains(g) && IsQ31State(s)
    ensures var next := NextOutput(g, s, x, 0x8000_0000);
      StepQ31(g, s, x).y == Clamp(next, -0x8000_0000, 0x7FFF_FFFF) <==>
        (-0x8000_0000 <= next < 0x8000_0000 || next == 0x1_7FFF_FFFF || next == -0x1_8000_0000)
  {
    var next := NextOutput(g, s, x, 0x8000_0000);
    var w := Weighted(g, s, x);
    assert -0x1_8000_0000 <= w / 0x8000_0000 <= 0x1_8000_0000 by {
      Product31(g.a0, x);
      Product31(g.a1, s.x1);
      Product31(g.a2, s.x2);
    }
    hide Weighted;
    WrapVersusClamp(next);
  }

  lemma Product31(a: Q31, b: Q31)
    ensures -0x4000_0000_0000_0000 <= a * b <= 0x4000_0000_0000_0000
  {
    HighProductBound(a, b);
  }

  lemma WrapVersusClamp(v: int)
    requires -0x2_0000_0000 <= v <= 0x1_FFFF_FFFF
    ensures ToInt32(v) == Clamp(v, -0x8000_0000, 0x7FFF_FFFF) <==>
      (-0x8000_0000 <= v < 0x8000_0000 || v == 0x1_7FFF_FFFF || v == -0x1_8000_0000)
  {
  }

  /** One step from a full positive output to a negative one. */
  lemma PidQ31Wraps()
    ensures StepQ31(Gains(0x7FFF_FFFF, 0, 0), State(0, 0, 0x7FFF_FFFF), 2).y == -0x8000_0000
  {
  }
}
