/** The Clarke and Park transforms of motor control in Q31, and their inverses. */
module Transforms {
  import opened Words
  import opened Saturation

  predicate InRange(v: int) { -0x8000_0000 <= v < 0x8000_0000 }

  function Clamp32(x: int): Q31 { Clamp(x, -0x8000_0000, 0x7FFF_FFFF) }

  /** `(q31_t)(((q63_t)a * b) >> 31)` */
  function Mul31(a: Q31, b: Q31): Q31 { ToInt32(ToInt64(a * b) / 0x8000_0000) }

  /** `(q31_t)(((q63_t)a * b) >> 30)` */
  function Mul30(a: Q31, b: Q31): Q31 { ToInt32(ToInt64(a * b) / 0x4000_0000) }

  /** The only product of two 1.31 values that does not fit: -1.0 times -1.0. */
  predicate Full(a: Q31, b: Q31) { a == -0x8000_0000 && b == -0x8000_0000 }

  lemma Mul31Value(a: Q31, b: Q31)
    requires !Full(a, b)
    ensures Mul31(a, b) == a * b / 0x8000_0000
    ensures 0 <= a * b - 0x8000_0000 * Mul31(a, b) < 0x8000_0000
  {
    assert -0x3FFF_FFFF_8000_0000 <= a * b <= 0x3FFF_FFFF_8000_0000 by { ProductFits(a, b); }
    hide Mul31;
    ShiftInRange(a * b);
    assert Mul31(a, b) == ToInt32(ToInt64(a * b) / 0x8000_0000) by { UnfoldMul31(a, b); }
  }

  lemma ProductFits(a: Q31, b: Q31)
    requires !Full(a, b)
    ensures -0x3FFF_FFFF_8000_0000 <= a * b <= 0x3FFF_FFFF_8000_0000
  {
    var m, n := if a < 0 then 0 - a else a, if b < 0 then 0 - b else b;
    SignedProduct(a, b);
    if n < 0x8000_0000 {
      MulBound(m, n, 0x8000_0000, 0x7FFF_FFFF);
    } else {
      MulBound(m, n, 0x7FFF_FFFF, 0x8000_0000);
    }
  }

  /** What the cast of a product takes off. */
  function ExcessOf(a: Q31, b: Q31): int { if Full(a, b) then 0x1_0000_0000 else 0 }

  /** For every pair of operands: exact, or -2^31 instead of 2^31. */
  lemma Mul31Cases(a: Q31, b: Q31)
    ensures Full(a, b) ==> a * b / 0x8000_0000 == 0x8000_0000
    ensures Mul31(a, b) == a * b / 0x8000_0000 - ExcessOf(a, b)
  {
    if Full(a, b) {
      FullScaleProductWraps();
    } else {
      Mul31Value(a, b);
    }
    hide Mul31;
  }

  lemma FullScaleProductWraps()
    ensures Mul31(-0x8000_0000, -0x8000_0000) == -0x8000_0000
  {
    assert (-0x8000_0000) * (-0x8000_0000) == 0x4000_0000_0000_0000;
  }

  lemma UnfoldMul31(a: Q31, b: Q31)
    ensures Mul31(a, b) == ToInt32(ToInt64(a * b) / 0x8000_0000)
  {
  }

  lemma SignedProduct(a: int, b: int)
    ensures (if a < 0 then 0 - a else a) * (if b < 0 then 0 - b else b) == if a * b < 0 then 0 - a * b else a * b
  {
  }

  lemma ShiftInRange(p: int)
    requires -0x3FFF_FFFF_8000_0000 <= p <= 0x3FFF_FFFF_8000_0000
    ensures ToInt32(ToInt64(p) / 0x8000_0000) == p / 0x8000_0000
    ensures 0 <= p - 0x8000_0000 * (p / 0x8000_0000) < 0x8000_0000
  {
  }

  // ----- Clarke

  datatype TwoPhase = TwoPhase(alpha: Q31, beta: Q31)

  datatype ThreePhase = ThreePhase(a: Q31, b: Q31)

  // 0x24F34E8B and 0x49E69D16 are 1/sqrt(3) and 2/sqrt(3) in 2.30 format,
  // 0x40000000 and 0x6ED9EBA1 are 1/2 and sqrt(3)/2 in 1.31 format.

  /** `arm_clarke_q31` */
  function Clarke(i: ThreePhase): TwoPhase
  {
    TwoPhase(i.a, QAdd(Mul30(i.a, 0x24F3_4E8B), Mul30(i.b, 0x49E6_9D16)))
  }

  /** `arm_inv_clarke_q31` */
  function InvClarke(v: TwoPhase): ThreePhase
  {
    ThreePhase(v.alpha, QSub(Mul31(v.beta, 0x6ED9_EBA1), Mul31(v.alpha, 0x4000_0000)))
  }

  /** The beta component before saturation. */
  function ClarkeBeta(i: ThreePhase): int
  {
    i.a * 0x24F3_4E8B / 0x4000_0000 + i.b * 0x49E6_9D16 / 0x4000_0000
  }

  /** The b component before saturation. */
  function InvClarkeB(v: TwoPhase): int
  {
    v.beta * 0x6ED9_EBA1 / 0x8000_0000 - v.alpha / 2
  }

  /** 2/sqrt(3) * b still fits 32 bits. */
  predicate SmallB(b: int) { -1859775393 <= b <= 1859775393 }

  lemma ClarkeProducts(i: ThreePhase)
    ensures Mul30(i.a, 0x24F3_4E8B) == i.a * 0x24F3_4E8B / 0x4000_0000
    ensures Mul30(i.b, 0x49E6_9D16) == ToInt32(i.b * 0x49E6_9D16 / 0x4000_0000)
    ensures SmallB(i.b) <==> InRange(i.b * 0x49E6_9D16 / 0x4000_0000)
    ensures -2479700525 <= i.b * 0x49E6_9D16 / 0x4000_0000 <= 2479700525
    ensures -0x49E6_9D16 <= i.a * 0x24F3_4E8B / 0x4000_0000 <= 0x49E6_9D16
  {
    Widen(i.a * 0x24F3_4E8B);
    Widen(i.b * 0x49E6_9D16);
    hide ToInt64;
  }

  lemma Widen(p: int)
    requires -0x4000_0000_0000_0000 <= p <= 0x4000_0000_0000_0000
    ensures ToInt64(p) == p
  {
  }

  /** What a cast to 32 bits takes off a value less than 2^32 away from the range. */
  function Excess(v: int): int
  {
    if v >= 0x8000_0000 then 0x1_0000_0000 else if v < -0x8000_0000 then -0x1_0000_0000 else 0
  }

  /** Beta for every input: the clamped sum, after a large second product has lost 2^32. */
  lemma ClarkeBetaExactly(i: ThreePhase)
    ensures Clarke(i).alpha == i.a
    ensures Clarke(i).beta == Clamp32(ClarkeBeta(i) - Excess(i.b * 0x49E6_9D16 / 0x4000_0000))
  {
    ClarkeProducts(i);
    hide Mul30, QAdd;
    var q := i.b * 0x49E6_9D16 / 0x4000_0000;
    ToInt32Is(q, q - Excess(q), Excess(q) / 0x1_0000_0000);
  }

  /**
   The comment on saturating addition rules out overflow, but the cast of the second product is
   not saturating: the result is the clamped sum exactly when b is at most sqrt(3)/2 of full scale.
   */
  lemma ClarkeSaturatesExactlyWhen(i: ThreePhase)
    ensures Clarke(i).beta == Clamp(ClarkeBeta(i), -0x8000_0000, 0x7FFF_FFFF) <==> SmallB(i.b)
  {
    ClarkeProducts(i);
    hide Mul30, QAdd;
    var p := i.b * 0x49E6_9D16 / 0x4000_0000;
    if p >= 0x8000_0000 {
      ToInt32Is(p, p - 0x1_0000_0000, 1);
    } else if p < -0x8000_0000 {
      ToInt32Is(p, p + 0x1_0000_0000, -1);
    }
  }

  lemma InvClarkeProducts(v: TwoPhase)
    ensures Mul31(v.beta, 0x6ED9_EBA1) == v.beta * 0x6ED9_EBA1 / 0x8000_0000
    ensures Mul31(v.alpha, 0x4000_0000) == v.alpha / 2
  {
    Mul31Value(v.beta, 0x6ED9_EBA1);
    Mul31Value(v.alpha, 0x4000_0000);
  }

  /** The rounded constants and the four truncations together move b by at most three units. */
  lemma ClarkeRounding(a: int, b: int, p: int, q: int, r: int)
    requires InRange(a) && SmallB(b)
    requires p == a * 0x24F3_4E8B / 0x4000_0000 && q == b * 0x49E6_9D16 / 0x4000_0000
    requires r == (p + q) * 0x6ED9_EBA1 / 0x8000_0000
    ensures -3 <= r - a / 2 - b <= 1
  {
  }

  /**
   Clarke and back: a exactly, b within [-3, 1], for every pair of currents whose forward
   transform is not saturated or wrapped.
   */
  lemma ClarkeRoundTrip(i: ThreePhase)
    requires SmallB(i.b) && InRange(ClarkeBeta(i))
    ensures InvClarke(Clarke(i)).a == i.a
    ensures -3 <= InvClarke(Clarke(i)).b - i.b <= 1
  {
    ClarkeSaturatesExactlyWhen(i);
    var v := Clarke(i);
    hide Clarke, Mul31, QAdd, QSub;
    assert v.alpha == i.a && v.beta == ClarkeBeta(i) by { UnfoldClarke(i); }
    InvClarkeProducts(v);
    ClarkeRounding(i.a, i.b, i.a * 0x24F3_4E8B / 0x4000_0000, i.b * 0x49E6_9D16 / 0x4000_0000,
                   v.beta * 0x6ED9_EBA1 / 0x8000_0000);
  }

  // The documented transforms use sqrt(3), given here as the positive real whose square is 3.

  lemma RootThree(root: real)
    requires root > 0.0 && root * root == 3.0
    ensures 619925131.12 < root * 0x4000_0000 as real / 3.0 < 619925131.14
    ensures 1859775393.36 < root * 0x4000_0000 as real < 1859775393.40
  {
    SquareOrder(root, 1.73205080756);
    SquareOrder(1.73205080757, root);
  }

  lemma SquareOrder(a: real, b: real)
    ensures 0.0 <= a <= b ==> a * a <= b * b
  {
    if 0.0 <= a <= b {
      assert a * a <= a * b <= b * b;
    }
  }

  lemma RealProductBound(m: real, bound: real, d: real, hi: real)
    requires -bound <= m <= bound && 0.0 <= d <= hi
    ensures -(bound * hi) <= m * d <= bound * hi
  {
    assert bound * d <= bound * hi;
    assert -bound * d <= m * d <= bound * d;
  }

  /** Beta is within (-3, 1) of the documented (a + 2b) / sqrt(3), for every unsaturated input. */
  lemma ClarkeAccurate(i: ThreePhase, root: real)
    requires root > 0.0 && root * root == 3.0
    requires SmallB(i.b) && InRange(ClarkeBeta(i))
    ensures Clarke(i).alpha == i.a
    ensures -3.0 < Clarke(i).beta as real - (i.a + 2 * i.b) as real / root < 1.0
  {
    ClarkeSaturatesExactlyWhen(i);
    UnfoldClarke(i);
    hide Clarke;
    RootThree(root);
    var m, d := i.a + 2 * i.b, root * 0x4000_0000 as real / 3.0 - 619925131.0;
    RealProductBound(m as real, 5867034434.0, d, 0.14);
    QuotientByRoot(m as real, root);
    Truncations(i.a, i.b);
    ScaledQuotient(m as real, root, d);
  }

  lemma Truncations(a: int, b: int)
    ensures var p, q := a * 0x24F3_4E8B, b * 0x49E6_9D16;
      p + q == (a + 2 * b) * 619925131
      && p + q - 2 * 0x4000_0000 < 0x4000_0000 * (p / 0x4000_0000 + q / 0x4000_0000) <= p + q
  {
  }

  lemma QuotientByRoot(m: real, root: real)
    requires root > 0.0 && root * root == 3.0
    ensures m / root == m * root / 3.0
  {
    assert m * root == m / root * (root * root);
  }

  lemma ScaledQuotient(m: real, root: real, d: real)
    requires d == root * 0x4000_0000 as real / 3.0 - 619925131.0
    ensures 0x4000_0000 as real * (m * root / 3.0) == m * 619925131.0 + m * d
  {
  }

  /** And b is within (-2, 1) of the documented -a/2 + sqrt(3)/2 * beta. */
  lemma InvClarkeAccurate(v: TwoPhase, root: real)
    requires root > 0.0 && root * root == 3.0
    requires InRange(InvClarkeB(v))
    ensures -2.0 < InvClarke(v).b as real - (root / 2.0 * v.beta as real - v.alpha as real / 2.0) < 1.0
  {
    hide InvClarke;
    InvClarkeIsClamped(v);
    InverseByRoot(InvClarke(v).b, v.alpha, v.beta, root);
  }

  /** The products of the inverse never wrap, so it is the clamped difference for every input. */
  lemma InvClarkeIsClamped(v: TwoPhase)
    ensures InvClarke(v).a == v.alpha
    ensures InvClarke(v).b == Clamp32(InvClarkeB(v))
  {
    InvClarkeProducts(v);
    hide Mul31;
  }

  lemma InverseByRoot(b: int, alpha: int, beta: int, root: real)
    requires root > 0.0 && root * root == 3.0
    requires InRange(beta) && b == beta * 0x6ED9_EBA1 / 0x8000_0000 - alpha / 2
    ensures -2.0 < b as real - (root / 2.0 * beta as real - alpha as real / 2.0) < 1.0
  {
    RootThree(root);
    var d := root * 0x4000_0000 as real - 1859775393.0;
    RealProductBound(beta as real, 2147483648.0, d, 0.40);
    InverseTruncations(alpha, beta, b);
    ScaledHalf(beta as real, root, d);
    CloseTo(b, alpha, beta, root / 2.0 * beta as real, beta as real * d);
  }

  lemma CloseTo(b: int, alpha: int, beta: int, half: real, rest: real)
    requires 0x8000_0000 as real * half == beta as real * 1859775393.0 + rest
    requires -859000000.0 < rest < 859000000.0
    requires var exact := beta * 1859775393 - 0x4000_0000 * alpha;
      exact - 0x8000_0000 < 0x8000_0000 * b <= exact + 0x4000_0000
    ensures -2.0 < b as real - (half - alpha as real / 2.0) < 1.0
  {
  }

  lemma InverseTruncations(alpha: int, beta: int, b: int)
    requires b == beta * 0x6ED9_EBA1 / 0x8000_0000 - alpha / 2
    ensures var exact := beta * 1859775393 - 0x4000_0000 * alpha;
      exact - 0x8000_0000 < 0x8000_0000 * b <= exact + 0x4000_0000
  {
  }

  lemma ScaledHalf(m: real, root: real, d: real)
    requires d == root * 0x4000_0000 as real - 1859775393.0
    ensures 0x8000_0000 as real * (root / 2.0 * m) == m * 1859775393.0 + m * d
  {
  }

  lemma UnfoldClarke(i: ThreePhase)
    ensures Clarke(i).alpha == i.a
  {
  }

  /** Currents below half of full scale meet that condition. */
  lemma HalfScaleClarkeIsUnsaturated(i: ThreePhase)
    requires -0x4000_0000 < i.a < 0x4000_0000 && -0x4000_0000 < i.b < 0x4000_0000
    ensures SmallB(i.b) && InRange(ClarkeBeta(i))
  {
  }

  lemma InverseClarkeRounding(a: int, beta: int, h: int, u: int, p: int, q: int)
    requires InRange(a) && InRange(beta)
    requires 2 * h <= a <= 2 * h + 1
    requires 0 <= beta * 0x6ED9_EBA1 - 0x8000_0000 * u < 0x8000_0000
    requires 0 <= a * 0x24F3_4E8B - 0x4000_0000 * p < 0x4000_0000
    requires 0 <= (u - h) * 0x49E6_9D16 - 0x4000_0000 * q < 0x4000_0000
    ensures -4 <= p + q - beta <= 1
  {
    var e1 := a * 0x24F3_4E8B - 0x4000_0000 * p;
    var e2 := (u - h) * 0x49E6_9D16 - 0x4000_0000 * q;
    var e3 := beta * 0x6ED9_EBA1 - 0x8000_0000 * u;
    // 2 * 0x24F34E8B == 0x49E69D16, so alpha cancels up to the bit lost in halving it.
    InverseClarkeErrors(a - 2 * h, beta, p + q - beta, e1 + e2, e3);
  }

  lemma InverseClarkeErrors(odd: int, beta: int, error: int, e12: int, e3: int)
    requires InRange(beta) && 0 <= odd <= 1
    requires 0 <= e12 < 0x8000_0000 && 0 <= e3 < 0x8000_0000
    requires 0x2000_0000_0000_0000 * error
          == -941490986 * beta - 0x49E6_9D16 * e3 + 0x4000_0000 * 0x49E6_9D16 * odd - 0x8000_0000 * e12
    ensures -4 <= error <= 1
  {
  }

  /** The other way round: alpha exactly, beta within [-4, 1]. */
  lemma InverseClarkeRoundTrip(v: TwoPhase)
    requires SmallB(InvClarkeB(v))
    ensures Clarke(InvClarke(v)).alpha == v.alpha
    ensures -4 <= Clarke(InvClarke(v)).beta - v.beta <= 1
  {
    InvClarkeProducts(v);
    hide Mul31, Mul30, QSub, QAdd;
    var i := InvClarke(v);
    assert i.b == InvClarkeB(v);
    ClarkeSaturatesExactlyWhen(i);
    InverseClarkeRounding(v.alpha, v.beta, v.alpha / 2, v.beta * 0x6ED9_EBA1 / 0x8000_0000,
                          v.alpha * 0x24F3_4E8B / 0x4000_0000, i.b * 0x49E6_9D16 / 0x4000_0000);
    hide InvClarke, Clarke;
    UnfoldClarke(i);
  }

  // ----- Park

  datatype Rotor = Rotor(d: Q31, q: Q31)

  /** `arm_park_q31` */
  function Park(v: TwoPhase, sin: Q31, cos: Q31): Rotor
  {
    Rotor(QAdd(Mul31(v.alpha, cos), Mul31(v.beta, sin)), QSub(Mul31(v.beta, cos), Mul31(v.alpha, sin)))
  }

  /** `arm_inv_park_q31` */
  function InvPark(r: Rotor, sin: Q31, cos: Q31): TwoPhase
  {
    TwoPhase(QSub(Mul31(r.d, cos), Mul31(r.q, sin)), QAdd(Mul31(r.q, cos), Mul31(r.d, sin)))
  }

  function ParkD(v: TwoPhase, sin: Q31, cos: Q31): int
  {
    v.alpha * cos / 0x8000_0000 + v.beta * sin / 0x8000_0000
  }

  function ParkQ(v: TwoPhase, sin: Q31, cos: Q31): int
  {
    v.beta * cos / 0x8000_0000 - v.alpha * sin / 0x8000_0000
  }

  /** The square of 1.0 in 1.31 format. */
  const ONE: int := 0x4000_0000_0000_0000

  /** A sine and cosine pair inside or on the unit circle; a sine of -1.0 is one, with cosine 0. */
  predicate IsRotation(sin: Q31, cos: Q31)
  {
    Norm(sin, cos) <= ONE
  }

  function Norm(sin: int, cos: int): int { sin * sin + cos * cos }

  /** None of the four products of a vector and a rotation is -1.0 times -1.0. */
  predicate NoFullProduct(x: Q31, y: Q31, sin: Q31, cos: Q31)
  {
    !Full(x, cos) && !Full(x, sin) && !Full(y, cos) && !Full(y, sin)
  }

  /**
   The comment on saturating addition rules out overflow, but the casts of the products are not
   saturating: a product of -1.0 and -1.0 loses 2^32. A sum is right exactly when neither product is
   that one; a difference also when both are.
   */
  lemma ParkSaturatesExactlyWhen(v: TwoPhase, sin: Q31, cos: Q31)
    ensures Park(v, sin, cos).d == Clamp32(ParkD(v, sin, cos) - ExcessOf(v.alpha, cos) - ExcessOf(v.beta, sin))
    ensures Park(v, sin, cos).q == Clamp32(ParkQ(v, sin, cos) - ExcessOf(v.beta, cos) + ExcessOf(v.alpha, sin))
    ensures Park(v, sin, cos).d == Clamp32(ParkD(v, sin, cos)) <==> !Full(v.alpha, cos) && !Full(v.beta, sin)
    ensures Park(v, sin, cos).q == Clamp32(ParkQ(v, sin, cos)) <==> (Full(v.beta, cos) <==> Full(v.alpha, sin))
  {
    hide Mul31, Full;
    SumOfProducts(v.alpha, cos, v.beta, sin);
    DifferenceOfProducts(v.beta, cos, v.alpha, sin);
  }

  lemma SumOfProducts(a: Q31, b: Q31, c: Q31, d: Q31)
    ensures QAdd(Mul31(a, b), Mul31(c, d))
         == Clamp32(a * b / 0x8000_0000 + c * d / 0x8000_0000 - ExcessOf(a, b) - ExcessOf(c, d))
    ensures QAdd(Mul31(a, b), Mul31(c, d)) == Clamp32(a * b / 0x8000_0000 + c * d / 0x8000_0000)
      <==> !Full(a, b) && !Full(c, d)
  {
    hide Mul31, Full;
    Mul31Cases(a, b);
    Mul31Cases(c, d);
  }

  lemma DifferenceOfProducts(a: Q31, b: Q31, c: Q31, d: Q31)
    ensures QSub(Mul31(a, b), Mul31(c, d))
         == Clamp32(a * b / 0x8000_0000 - c * d / 0x8000_0000 - ExcessOf(a, b) + ExcessOf(c, d))
    ensures QSub(Mul31(a, b), Mul31(c, d)) == Clamp32(a * b / 0x8000_0000 - c * d / 0x8000_0000)
      <==> (Full(a, b) <==> Full(c, d))
  {
    hide Mul31, Full;
    Mul31Cases(a, b);
    Mul31Cases(c, d);
  }

  /** The components of the inverse before saturation. */
  function InvParkAlpha(r: Rotor, sin: Q31, cos: Q31): int
  {
    r.d * cos / 0x8000_0000 - r.q * sin / 0x8000_0000
  }

  function InvParkBeta(r: Rotor, sin: Q31, cos: Q31): int
  {
    r.q * cos / 0x8000_0000 + r.d * sin / 0x8000_0000
  }

  /** The inverse fails in the same way, with the sum and the difference exchanged. */
  lemma InvParkSaturatesExactlyWhen(r: Rotor, sin: Q31, cos: Q31)
    ensures InvPark(r, sin, cos).alpha
         == Clamp32(InvParkAlpha(r, sin, cos) - ExcessOf(r.d, cos) + ExcessOf(r.q, sin))
    ensures InvPark(r, sin, cos).beta == Clamp32(InvParkBeta(r, sin, cos) - ExcessOf(r.q, cos) - ExcessOf(r.d, sin))
    ensures InvPark(r, sin, cos).alpha == Clamp32(InvParkAlpha(r, sin, cos)) <==> (Full(r.d, cos) <==> Full(r.q, sin))
    ensures InvPark(r, sin, cos).beta == Clamp32(InvParkBeta(r, sin, cos)) <==> !Full(r.q, cos) && !Full(r.d, sin)
  {
    hide Mul31, Full;
    DifferenceOfProducts(r.d, cos, r.q, sin);
    SumOfProducts(r.q, cos, r.d, sin);
  }

  /** Turning a vector with beta = -1.0 by 270 degrees, which is on the circle, gives d = -1.0 instead of +1.0. */
  lemma ParkWrapsOnTheCircle(v: TwoPhase, sin: Q31, cos: Q31)
    requires v.beta == -0x8000_0000 && sin == -0x8000_0000 && cos == 0
    ensures IsRotation(sin, cos)
    ensures ParkD(v, sin, cos) == 0x8000_0000
    ensures Park(v, sin, cos).d == -0x8000_0000
  {
    FullSquare(sin, cos);
    hide Mul31, Norm;
    WrappedSum(v.alpha, cos, v.beta, sin);
  }

  lemma FullSquare(sin: Q31, cos: Q31)
    requires sin == -0x8000_0000 && cos == 0
    ensures Norm(sin, cos) == 0x4000_0000_0000_0000
  {
    assert cos * cos == 0;
  }

  lemma WrappedSum(a: Q31, b: Q31, c: Q31, d: Q31)
    requires b == 0 && Full(c, d)
    ensures a * b / 0x8000_0000 + c * d / 0x8000_0000 == 0x8000_0000
    ensures QAdd(Mul31(a, b), Mul31(c, d)) == -0x8000_0000
  {
    assert a * b == 0;
    Mul31Cases(c, d);
    SumOfProducts(a, b, c, d);
    hide Mul31, QAdd;
  }

  /** Each component is the exact rotation rounded down, by less than two units for d and one for q. */
  lemma ParkAccurate(v: TwoPhase, sin: Q31, cos: Q31)
    requires NoFullProduct(v.alpha, v.beta, sin, cos)
    requires InRange(ParkD(v, sin, cos)) && InRange(ParkQ(v, sin, cos))
    ensures var r := Park(v, sin, cos);
      && 0 <= v.alpha * cos + v.beta * sin - 0x8000_0000 * r.d < 2 * 0x8000_0000
      && -0x8000_0000 < v.beta * cos - v.alpha * sin - 0x8000_0000 * r.q < 0x8000_0000
  {
    ParkSaturatesExactlyWhen(v, sin, cos);
    hide Park;
  }

  // The rounding of a rotation and its inverse. t is 2^31; e1 and e2 are the truncations of d and
  // q, u1 and u2 those of the products of the inverse.

  lemma RecoverAlpha(t: int, a: int, b: int, s: int, c: int, d: int, q: int, e1: int, e2: int, u: int, x: int)
    requires t * d == a * c + b * s - e1
    requires t * q == b * c - a * s - e2
    requires t * x == d * c - q * s - u
    ensures a * Norm(s, c) - t * t * x == e1 * c - e2 * s + t * u
  {
    assert t * (t * x) == (t * d) * c - (t * q) * s - t * u;
    assert (a * c + b * s - e1) * c - (b * c - a * s - e2) * s == a * (s * s + c * c) - e1 * c + e2 * s;
  }

  lemma RecoverBeta(t: int, a: int, b: int, s: int, c: int, d: int, q: int, e1: int, e2: int, u: int, y: int)
    requires t * d == a * c + b * s - e1
    requires t * q == b * c - a * s - e2
    requires t * y == q * c + d * s - u
    ensures b * Norm(s, c) - t * t * y == e1 * s + e2 * c + t * u
  {
    assert t * (t * y) == (t * q) * c + (t * d) * s - t * u;
    assert (b * c - a * s - e2) * c + (a * c + b * s - e1) * s == b * (s * s + c * c) - e1 * s - e2 * c;
  }

  /** Cauchy-Schwarz on the truncations: sqrt(5) < 9/4. */
  lemma RotatedError(t: int, e1: int, e2: int, s: int, c: int)
    requires t > 0 && Norm(s, c) <= t * t
    requires 0 <= e1 < 2 * t && -t < e2 < t
    ensures -9 * (t * t) < 4 * (e1 * c - e2 * s) < 9 * (t * t)
    ensures -9 * (t * t) < 4 * (e1 * s + e2 * c) < 9 * (t * t)
  {
    var m, n := e1 * c - e2 * s, e1 * s + e2 * c;
    assert 0 <= Norm(s, c) by {
      Square(s, 0);
      Square(c, 0);
    }
    Lagrange(e1, e2, s, c);
    hide Norm;
    TruncationNorm(t, e1, e2, Norm(s, c));
    BothRoots(m, n, t * t, (e1 * e1 + e2 * e2) * Norm(s, c));
  }

  lemma BothRoots(m: int, n: int, k: int, z: int)
    requires k > 0 && m * m + n * n == z <= 5 * k * k
    ensures -9 * k < 4 * m < 9 * k && -9 * k < 4 * n < 9 * k
  {
    Square(m, 0);
    Square(n, 0);
    RootBound(m, k);
    RootBound(n, k);
  }

  lemma TruncationNorm(t: int, e1: int, e2: int, norm: int)
    requires t > 0 && 0 <= norm <= t * t
    requires 0 <= e1 < 2 * t && -t < e2 < t
    ensures (e1 * e1 + e2 * e2) * norm <= 5 * (t * t) * (t * t)
  {
    Square(e1, 2 * t);
    Square(e2, t);
    MulBound(e1 * e1 + e2 * e2, norm, 5 * (t * t), t * t);
  }

  lemma Lagrange(e1: int, e2: int, s: int, c: int)
    ensures (e1 * c - e2 * s) * (e1 * c - e2 * s) + (e1 * s + e2 * c) * (e1 * s + e2 * c)
         == (e1 * e1 + e2 * e2) * Norm(s, c)
  {
    var p, q, r, w := e1 * c, e2 * s, e1 * s, e2 * c;
    assert p * q == r * w;
    assert (p - q) * (p - q) + (r + w) * (r + w) == p * p + q * q + r * r + w * w;
    assert p * p == (e1 * e1) * (c * c) && q * q == (e2 * e2) * (s * s);
    assert r * r == (e1 * e1) * (s * s) && w * w == (e2 * e2) * (c * c);
  }

  lemma Square(a: int, bound: int)
    ensures 0 <= a * a
    ensures -bound <= a <= bound ==> a * a <= bound * bound
  {
    if -bound <= a <= bound {
      assert (bound - a) * (bound + a) >= 0;
    }
  }

  lemma RootBound(m: int, k: int)
    requires k > 0 && m * m <= 5 * k * k
    ensures -9 * k < 4 * m < 9 * k
  {
    var n := if m < 0 then 0 - m else m;
    assert n * n == m * m;
    if 4 * n >= 9 * k {
      SquareAbove(n, k);
    }
  }

  lemma SquareAbove(n: int, k: int)
    requires k > 0 && 4 * n >= 9 * k
    ensures n * n > 5 * k * k
  {
    assert (4 * n - 9 * k) * (4 * n + 9 * k) >= 0;
    assert 16 * (n * n) >= 81 * (k * k);
  }

  /** Saturating a result moves it towards any target within range. */
  lemma ClampTowards(a: Q31, norm: int, x: int, below: int, above: int)
    requires 0 <= norm <= 0x4000_0000_0000_0000
    requires below < 0 < above
    requires below < 4 * (a * norm - 0x4000_0000_0000_0000 * x) < above
    ensures below < 4 * (a * norm - 0x4000_0000_0000_0000 * Clamp(x, -0x8000_0000, 0x7FFF_FFFF)) < above
  {
    assert -0x8000_0000 * 0x4000_0000_0000_0000 <= a * norm <= 0x7FFF_FFFF * 0x4000_0000_0000_0000 by {
      if a >= 0 {
        MulBound(a, norm, 0x7FFF_FFFF, 0x4000_0000_0000_0000);
      } else {
        MulBound(0 - a, norm, 0x8000_0000, 0x4000_0000_0000_0000);
        assert (0 - a) * norm == 0 - a * norm;
      }
    }
  }

  /** At a sine or cosine of -1.0 the rotated vector is one of the two components, up to sign. */
  lemma NoFullProductInInverse(v: TwoPhase, r: Rotor, sin: Q31, cos: Q31)
    requires IsRotation(sin, cos) && NoFullProduct(v.alpha, v.beta, sin, cos)
    requires r.d == ParkD(v, sin, cos) && r.q == ParkQ(v, sin, cos)
    ensures NoFullProduct(r.d, r.q, sin, cos)
  {
    if sin == -0x8000_0000 {
      OnlyRoot(cos);
      assert r.d == -v.beta && r.q == v.alpha;
    }
    if cos == -0x8000_0000 {
      OnlyRoot(sin);
      assert r.d == -v.alpha && r.q == -v.beta;
    }
  }

  lemma OnlyRoot(a: int)
    requires a * a <= 0
    ensures a == 0
  {
  }

  /** The inverse transform of exact d and q, in units of 2^-64 of an output step. */
  lemma InverseRounding(v: TwoPhase, r: Rotor, sin: Q31, cos: Q31)
    requires IsRotation(sin, cos) && NoFullProduct(r.d, r.q, sin, cos)
    requires r.d == ParkD(v, sin, cos) && r.q == ParkQ(v, sin, cos)
    ensures var x := Mul31(r.d, cos) - Mul31(r.q, sin);
      -13 * ONE < 4 * (v.alpha * Norm(sin, cos) - ONE * x) < 13 * ONE
    ensures var y := Mul31(r.q, cos) + Mul31(r.d, sin);
      -9 * ONE < 4 * (v.beta * Norm(sin, cos) - ONE * y) < 17 * ONE
  {
    hide Mul31, Norm;
    Mul31Value(r.d, cos);
    Mul31Value(r.q, sin);
    Mul31Value(r.q, cos);
    Mul31Value(r.d, sin);
    var t := 0x8000_0000;
    var a, b := v.alpha, v.beta;
    var x, y := Mul31(r.d, cos) - Mul31(r.q, sin), Mul31(r.q, cos) + Mul31(r.d, sin);
    var e1, e2 := a * cos + b * sin - t * r.d, b * cos - a * sin - t * r.q;
    var u, u' := r.d * cos - r.q * sin - t * x, r.q * cos + r.d * sin - t * y;
    assert 0 <= e1 < 2 * t && -t < e2 < t;
    RecoverAlpha(t, a, b, sin, cos, r.d, r.q, e1, e2, u, x);
    RecoverBeta(t, a, b, sin, cos, r.d, r.q, e1, e2, u', y);
    RotatedError(t, e1, e2, sin, cos);
  }

  /**
   Park and back: each component returns as itself times sin^2 + cos^2, alpha to within 13/4 and
   beta to within -9/4 and 17/4 of a unit, whenever the forward transform neither saturates nor
   wraps. The inverse then does not wrap either, and its saturation can only help.
   */
  lemma ParkRoundTrip(v: TwoPhase, sin: Q31, cos: Q31)
    requires IsRotation(sin, cos) && NoFullProduct(v.alpha, v.beta, sin, cos)
    requires InRange(ParkD(v, sin, cos)) && InRange(ParkQ(v, sin, cos))
    ensures var w := InvPark(Park(v, sin, cos), sin, cos);
      && -13 * ONE < 4 * (v.alpha * Norm(sin, cos) - ONE * w.alpha) < 13 * ONE
      && -9 * ONE < 4 * (v.beta * Norm(sin, cos) - ONE * w.beta) < 17 * ONE
  {
    ParkSaturatesExactlyWhen(v, sin, cos);
    var r := Park(v, sin, cos);
    NoFullProductInInverse(v, r, sin, cos);
    InverseRounding(v, r, sin, cos);
    assert Norm(sin, cos) >= 0 by {
      Square(sin, 0);
      Square(cos, 0);
    }
    hide Mul31, Norm, Park;
    ClampTowards(v.alpha, Norm(sin, cos), Mul31(r.d, cos) - Mul31(r.q, sin), -13 * ONE, 13 * ONE);
    ClampTowards(v.beta, Norm(sin, cos), Mul31(r.q, cos) + Mul31(r.d, sin), -9 * ONE, 17 * ONE);
  }

  /** Vectors below half of full scale are never saturated or wrapped, whatever sine and cosine are. */
  lemma HalfScaleParkIsUnsaturated(v: TwoPhase, sin: Q31, cos: Q31)
    requires -0x4000_0000 < v.alpha < 0x4000_0000 && -0x4000_0000 < v.beta < 0x4000_0000
    ensures NoFullProduct(v.alpha, v.beta, sin, cos)
    ensures InRange(ParkD(v, sin, cos)) && InRange(ParkQ(v, sin, cos))
  {
    SmallProduct(v.alpha, cos);
    SmallProduct(v.beta, sin);
    SmallProduct(v.beta, cos);
    SmallProduct(v.alpha, sin);
  }

  lemma SmallProduct(a: int, b: Q31)
    requires -0x4000_0000 < a < 0x4000_0000
    ensures -0x4000_0000 <= a * b / 0x8000_0000 < 0x4000_0000
  {
    MulBound(if a < 0 then 0 - a else a, if b < 0 then 0 - b else b, 0x3FFF_FFFF, 0x8000_0000);
    SignedProduct(a, b);
  }

  lemma Mul31Is(a: Q31, b: Q31, r: int)
    requires !Full(a, b)
    requires 0 <= a * b - 0x8000_0000 * r < 0x8000_0000
    ensures Mul31(a, b) == r
  {
    Mul31Value(a, b);
  }

  /** The bound for beta is nearly reached: this rotation loses more than 4.2 units. */
  lemma ParkBetaLosesFourUnits()
    ensures var v, sin, cos := TwoPhase(-676322980, -407797687), 1936576624, 928093204;
      && IsRotation(sin, cos)
      && 10 * (v.beta * Norm(sin, cos) - 0x4000_0000_0000_0000 * InvPark(Park(v, sin, cos), sin, cos).beta)
         > 42 * 0x4000_0000_0000_0000
  {
    var v, sin, cos := TwoPhase(-676322980, -407797687), 1936576624, 928093204;
    hide Mul31;
    Mul31Is(v.alpha, cos, -292291289);
    Mul31Is(v.beta, sin, -367747373);
    Mul31Is(v.alpha, sin, -609900464);
    Mul31Is(v.beta, cos, -176240813);
    assert Park(v, sin, cos) == Rotor(-660038662, 433659651);
    Mul31Is(433659651, cos, 187417759);
    Mul31Is(-660038662, sin, -595215450);
    assert InvPark(Rotor(-660038662, 433659651), sin, cos).beta == -407797691;
    hide Park, InvPark;
  }
}
