/**
 Table interpolation along two axes. Element (x, y) of the table is data[x + y * numCols]; both
 coordinates are in 12.20 format.
 */
module BilinearInterpolation {
  import opened Words
  import opened LinearInterpolation

  datatype Grid = Grid(numRows: uint16, numCols: uint16, data: seq<int>)

  /** The four values around a point: (x, y), (x+1, y), (x, y+1) and (x+1, y+1). */
  datatype Corners = Corners(x1: int, x2: int, y1: int, y2: int)

  predicate Within(k: Corners, lo: int, hi: int)
  {
    lo <= k.x1 <= hi && lo <= k.x2 <= hi && lo <= k.y1 <= hi && lo <= k.y2 <= hi
  }

  /** The guard of the source, which compares the x index with the number of rows. */
  predicate Guard(g: Grid, X: Q31, Y: Q31)
  {
    !(Index(X) < 0 || Index(X) > g.numRows - 1 || Index(Y) < 0 || Index(Y) > g.numCols - 1)
  }

  /** In terms of the position: x from 0 to below the number of rows, y below the number of columns. */
  lemma GuardIsRange(g: Grid, X: Q31, Y: Q31)
    ensures Guard(g, X, Y) <==> 0 <= X < g.numRows * 0x10_0000 && 0 <= Y < g.numCols * 0x10_0000
  {
    Position(X);
    Position(Y);
    hide Index;
  }

  /** All four cells read for the point are in the table. */
  predicate Readable(g: Grid, X: Q31, Y: Q31)
  {
    Index(X) >= 0 && Index(Y) >= 0 && Index(X) + g.numCols * (Index(Y) + 1) + 1 < |g.data|
  }

  function CornersAt(g: Grid, X: Q31, Y: Q31): Corners
    requires Readable(g, X, Y)
  {
    var at := Index(X) + g.numCols * Index(Y);
    var below := Index(X) + g.numCols * (Index(Y) + 1);
    assert below == at + g.numCols;
    Corners(g.data[at], g.data[at + 1], g.data[below], g.data[below + 1])
  }

  // ----- The guard

  /** A point lies in the documented table: x counts columns, y counts rows. */
  predicate InTable(g: Grid, X: Q31, Y: Q31)
  {
    0 <= Index(X) < g.numCols && 0 <= Index(Y) < g.numRows
  }

  /**
   The guard is the test for being inside the table exactly when the table is empty or as many
   rows as columns can be addressed; an index has at most 2048 values.
   */
  lemma GuardIsTableTestExactlyWhen(g: Grid)
    ensures (forall X: Q31, Y: Q31 :: Guard(g, X, Y) <==> InTable(g, X, Y))
      <==> (g.numRows == 0 || g.numCols == 0 || Min(g.numRows, 0x800) == Min(g.numCols, 0x800))
  {
    forall X: Q31 {
      Position(X);
    }
    hide Index;
    if g.numRows > 0 && g.numCols > 0 {
      if g.numRows < g.numCols && g.numRows < 0x800 {
        var X: Q31 := g.numRows * 0x10_0000;
        assert InTable(g, X, 0) && !Guard(g, X, 0);
      } else if g.numCols < g.numRows && g.numCols < 0x800 {
        var X: Q31 := g.numCols * 0x10_0000;
        assert Guard(g, X, 0) && !InTable(g, X, 0);
      }
    }
  }

  /** A call either returns a value or reads past the end of the table. */
  datatype Outcome = Value(v: int) | ReadsOutside

  /** A full table. */
  predicate IsFull(g: Grid) { |g.data| == g.numRows * g.numCols }

  /**
   The guard admits the last row and column, whose neighbours are not in the table. With Min(rows,
   2048) and Min(columns, 2048) addressable indices it keeps all reads inside a full table exactly
   when the last addressable point does, which needs more than that much slack.
   */
  lemma GuardedReadsStayInsideExactlyWhen(g: Grid)
    requires IsFull(g) && g.numRows > 0 && g.numCols > 0
    ensures (forall X: Q31, Y: Q31 :: Guard(g, X, Y) ==> Readable(g, X, Y))
      <==> Min(g.numRows, 0x800) + g.numCols * Min(g.numCols, 0x800) < g.numRows * g.numCols
  {
    forall X: Q31 {
      Position(X);
    }
    hide Index;
    var a, b := Min(g.numRows, 0x800), Min(g.numCols, 0x800);
    var X: Q31, Y: Q31 := (a - 1) * 0x10_0000, (b - 1) * 0x10_0000;
    assert Index(X) == a - 1 && Index(Y) == b - 1;
    assert Guard(g, X, Y);
    assert Readable(g, X, Y) <==> a + g.numCols * b < g.numRows * g.numCols;
    forall X: Q31, Y: Q31 | Guard(g, X, Y) && a + g.numCols * b < g.numRows * g.numCols
      ensures Readable(g, X, Y)
    {
      ColumnsTimes(g.numCols, Index(Y) + 1, b);
    }
  }

  lemma ColumnsTimes(cols: nat, a: int, b: int)
    requires a <= b
    ensures cols * a <= cols * b
  {
  }

  /** So no full square table of up to 2048 rows is safe: its last point passes the guard. */
  lemma SquareTableReadsOutside(g: Grid, X: Q31, Y: Q31)
    requires IsFull(g) && 0 < g.numRows == g.numCols <= 0x800
    requires X == Y == (g.numRows - 1) * 0x10_0000
    ensures Guard(g, X, Y) && !Readable(g, X, Y)
  {
    Position(X);
    hide Index;
  }

  // ----- The blends, as the source evaluates them

  /** Each corner is weighted along one axis, shifted down by 4, then weighted along the other. */
  function TermQ15(v: int, w1: int, w2: int): int { v * w1 / 0x10 * w2 }

  function SumQ15(k: Corners, xf: int, yf: int): int
  {
    TermQ15(k.x1, 0xF_FFFF - xf, 0xF_FFFF - yf) + TermQ15(k.x2, 0xF_FFFF - yf, xf)
    + TermQ15(k.y1, 0xF_FFFF - xf, yf) + TermQ15(k.y2, xf, yf)
  }

  /** In Q7 nothing is shifted in between. */
  function TermQ7(v: int, w1: int, w2: int): int { v * w1 * w2 }

  function SumQ7(k: Corners, xf: int, yf: int): int
  {
    TermQ7(k.x1, 0xF_FFFF - xf, 0xF_FFFF - yf) + TermQ7(k.x2, 0xF_FFFF - yf, xf)
    + TermQ7(k.y1, 0xF_FFFF - xf, yf) + TermQ7(k.y2, yf, xf)
  }

  function BlendQ15(k: Corners, xf: int, yf: int): int { SumQ15(k, xf, yf) / 0x10_0000_0000 }

  function BlendQ7(k: Corners, xf: int, yf: int): int { SumQ7(k, xf, yf) / 0x100_0000_0000 }

  // ----- Weights

  lemma Weighted(v: int, w: int, lo: int, hi: int)
    requires w >= 0 && lo <= v <= hi
    ensures lo * w <= v * w <= hi * w
  {
    assert (v - lo) * w >= 0 && (hi - v) * w >= 0;
  }

  /** With weights from p - f and f on each axis the total weight is p squared. */
  lemma CornerHull(k: Corners, p: int, xf: int, yf: int, lo: int, hi: int)
    requires 0 <= xf <= p && 0 <= yf <= p && Within(k, lo, hi)
    ensures var s := k.x1 * ((p - xf) * (p - yf)) + k.x2 * ((p - yf) * xf) + k.y1 * ((p - xf) * yf) + k.y2 * (xf * yf);
      lo * (p * p) <= s <= hi * (p * p)
  {
    WeightsOfSquare(p, xf, yf);
    WeightedSum(k, (p - xf) * (p - yf), (p - yf) * xf, (p - xf) * yf, xf * yf, lo, hi);
  }

  lemma WeightsOfSquare(p: int, xf: int, yf: int)
    requires 0 <= xf <= p && 0 <= yf <= p
    ensures var a, b, c, d := (p - xf) * (p - yf), (p - yf) * xf, (p - xf) * yf, xf * yf;
      a >= 0 && b >= 0 && c >= 0 && d >= 0 && a + b + c + d == p * p
  {
    assert (p - xf) * (p - yf) + xf * (p - yf) == p * (p - yf);
    assert (p - xf) * yf + xf * yf == p * yf;
  }

  lemma WeightedSum(k: Corners, a: int, b: int, c: int, d: int, lo: int, hi: int)
    requires a >= 0 && b >= 0 && c >= 0 && d >= 0 && Within(k, lo, hi)
    ensures lo * (a + b + c + d) <= k.x1 * a + k.x2 * b + k.y1 * c + k.y2 * d <= hi * (a + b + c + d)
  {
    Weighted(k.x1, a, lo, hi);
    Weighted(k.x2, b, lo, hi);
    Weighted(k.y1, c, lo, hi);
    Weighted(k.y2, d, lo, hi);
    Distribute(lo, a, b, c, d);
    Distribute(hi, a, b, c, d);
  }

  lemma Distribute(v: int, a: int, b: int, c: int, d: int)
    ensures v * (a + b + c + d) == v * a + v * b + v * c + v * d
  {
  }

  /** t^2 times the exact bilinear value. */
  function ScaledSurface(k: Corners, t: int, xf: int, yf: int): int
  {
    k.x1 * ((t - xf) * (t - yf)) + k.x2 * ((t - yf) * xf) + k.y1 * ((t - xf) * yf) + k.y2 * (xf * yf)
  }

  lemma ShortDifference(k: Corners, t: int, xf: int, yf: int)
    ensures ScaledSurface(k, t, xf, yf) - ScaledSurface(k, t - 1, xf, yf)
         == k.x1 * ((t - xf) + (t - yf) - 1) + k.x2 * xf + k.y1 * yf
  {
    var a := (t - xf) + (t - yf) - 1;
    assert (t - xf) * (t - yf) == (t - 1 - xf) * (t - 1 - yf) + a;
    assert k.x1 * ((t - xf) * (t - yf)) == k.x1 * ((t - 1 - xf) * (t - 1 - yf)) + k.x1 * a;
    assert k.x2 * ((t - yf) * xf) == k.x2 * ((t - 1 - yf) * xf) + k.x2 * xf;
    assert k.y1 * ((t - xf) * yf) == k.y1 * ((t - 1 - xf) * yf) + k.y1 * yf;
  }

  /** Weights one short of t on each axis cost at most bound * (2t - 1). */
  lemma ShortWeights(k: Corners, t: int, xf: int, yf: int, bound: int)
    requires t > 0 && 0 <= xf < t && 0 <= yf < t && Within(k, -bound, bound)
    ensures -bound * (2 * t - 1) <= ScaledSurface(k, t, xf, yf) - ScaledSurface(k, t - 1, xf, yf) <= bound * (2 * t - 1)
  {
    ShortDifference(k, t, xf, yf);
    hide ScaledSurface;
    WeightedSum(k, (t - xf) + (t - yf) - 1, xf, yf, 0, -bound, bound);
  }

  // ----- Q15

  lemma FloorTerm(v: int, w1: int, w2: int)
    requires w2 >= 0
    ensures v * (w1 * w2) - 15 * w2 <= 0x10 * TermQ15(v, w1, w2) <= v * (w1 * w2)
  {
    var p := v * w1;
    Weighted(0x10 * (p / 0x10), w2, p - 15, p);
    assert 0x10 * (p / 0x10) * w2 == 0x10 * (p / 0x10 * w2);
    assert (p - 15) * w2 == p * w2 - 15 * w2;
    assert p * w2 == v * (w1 * w2);
  }

  /** The four inner truncations cost less than 45 units of 2^20 in the scaled sum. */
  lemma SumQ15Bounds(k: Corners, xf: int, yf: int)
    requires 0 <= xf <= 0xF_FFFF && 0 <= yf <= 0xF_FFFF
    ensures var s := ScaledSurface(k, 0xF_FFFF, xf, yf);
      s - 45 * 0xF_FFFF <= 0x10 * SumQ15(k, xf, yf) <= s
  {
    var p := 0xF_FFFF;
    FloorTerm(k.x1, p - xf, p - yf);
    FloorTerm(k.x2, p - yf, xf);
    FloorTerm(k.y1, p - xf, yf);
    FloorTerm(k.y2, xf, yf);
  }

  /**
   The Q15 blend lies between one below the smallest and the largest corner, for every fractional
   position, and never below -2^15: the final narrowing keeps its value.
   */
  lemma BlendQ15InHull(k: Corners, xf: int, yf: int, lo: int, hi: int)
    requires 0 <= xf <= 0xF_FFFF && 0 <= yf <= 0xF_FFFF
    requires -0x8000 <= lo <= hi <= 0x7FFF && Within(k, lo, hi)
    ensures Max(lo - 1, -0x8000) <= BlendQ15(k, xf, yf) <= hi
    ensures lo <= -24 ==> lo <= BlendQ15(k, xf, yf)
  {
    SumQ15Bounds(k, xf, yf);
    CornerHull(k, 0xF_FFFF, xf, yf, lo, hi);
    hide SumQ15, ScaledSurface;
  }

  /** And it is in (exact - 9/8, exact + 1/16). */
  lemma BlendQ15Accurate(k: Corners, xf: int, yf: int)
    requires 0 <= xf <= 0xF_FFFF && 0 <= yf <= 0xF_FFFF
    requires Within(k, -0x8000, 0x7FFF)
    ensures CloseQ15(BlendQ15(k, xf, yf), ScaledSurface(k, 0x10_0000, xf, yf))
  {
    SumQ15Bounds(k, xf, yf);
    ShortWeights(k, 0x10_0000, xf, yf, 0x8000);
    hide SumQ15, ScaledSurface;
  }

  // How far a value, scaled by 2^40, may be from the exact weighted sum: (-9/8, 1/16) of a unit for
  // Q15, (-1 - 2^-12, 2^-12) for Q7 and (-24, 2) for Q31.

  predicate CloseQ15(value: int, exact: int)
  {
    -9 * 0x20_0000_0000 < 0x100_0000_0000 * value - exact < 0x10_0000_0000
  }

  predicate CloseQ7(value: int, exact: int)
  {
    -0x100_0000_0000 - 0x1000_0000 < 0x100_0000_0000 * value - exact < 0x1000_0000
  }

  predicate CloseQ31(value: int, exact: int)
  {
    -24 * 0x100_0000_0000 < 0x100_0000_0000 * value - exact < 2 * 0x100_0000_0000
  }

  /** The documented weighted sum at a point, scaled by 2^40. */
  function SurfaceAt(g: Grid, X: Q31, Y: Q31): int
    requires Readable(g, X, Y)
  {
    ScaledSurface(CornersAt(g, X, Y), 0x10_0000, X % 0x10_0000, Y % 0x10_0000)
  }

  predicate AllWithin(data: seq<int>, lo: int, hi: int)
  {
    forall i :: 0 <= i < |data| ==> lo <= data[i] <= hi
  }

  lemma CornersWithin(g: Grid, X: Q31, Y: Q31, lo: int, hi: int)
    requires Readable(g, X, Y) && AllWithin(g.data, lo, hi)
    ensures Within(CornersAt(g, X, Y), lo, hi)
  {
    hide Index;
    var cols: int := g.numCols;
    var row := cols * Index(Y);
    assert row >= 0 && cols * (Index(Y) + 1) == row + cols;
  }

  /** One corner's contribution in the types of the source. */
  function CastTermQ15(v: int, w1: int, w2: int): int64
  {
    ToInt64(ToInt32(ToInt64(v * w1) / 0x10) * w2)
  }

  lemma CastTermQ15Value(v: int, w1: int, w2: int)
    requires -0x8000 <= v <= 0x7FFF && 0 <= w1 <= 0xF_FFFF && 0 <= w2 <= 0xF_FFFF
    ensures CastTermQ15(v, w1, w2) == TermQ15(v, w1, w2)
    ensures -0x8_0000_0000_0000 <= TermQ15(v, w1, w2) <= 0x8_0000_0000_0000
  {
    Weighted(v, w1, -0x8000, 0x7FFF);
    NarrowQ15(v * w1);
    Weighted(v * w1 / 0x10, w2, -0x8000_0000, 0x7FFF_FFFF);
    Accumulated(v * w1 / 0x10 * w2, 0, 0, 0);
    hide ToInt32, ToInt64;
  }

  /** The accumulator never overflows. */
  lemma Accumulated(t1: int, t2: int, t3: int, t4: int)
    requires -0x8_0000_0000_0000 <= t1 <= 0x8_0000_0000_0000
    requires -0x8_0000_0000_0000 <= t2 <= 0x8_0000_0000_0000
    requires -0x8_0000_0000_0000 <= t3 <= 0x8_0000_0000_0000
    requires -0x8_0000_0000_0000 <= t4 <= 0x8_0000_0000_0000
    ensures ToInt64(t1) == t1
    ensures ToInt64(t1 + t2) == t1 + t2 && ToInt64(t1 + t2 + t3) == t1 + t2 + t3
    ensures ToInt64(t1 + t2 + t3 + t4) == t1 + t2 + t3 + t4
  {
  }

  lemma NarrowQ15(p: int)
    requires -0x8000 * 0xF_FFFF <= p <= 0x7FFF * 0xF_FFFF
    ensures ToInt32(ToInt64(p) / 0x10) == p / 0x10
    ensures -0x8000_0000 <= p / 0x10 <= 0x7FFF_FFFF
  {
  }

  /** The accumulator as the source builds it up, cast by cast. */
  function AccumulatorQ15(k: Corners, xf: int, yf: int): int64
  {
    var acc1 := CastTermQ15(k.x1, 0xF_FFFF - xf, 0xF_FFFF - yf);
    var acc2 := ToInt64(acc1 + CastTermQ15(k.x2, 0xF_FFFF - yf, xf));
    var acc3 := ToInt64(acc2 + CastTermQ15(k.y1, 0xF_FFFF - xf, yf));
    ToInt64(acc3 + CastTermQ15(k.y2, xf, yf))
  }

  lemma AccumulatorQ15Value(k: Corners, xf: int, yf: int)
    requires 0 <= xf <= 0xF_FFFF && 0 <= yf <= 0xF_FFFF && Within(k, -0x8000, 0x7FFF)
    ensures AccumulatorQ15(k, xf, yf) == SumQ15(k, xf, yf)
    ensures ToInt16(AccumulatorQ15(k, xf, yf) / 0x10_0000_0000) == BlendQ15(k, xf, yf)
  {
    hide ToInt64, CastTermQ15, TermQ15;
    var p := 0xF_FFFF;
    CastTermQ15Value(k.x1, p - xf, p - yf);
    CastTermQ15Value(k.x2, p - yf, xf);
    CastTermQ15Value(k.y1, p - xf, yf);
    CastTermQ15Value(k.y2, xf, yf);
    Accumulated(TermQ15(k.x1, p - xf, p - yf), TermQ15(k.x2, p - yf, xf),
                TermQ15(k.y1, p - xf, yf), TermQ15(k.y2, xf, yf));
    BlendQ15InHull(k, xf, yf, -0x8000, 0x7FFF);
    hide SumQ15, AccumulatorQ15;
  }

  function ValueQ15(g: Grid, X: Q31, Y: Q31): int
    requires Readable(g, X, Y)
  {
    BlendQ15(CornersAt(g, X, Y), Fraction(X), Fraction(Y))
  }

  /** `arm_bilinear_interp_q15` */
  method BilinearQ15(g: Grid, X: Q31, Y: Q31) returns (r: Outcome)
    requires AllWithin(g.data, -0x8000, 0x7FFF)
    ensures !Guard(g, X, Y) ==> r == Value(0)
    ensures r == ReadsOutside <==> Guard(g, X, Y) && !Readable(g, X, Y)
    ensures Guard(g, X, Y) && Readable(g, X, Y) ==>
      r == Value(ValueQ15(g, X, Y)) && -0x8000 <= r.v <= 0x7FFF && CloseQ15(r.v, SurfaceAt(g, X, Y))
  {
    hide Index, Fraction, ToInt16, ToInt32, ToInt64, Guard, Readable, CornersAt;
    hide BlendQ15, Within, AllWithin, ScaledSurface;
    if !Guard(g, X, Y) {
      return Value(0);
    }
    if !Readable(g, X, Y) {
      return ReadsOutside;
    }
    var k := CornersAt(g, X, Y);
    var xfract: int, yfract: int := Fraction(X), Fraction(Y);
    Position(X);
    Position(Y);
    var out: int := ToInt32(ToInt64(k.x1 * (0xF_FFFF - xfract)) / 0x10);
    var acc: int := ToInt64(out * (0xF_FFFF - yfract));
    out := ToInt32(ToInt64(k.x2 * (0xF_FFFF - yfract)) / 0x10);
    acc := ToInt64(acc + ToInt64(out * xfract));
    out := ToInt32(ToInt64(k.y1 * (0xF_FFFF - xfract)) / 0x10);
    acc := ToInt64(acc + ToInt64(out * yfract));
    out := ToInt32(ToInt64(k.y2 * xfract) / 0x10);
    acc := ToInt64(acc + ToInt64(out * yfract));
    assert acc == AccumulatorQ15(k, xfract, yfract);
    CornersWithin(g, X, Y, -0x8000, 0x7FFF);
    AccumulatorQ15Value(k, xfract, yfract);
    BlendQ15Accurate(k, xfract, yfract);
    r := Value(ToInt16(acc / 0x10_0000_0000));
  }

  // ----- Q7

  /**
   The Q7 blend has no inner truncation; it too lies between one below the smallest and the
   largest corner and never wraps.
   */
  lemma BlendQ7InHull(k: Corners, xf: int, yf: int, lo: int, hi: int)
    requires 0 <= xf <= 0xF_FFFF && 0 <= yf <= 0xF_FFFF
    requires -0x80 <= lo <= hi <= 0x7F && Within(k, lo, hi)
    ensures Max(lo - 1, -0x80) <= BlendQ7(k, xf, yf) <= hi
    ensures lo <= 0 ==> lo <= BlendQ7(k, xf, yf)
  {
    SumQ7Value(k, xf, yf);
    CornerHull(k, 0xF_FFFF, xf, yf, lo, hi);
    hide SumQ7, ScaledSurface;
  }

  lemma SumQ7Value(k: Corners, xf: int, yf: int)
    ensures SumQ7(k, xf, yf) == ScaledSurface(k, 0xF_FFFF, xf, yf)
  {
    var p := 0xF_FFFF;
    assert k.x1 * (p - xf) * (p - yf) == k.x1 * ((p - xf) * (p - yf));
    assert k.x2 * (p - yf) * xf == k.x2 * ((p - yf) * xf);
    assert k.y1 * (p - xf) * yf == k.y1 * ((p - xf) * yf);
    assert k.y2 * yf * xf == k.y2 * (xf * yf);
  }

  /** And it is in (exact - 1 - 2^-12, exact + 2^-12). */
  lemma BlendQ7Accurate(k: Corners, xf: int, yf: int)
    requires 0 <= xf <= 0xF_FFFF && 0 <= yf <= 0xF_FFFF
    requires Within(k, -0x80, 0x7F)
    ensures CloseQ7(BlendQ7(k, xf, yf), ScaledSurface(k, 0x10_0000, xf, yf))
  {
    SumQ7Value(k, xf, yf);
    ShortWeights(k, 0x10_0000, xf, yf, 0x80);
    hide SumQ7, ScaledSurface;
  }

  function CastTermQ7(v: int, w1: int, w2: int): int64 { ToInt64(ToInt32(v * w1) * w2) }

  lemma CastTermQ7Value(v: int, w1: int, w2: int)
    requires -0x80 <= v <= 0x7F && 0 <= w1 <= 0xF_FFFF && 0 <= w2 <= 0xF_FFFF
    ensures CastTermQ7(v, w1, w2) == TermQ7(v, w1, w2)
    ensures -0x8_0000_0000_0000 <= TermQ7(v, w1, w2) <= 0x8_0000_0000_0000
  {
    Weighted(v, w1, -0x80, 0x7F);
    assert ToInt32(v * w1) == v * w1;
    Weighted(v * w1, w2, -0x800_0000, 0x7FF_FFFF);
    Accumulated(v * w1 * w2, 0, 0, 0);
    hide ToInt32, ToInt64;
  }

  function AccumulatorQ7(k: Corners, xf: int, yf: int): int64
  {
    var acc1 := CastTermQ7(k.x1, 0xF_FFFF - xf, 0xF_FFFF - yf);
    var acc2 := ToInt64(acc1 + CastTermQ7(k.x2, 0xF_FFFF - yf, xf));
    var acc3 := ToInt64(acc2 + CastTermQ7(k.y1, 0xF_FFFF - xf, yf));
    ToInt64(acc3 + CastTermQ7(k.y2, yf, xf))
  }

  lemma AccumulatorQ7Value(k: Corners, xf: int, yf: int)
    requires 0 <= xf <= 0xF_FFFF && 0 <= yf <= 0xF_FFFF && Within(k, -0x80, 0x7F)
    ensures AccumulatorQ7(k, xf, yf) == SumQ7(k, xf, yf)
    ensures ToInt8(AccumulatorQ7(k, xf, yf) / 0x100_0000_0000) == BlendQ7(k, xf, yf)
  {
    hide ToInt64, CastTermQ7, TermQ7;
    var p := 0xF_FFFF;
    CastTermQ7Value(k.x1, p - xf, p - yf);
    CastTermQ7Value(k.x2, p - yf, xf);
    CastTermQ7Value(k.y1, p - xf, yf);
    CastTermQ7Value(k.y2, yf, xf);
    Accumulated(TermQ7(k.x1, p - xf, p - yf), TermQ7(k.x2, p - yf, xf), TermQ7(k.y1, p - xf, yf), TermQ7(k.y2, yf, xf));
    BlendQ7InHull(k, xf, yf, -0x80, 0x7F);
    hide SumQ7, AccumulatorQ7;
  }

  function ValueQ7(g: Grid, X: Q31, Y: Q31): int
    requires Readable(g, X, Y)
  {
    BlendQ7(CornersAt(g, X, Y), Fraction(X), Fraction(Y))
  }

  /** `arm_bilinear_interp_q7` */
  method BilinearQ7(g: Grid, X: Q31, Y: Q31) returns (r: Outcome)
    requires AllWithin(g.data, -0x80, 0x7F)
    ensures !Guard(g, X, Y) ==> r == Value(0)
    ensures r == ReadsOutside <==> Guard(g, X, Y) && !Readable(g, X, Y)
    ensures Guard(g, X, Y) && Readable(g, X, Y) ==>
      r == Value(ValueQ7(g, X, Y)) && -0x80 <= r.v <= 0x7F && CloseQ7(r.v, SurfaceAt(g, X, Y))
  {
    hide Index, Fraction, ToInt8, ToInt32, ToInt64, Guard, Readable, CornersAt;
    hide BlendQ7, Within, AllWithin, ScaledSurface;
    if !Guard(g, X, Y) {
      return Value(0);
    }
    if !Readable(g, X, Y) {
      return ReadsOutside;
    }
    var k := CornersAt(g, X, Y);
    var xfract: int, yfract: int := Fraction(X), Fraction(Y);
    Position(X);
    Position(Y);
    var out: int := ToInt32(k.x1 * (0xF_FFFF - xfract));
    var acc: int := ToInt64(out * (0xF_FFFF - yfract));
    out := ToInt32(k.x2 * (0xF_FFFF - yfract));
    acc := ToInt64(acc + ToInt64(out * xfract));
    out := ToInt32(k.y1 * (0xF_FFFF - xfract));
    acc := ToInt64(acc + ToInt64(out * yfract));
    out := ToInt32(k.y2 * yfract);
    acc := ToInt64(acc + ToInt64(out * xfract));
    assert acc == AccumulatorQ7(k, xfract, yfract);
    CornersWithin(g, X, Y, -0x80, 0x7F);
    AccumulatorQ7Value(k, xfract, yfract);
    BlendQ7Accurate(k, xfract, yfract);
    r := Value(ToInt8(acc / 0x100_0000_0000));
  }

  // ----- Q31

  /** `(q31_t)((q63_t)v * w1 >> 32)`, then the same with w2. */
  function TermQ31(v: int, w1: int, w2: int): int { v * w1 / 0x1_0000_0000 * w2 / 0x1_0000_0000 }

  function CastTermQ31(v: int, w1: int, w2: int): Q31
  {
    ToInt32(ToInt64(ToInt32(ToInt64(v * w1) / 0x1_0000_0000) * w2) / 0x1_0000_0000)
  }

  function SumQ31(k: Corners, xf: int, yf: int): int
  {
    TermQ31(k.x1, 0x7FFF_FFFF - xf, 0x7FFF_FFFF - yf) + TermQ31(k.x2, 0x7FFF_FFFF - yf, xf)
    + TermQ31(k.y1, 0x7FFF_FFFF - xf, yf) + TermQ31(k.y2, xf, yf)
  }

  /** The accumulator, cast by cast, and the final shift left by 2 in 32 bits. */
  function BlendQ31Wide(k: Corners, xf: int, yf: int): Q31
  {
    var acc1 := CastTermQ31(k.x1, 0x7FFF_FFFF - xf, 0x7FFF_FFFF - yf);
    var acc2 := ToInt32(acc1 + CastTermQ31(k.x2, 0x7FFF_FFFF - yf, xf));
    var acc3 := ToInt32(acc2 + CastTermQ31(k.y1, 0x7FFF_FFFF - xf, yf));
    ToInt32(ToInt32(acc3 + CastTermQ31(k.y2, xf, yf)) * 4)
  }

  lemma HighWordFits(p: int)
    requires -0x4000_0000_0000_0000 <= p <= 0x4000_0000_0000_0000
    ensures ToInt32(ToInt64(p) / 0x1_0000_0000) == p / 0x1_0000_0000
    ensures -0x4000_0000 <= p / 0x1_0000_0000 <= 0x4000_0000
  {
  }

  lemma CastTermQ31Value(v: int, w1: int, w2: int)
    requires -0x8000_0000 <= v <= 0x7FFF_FFFF && 0 <= w1 <= 0x7FFF_FFFF && 0 <= w2 <= 0x7FFF_FFFF
    ensures CastTermQ31(v, w1, w2) == TermQ31(v, w1, w2)
    ensures -0x2000_0000 <= TermQ31(v, w1, w2) <= 0x2000_0000
  {
    Weighted(v, w1, -0x8000_0000, 0x7FFF_FFFF);
    HighWordFits(v * w1);
    var out := v * w1 / 0x1_0000_0000;
    Weighted(out, w2, -0x4000_0000, 0x4000_0000);
    HighWordFits(out * w2);
    hide ToInt32, ToInt64;
  }

  /** The two truncations of a term lose less than w2 / 2^32 + 1. */
  lemma StackedFloors(v: int, w1: int, w2: int)
    requires w2 >= 0
    ensures var exact := v * (w1 * w2);
      exact - 0x1_0000_0000 * w2 - 0x1_0000_0000_0000_0000 <= 0x1_0000_0000_0000_0000 * TermQ31(v, w1, w2) <= exact
  {
    var p := v * w1;
    var out := p / 0x1_0000_0000;
    Weighted(0x1_0000_0000 * out, w2, p - 0x1_0000_0000, p);
    assert 0x1_0000_0000 * out * w2 == 0x1_0000_0000 * (out * w2);
    assert (p - 0x1_0000_0000) * w2 == p * w2 - 0x1_0000_0000 * w2;
    assert p * w2 == v * (w1 * w2);
  }

  lemma SumQ31Bounds(k: Corners, xf: int, yf: int)
    requires 0 <= xf <= 0x7FFF_FFFF && 0 <= yf <= 0x7FFF_FFFF
    ensures var s := ScaledSurface(k, 0x7FFF_FFFF, xf, yf);
      s - 11 * 0x8000_0000_0000_0000 <= 0x1_0000_0000_0000_0000 * SumQ31(k, xf, yf) <= s
  {
    var p := 0x7FFF_FFFF;
    StackedFloors(k.x1, p - xf, p - yf);
    StackedFloors(k.x2, p - yf, xf);
    StackedFloors(k.y1, p - xf, yf);
    StackedFloors(k.y2, xf, yf);
    hide TermQ31;
  }

  lemma SumQ31Range(k: Corners, xf: int, yf: int, lo: int)
    requires 0 <= xf <= 0x7FFF_FFFF && 0 <= yf <= 0x7FFF_FFFF
    requires Within(k, lo, 0x7FFF_FFFF)
    ensures lo * 0x3FFF_FFFF_0000_0001 - 11 * 0x8000_0000_0000_0000 <= 0x1_0000_0000_0000_0000 * SumQ31(k, xf, yf)
    ensures SumQ31(k, xf, yf) <= 0x1FFF_FFFF
  {
    SumQ31Bounds(k, xf, yf);
    CornerHull(k, 0x7FFF_FFFF, xf, yf, lo, 0x7FFF_FFFF);
    hide SumQ31, ScaledSurface;
  }

  lemma CastSum(t1: Q31, t2: Q31, t3: Q31, t4: Q31)
    requires -0x2000_0000 <= t1 <= 0x2000_0000 && -0x2000_0000 <= t2 <= 0x2000_0000
    requires -0x2000_0000 <= t3 <= 0x2000_0000
    requires -0x2000_0006 <= t1 + t2 + t3 + t4 <= 0x1FFF_FFFF
    ensures ToInt32(ToInt32(ToInt32(ToInt32(t1 + t2) + t3) + t4) * 4) == ToInt32(4 * (t1 + t2 + t3 + t4))
  {
    assert ToInt32(t1 + t2) == t1 + t2;
    assert ToInt32(t1 + t2 + t3) == t1 + t2 + t3;
    assert ToInt32(t1 + t2 + t3 + t4) == t1 + t2 + t3 + t4;
    hide ToInt32;
  }

  /** Only the final shift can wrap. */
  lemma BlendQ31WrapsAtMostOnce(k: Corners, xf: int, yf: int)
    requires 0 <= xf <= 0x7FFF_FFFF && 0 <= yf <= 0x7FFF_FFFF
    requires Within(k, -0x8000_0000, 0x7FFF_FFFF)
    ensures BlendQ31Wide(k, xf, yf) == ToInt32(4 * SumQ31(k, xf, yf))
    ensures -0x2000_0006 <= SumQ31(k, xf, yf) <= 0x1FFF_FFFF
  {
    hide CastTermQ31, TermQ31, ToInt32;
    var p := 0x7FFF_FFFF;
    CastTermQ31Value(k.x1, p - xf, p - yf);
    CastTermQ31Value(k.x2, p - yf, xf);
    CastTermQ31Value(k.y1, p - xf, yf);
    CastTermQ31Value(k.y2, xf, yf);
    SumQ31Range(k, xf, yf, -0x8000_0000);
    CastSum(TermQ31(k.x1, p - xf, p - yf), TermQ31(k.x2, p - yf, xf), TermQ31(k.y1, p - xf, yf), TermQ31(k.y2, xf, yf));
  }

  /** The sum at the fractions of a position, which are multiples of 2^11 in this format. */
  function SumAt(k: Corners, xf20: int, yf20: int): int { SumQ31(k, xf20 * 0x800, yf20 * 0x800) }

  predicate Wraps(k: Corners, xf20: int, yf20: int)
  {
    ToInt32(4 * SumAt(k, xf20, yf20)) != 4 * SumAt(k, xf20, yf20)
  }

  lemma FourFolds(sum: int)
    requires -0x2000_0006 <= sum <= 0x1FFF_FFFF
    ensures ToInt32(4 * sum) == 4 * sum <==> -0x2000_0000 <= sum
  {
  }

  // Lower corners give a lower sum, so for the wrap only equal corners matter.

  lemma TermMonotone(v: int, v': int, w1: int, w2: int)
    requires v <= v' && w1 >= 0 && w2 >= 0
    ensures TermQ31(v, w1, w2) <= TermQ31(v', w1, w2)
  {
    Weighted(v, w1, v, v');
    Weighted(v', w1, v, v');
    QuotientMonotone(v * w1, v' * w1);
    var out, out' := v * w1 / 0x1_0000_0000, v' * w1 / 0x1_0000_0000;
    Weighted(out, w2, out, out');
    Weighted(out', w2, out, out');
    QuotientMonotone(out * w2, out' * w2);
  }

  lemma QuotientMonotone(a: int, b: int)
    requires a <= b
    ensures a / 0x1_0000_0000 <= b / 0x1_0000_0000
  {
  }

  lemma SumAboveFlat(k: Corners, xf: int, yf: int, lo: int)
    requires 0 <= xf <= 0x7FFF_FFFF && 0 <= yf <= 0x7FFF_FFFF
    requires Within(k, lo, 0x7FFF_FFFF)
    ensures SumQ31(Corners(lo, lo, lo, lo), xf, yf) <= SumQ31(k, xf, yf)
  {
    var p := 0x7FFF_FFFF;
    TermMonotone(lo, k.x1, p - xf, p - yf);
    TermMonotone(lo, k.x2, p - yf, xf);
    TermMonotone(lo, k.y1, p - xf, yf);
    TermMonotone(lo, k.y2, xf, yf);
    hide TermQ31;
  }

  // Four corners of -2^31 + 13. With m = 2^31 - 1, x and y the fractions and G = 2^32, the remainders
  // of the first truncations are p = low * (m - x) mod G, q = low * (m - y) mod G and
  // r = low * x mod G; those of the second are f1 to f4.

  const LOW: int := -0x7FFF_FFF3

  /** p and r add up to G - 13, since r is a multiple of 2^11. */
  lemma FirstRemainders(x20: int)
    requires 0 <= x20 < 0x10_0000
    ensures LOW * (0x7FFF_FFFF - x20 * 0x800) % 0x1_0000_0000 + LOW * (x20 * 0x800) % 0x1_0000_0000 == 0xFFFF_FFF3
  {
    var g := 0x1_0000_0000;
    var a, b := LOW * (0x7FFF_FFFF - x20 * 0x800), LOW * (x20 * 0x800);
    assert b == 0x800 * (LOW * x20);
    ScaledRemainder(LOW * x20);
    assert a + b == LOW * 0x7FFF_FFFF;
    RemaindersOfSum(a, b, b % g);
  }

  lemma RemaindersOfSum(a: int, b: int, r: int)
    requires a + b == LOW * 0x7FFF_FFFF && r == b % 0x1_0000_0000 && r % 0x800 == 0
    ensures a % 0x1_0000_0000 + r == 0xFFFF_FFF3
  {
  }

  /** The second remainders of the two terms that share the first factor out <= 0. */
  lemma SharedRemainders(out: int, v: int, w: int)
    requires -0x4000_0000 <= out <= 0 && v + w == 0x7FFF_FFFF
    ensures out * v % 0x1_0000_0000 + out * w % 0x1_0000_0000 <= 0x1_8000_0000 - out
  {
    assert out * v + out * w == out * 0x7FFF_FFFF;
    RemaindersOfShared(out * v, out * w, out);
  }

  lemma RemaindersOfShared(a: int, b: int, out: int)
    requires -0x4000_0000 <= out <= 0 && a + b == out * 0x7FFF_FFFF
    ensures a % 0x1_0000_0000 + b % 0x1_0000_0000 <= 0x1_8000_0000 - out
  {
    var k := out / 2;
    var rest := if out % 2 == 1 then 0x8000_0000 - out else 0 - out;
    assert a + b == k * 0x1_0000_0000 + rest;
    DivModUnique(a + b, 0x1_0000_0000, k, rest);
  }

  /** Adding up everything the four terms lose: less than 3 units, so that the sum stays at -2^29 or above. */
  lemma FlatSumFits(x20: int, y20: int)
    requires 0 <= x20 < 0x10_0000 && 0 <= y20 < 0x10_0000
    ensures -0x2000_0000 <= SumQ31(Corners(LOW, LOW, LOW, LOW), x20 * 0x800, y20 * 0x800)
  {
    var g, m := 0x1_0000_0000, 0x7FFF_FFFF;
    var x, y := x20 * 0x800, y20 * 0x800;
    var a, b, c := LOW * (m - x) / g, LOW * (m - y) / g, LOW * x / g;
    var p, q, r := LOW * (m - x) % g, LOW * (m - y) % g, LOW * x % g;
    FirstRemainders(x20);
    assert -0x4000_0000 <= a <= 0;
    SharedRemainders(a, m - y, y);
    var f1, f2, f3, f4 := a * (m - y) % g, b * x % g, a * y % g, c * y % g;
    var sum := SumQ31(Corners(LOW, LOW, LOW, LOW), x, y);
    assert g * sum == a * (m - y) + b * x + a * y + c * y - (f1 + f2 + f3 + f4);
    hide SumQ31;
    Collected(x, y, a, b, c, p, q, r);
    LossBound(x, y, a, p, q, r, sum, f1 + f3, f2, f4);
  }

  /** The products of the truncated quotients, put back together. */
  lemma Collected(x: int, y: int, a: int, b: int, c: int, p: int, q: int, r: int)
    requires var g, m := 0x1_0000_0000, 0x7FFF_FFFF;
      LOW * (m - x) == g * a + p && LOW * (m - y) == g * b + q && LOW * x == g * c + r
    ensures var g, m := 0x1_0000_0000, 0x7FFF_FFFF;
      g * (a * (m - y) + b * x + a * y + c * y) == LOW * (m * m) - (p * m + q * x + r * y)
  {
    var g, m := 0x1_0000_0000, 0x7FFF_FFFF;
    assert a * (m - y) + a * y == a * m;
    assert (g * a) * m == LOW * (m * m) - LOW * (m * x) - p * m by {
      assert LOW * (m - x) * m == LOW * (m * m) - LOW * (m * x);
    }
    assert (g * b) * x == LOW * (m * x) - LOW * (x * y) - q * x by {
      assert LOW * (m - y) * x == LOW * (m * x) - LOW * (x * y);
    }
    assert (g * c) * y == LOW * (x * y) - r * y by {
      assert LOW * x * y == LOW * (x * y);
    }
    assert g * (a * m + b * x + c * y) == (g * a) * m + (g * b) * x + (g * c) * y;
  }

  lemma LossBound(x: int, y: int, a: int, p: int, q: int, r: int, sum: int, f13: int, f2: int, f4: int)
    requires 0 <= x <= 0x7FFF_FFFF && 0 <= y <= 0x7FFF_FFFF
    requires 0 <= p < 0x1_0000_0000 && 0 <= q < 0x1_0000_0000 && 0 <= r && p + r == 0xFFFF_FFF3
    requires LOW * (0x7FFF_FFFF - x) == 0x1_0000_0000 * a + p
    requires f13 <= 0x1_8000_0000 - a && f2 < 0x1_0000_0000 && f4 < 0x1_0000_0000
    requires var g, m := 0x1_0000_0000, 0x7FFF_FFFF;
      g * (g * sum + f13 + f2 + f4) == LOW * (m * m) - (p * m + q * x + r * y)
    ensures -0x2000_0000 <= sum
  {
    var m := 0x7FFF_FFFF;
    Weighted(y, r, 0, m);
    assert p * m + r * y <= 0xFFFF_FFF3 * m by { assert p * m + m * r == 0xFFFF_FFF3 * m; }
    Weighted(q, x, 0, 0xFFFF_FFFF);
  }

  /**
   The wrap, exactly: if no corner is below lo the result never wraps, at any position, exactly when
   lo is at least -2^31 + 13. Four corners of -2^31 + 12 wrap.
   */
  lemma BlendQ31NeverWrapsExactlyWhen(lo: int)
    requires -0x8000_0000 <= lo <= 0x7FFF_FFFF
    ensures (forall k: Corners, xf20: int, yf20: int ::
              Within(k, lo, 0x7FFF_FFFF) && 0 <= xf20 < 0x10_0000 && 0 <= yf20 < 0x10_0000 ==> !Wraps(k, xf20, yf20))
      <==> lo >= LOW
  {
    if lo >= LOW {
      forall k: Corners, xf20: int, yf20: int
        | Within(k, lo, 0x7FFF_FFFF) && 0 <= xf20 < 0x10_0000 && 0 <= yf20 < 0x10_0000
        ensures !Wraps(k, xf20, yf20)
      {
        CornersNeverWrap(k, xf20, yf20);
      }
    } else {
      var k := Corners(-0x7FFF_FFF4, -0x7FFF_FFF4, -0x7FFF_FFF4, -0x7FFF_FFF4);
      FlatCornersWrap();
      assert Within(k, lo, 0x7FFF_FFFF) && Wraps(k, 436928, 786443);
    }
  }

  lemma CornersNeverWrap(k: Corners, xf20: int, yf20: int)
    requires Within(k, LOW, 0x7FFF_FFFF) && 0 <= xf20 < 0x10_0000 && 0 <= yf20 < 0x10_0000
    ensures !Wraps(k, xf20, yf20)
    ensures -0x2000_0000 <= SumAt(k, xf20, yf20) <= 0x1FFF_FFFF
  {
    FlatSumFits(xf20, yf20);
    SumAboveFlat(k, xf20 * 0x800, yf20 * 0x800, LOW);
    SumQ31Range(k, xf20 * 0x800, yf20 * 0x800, LOW);
    hide SumQ31;
    FourFolds(SumAt(k, xf20, yf20));
  }

  lemma FlatCornersWrap()
    ensures Wraps(Corners(-0x7FFF_FFF4, -0x7FFF_FFF4, -0x7FFF_FFF4, -0x7FFF_FFF4), 436928, 786443)
  {
    hide TermQ31;
    TermByHand(-0x7FFF_FFF4, 1252655103, 536848383, -626327549, -78287659);
    TermByHand(-0x7FFF_FFF4, 536848383, 894828544, -268424191, -55924438);
    TermByHand(-0x7FFF_FFF4, 1252655103, 1610635264, -626327549, -234876117);
    TermByHand(-0x7FFF_FFF4, 894828544, 1610635264, -447414270, -167782699);
    assert SumAt(Corners(-0x7FFF_FFF4, -0x7FFF_FFF4, -0x7FFF_FFF4, -0x7FFF_FFF4), 436928, 786443) == -0x2000_0001;
  }

  /** Before the last cast the result is in (exact - 24, exact + 2), for any corners. */
  lemma SumAccurate(k: Corners, xf20: int, yf20: int)
    requires 0 <= xf20 < 0x10_0000 && 0 <= yf20 < 0x10_0000
    requires Within(k, -0x8000_0000, 0x7FFF_FFFF)
    ensures CloseQ31(4 * SumAt(k, xf20, yf20), ScaledSurface(k, 0x10_0000, xf20, yf20))
  {
    var xf, yf := xf20 * 0x800, yf20 * 0x800;
    hide SumQ31, ScaledSurface;
    SumQ31Bounds(k, xf, yf);
    ShortWeights(k, 0x8000_0000, xf, yf, 0x8000_0000);
    SurfaceIn31Bits(k, xf20, yf20);
  }

  /** The cast adds 2^32 or nothing, and nothing from the threshold up. */
  lemma ValueQ31Accurate(k: Corners, xf20: int, yf20: int)
    requires 0 <= xf20 < 0x10_0000 && 0 <= yf20 < 0x10_0000
    requires Within(k, -0x8000_0000, 0x7FFF_FFFF)
    ensures var v, exact := ToInt32(4 * SumAt(k, xf20, yf20)), ScaledSurface(k, 0x10_0000, xf20, yf20);
      && (CloseQ31(v, exact) || CloseQ31(v - 0x1_0000_0000, exact))
      && (Within(k, LOW, 0x7FFF_FFFF) ==> CloseQ31(v, exact))
  {
    SumAccurate(k, xf20, yf20);
    BlendQ31WrapsAtMostOnce(k, xf20 * 0x800, yf20 * 0x800);
    if Within(k, LOW, 0x7FFF_FFFF) {
      CornersNeverWrap(k, xf20, yf20);
    }
    var sum := SumAt(k, xf20, yf20);
    hide SumAt, ScaledSurface, BlendQ31Wide, Within, CloseQ31;
    assert -0x2000_0006 <= sum <= 0x1FFF_FFFF;
    WrapsUp(sum);
  }

  lemma WrapsUp(sum: int)
    requires -0x2000_0006 <= sum <= 0x1FFF_FFFF
    ensures ToInt32(4 * sum) == if sum < -0x2000_0000 then 4 * sum + 0x1_0000_0000 else 4 * sum
  {
  }

  /** So from the threshold up the code gives four times the sum, in (exact - 24, exact + 2). */
  lemma BlendQ31WideAccurate(k: Corners, xf20: int, yf20: int)
    requires 0 <= xf20 < 0x10_0000 && 0 <= yf20 < 0x10_0000
    requires Within(k, LOW, 0x7FFF_FFFF)
    ensures BlendQ31Wide(k, xf20 * 0x800, yf20 * 0x800) == 4 * SumAt(k, xf20, yf20)
    ensures CloseQ31(4 * SumAt(k, xf20, yf20), ScaledSurface(k, 0x10_0000, xf20, yf20))
  {
    CornersNeverWrap(k, xf20, yf20);
    BlendQ31WrapsAtMostOnce(k, xf20 * 0x800, yf20 * 0x800);
    SumAccurate(k, xf20, yf20);
    hide BlendQ31Wide, SumQ31, ScaledSurface;
  }

  /** At full negative scale the wrap is complete: a table of -1.0 throughout can interpolate to almost +1.0. */
  lemma FullNegativeScaleWraps()
    ensures BlendQ31Wide(Corners(-0x8000_0000, -0x8000_0000, -0x8000_0000, -0x8000_0000), 2147479552, 1432559616)
         == 0x7FFF_FFF8
  {
    var k := Corners(-0x8000_0000, -0x8000_0000, -0x8000_0000, -0x8000_0000);
    hide TermQ31, BlendQ31Wide;
    BlendQ31WrapsAtMostOnce(k, 2147479552, 1432559616);
    TermByHand(-0x8000_0000, 4095, 714924031, -2048, -341);
    TermByHand(-0x8000_0000, 714924031, 2147479552, -357462016, -178730668);
    TermByHand(-0x8000_0000, 4095, 1432559616, -2048, -684);
    TermByHand(-0x8000_0000, 2147479552, 1432559616, -1073739776, -358139221);
    assert SumQ31(k, 2147479552, 1432559616) == -536870914;
  }

  lemma TermByHand(v: int, w1: int, w2: int, out: int, term: int)
    requires 0 <= v * w1 - 0x1_0000_0000 * out < 0x1_0000_0000
    requires 0 <= out * w2 - 0x1_0000_0000 * term < 0x1_0000_0000
    ensures TermQ31(v, w1, w2) == term
  {
  }

  /** Four times the sum of the truncated terms, wrapped once. */
  function ValueQ31(g: Grid, X: Q31, Y: Q31): int
    requires Readable(g, X, Y)
  {
    ToInt32(4 * SumAt(CornersAt(g, X, Y), X % 0x10_0000, Y % 0x10_0000))
  }

  /** `arm_bilinear_interp_q31` */
  method BilinearQ31(g: Grid, X: Q31, Y: Q31) returns (r: Outcome)
    requires AllWithin(g.data, -0x8000_0000, 0x7FFF_FFFF)
    ensures !Guard(g, X, Y) ==> r == Value(0)
    ensures r == ReadsOutside <==> Guard(g, X, Y) && !Readable(g, X, Y)
    ensures Guard(g, X, Y) && Readable(g, X, Y) ==> r == Value(ValueQ31(g, X, Y))
    ensures Guard(g, X, Y) && Readable(g, X, Y) ==>
      CloseQ31(r.v, SurfaceAt(g, X, Y)) || CloseQ31(r.v - 0x1_0000_0000, SurfaceAt(g, X, Y))
    ensures Guard(g, X, Y) && Readable(g, X, Y) && Within(CornersAt(g, X, Y), LOW, 0x7FFF_FFFF) ==>
      CloseQ31(r.v, SurfaceAt(g, X, Y))
  {
    hide Index, Fraction, ToInt32, ToInt64, Guard, Readable, CornersAt, AllWithin, Within, ScaledSurface, CloseQ31;
    hide SumQ31, CastTermQ31;
    if !Guard(g, X, Y) {
      return Value(0);
    }
    if !Readable(g, X, Y) {
      return ReadsOutside;
    }
    var k := CornersAt(g, X, Y);
    Position(X);
    Position(Y);
    FractionFits(X % 0x10_0000);
    FractionFits(Y % 0x10_0000);
    var xfract: int, yfract: int := ToInt32(Fraction(X) * 0x800), ToInt32(Fraction(Y) * 0x800);
    var out: int := ToInt32(ToInt64(k.x1 * (0x7FFF_FFFF - xfract)) / 0x1_0000_0000);
    var acc: int := ToInt32(ToInt64(out * (0x7FFF_FFFF - yfract)) / 0x1_0000_0000);
    out := ToInt32(ToInt64(k.x2 * (0x7FFF_FFFF - yfract)) / 0x1_0000_0000);
    acc := ToInt32(acc + ToInt32(ToInt64(out * xfract) / 0x1_0000_0000));
    out := ToInt32(ToInt64(k.y1 * (0x7FFF_FFFF - xfract)) / 0x1_0000_0000);
    acc := ToInt32(acc + ToInt32(ToInt64(out * yfract) / 0x1_0000_0000));
    out := ToInt32(ToInt64(k.y2 * xfract) / 0x1_0000_0000);
    acc := ToInt32(acc + ToInt32(ToInt64(out * yfract) / 0x1_0000_0000));
    r := Value(ToInt32(acc * 4));
    assert r.v == BlendQ31Wide(k, xfract, yfract) by { UnfoldCastTerm(); }
    CornersWithin(g, X, Y, -0x8000_0000, 0x7FFF_FFFF);
    BlendQ31WrapsAtMostOnce(k, xfract, yfract);
    ValueQ31Accurate(k, X % 0x10_0000, Y % 0x10_0000);
  }

  lemma UnfoldCastTerm()
    ensures forall v: int, w1: int, w2: int :: CastTermQ31(v, w1, w2)
              == ToInt32(ToInt64(ToInt32(ToInt64(v * w1) / 0x1_0000_0000) * w2) / 0x1_0000_0000)
  {
  }

  // ----- Points of a grid

  /**
   All three formats interpolate the documented surface through the four cells around the point,
   the wide format unless one of these cells has one of the thirteen lowest values; then modulo 2^32.
   */
  lemma GridAccuracy(g: Grid, X: Q31, Y: Q31)
    requires Readable(g, X, Y)
    ensures AllWithin(g.data, -0x8000, 0x7FFF) ==> CloseQ15(ValueQ15(g, X, Y), SurfaceAt(g, X, Y))
    ensures AllWithin(g.data, -0x80, 0x7F) ==> CloseQ7(ValueQ7(g, X, Y), SurfaceAt(g, X, Y))
    ensures AllWithin(g.data, -0x8000_0000, 0x7FFF_FFFF) ==>
      CloseQ31(ValueQ31(g, X, Y), SurfaceAt(g, X, Y))
      || CloseQ31(ValueQ31(g, X, Y) - 0x1_0000_0000, SurfaceAt(g, X, Y))
    ensures Within(CornersAt(g, X, Y), LOW, 0x7FFF_FFFF) ==> CloseQ31(ValueQ31(g, X, Y), SurfaceAt(g, X, Y))
  {
    Position(X);
    Position(Y);
    hide Index, Fraction, Readable, CornersAt, AllWithin, BlendQ15, BlendQ7, ScaledSurface, SumAt, CloseQ31, ToInt32;
    var k, xf, yf := CornersAt(g, X, Y), X % 0x10_0000, Y % 0x10_0000;
    if AllWithin(g.data, -0x8000, 0x7FFF) {
      CornersWithin(g, X, Y, -0x8000, 0x7FFF);
      BlendQ15Accurate(k, xf, yf);
    }
    if AllWithin(g.data, -0x80, 0x7F) {
      CornersWithin(g, X, Y, -0x80, 0x7F);
      BlendQ7Accurate(k, xf, yf);
    }
    if AllWithin(g.data, -0x8000_0000, 0x7FFF_FFFF) {
      CornersWithin(g, X, Y, -0x8000_0000, 0x7FFF_FFFF);
      ValueQ31Accurate(k, xf, yf);
    }
    if Within(k, LOW, 0x7FFF_FFFF) {
      ValueQ31Accurate(k, xf, yf);
    }
  }

  /** The documented element (col, row). */
  function Cell(g: Grid, col: nat, row: nat): int
    requires IsFull(g) && col < g.numCols && row < g.numRows
  {
    CellInData(g, col, row);
    g.data[col + row * g.numCols]
  }

  lemma CellInData(g: Grid, col: nat, row: nat)
    requires col < g.numCols && row < g.numRows
    ensures 0 <= col + row * g.numCols < g.numRows * g.numCols
  {
    assert (row + 1) * g.numCols <= g.numRows * g.numCols;
  }

  /** In the last column the right-hand neighbours are the first cells of the next two rows. */
  lemma LastColumnReadsNextRow(g: Grid, X: Q31, Y: Q31)
    requires IsFull(g)
    requires 0 <= Index(X) == g.numCols - 1 && 0 <= Index(Y) && Index(Y) + 2 < g.numRows
    ensures Readable(g, X, Y)
    ensures CornersAt(g, X, Y).x2 == Cell(g, 0, Index(Y) + 1)
    ensures CornersAt(g, X, Y).y2 == Cell(g, 0, Index(Y) + 2)
  {
    hide Index;
    CellInData(g, 0, Index(Y) + 2);
  }

  /** A surface a*x + b*y + c*x*y + d. */
  datatype Surface = Surface(a: int, b: int, c: int, d: int)

  function Height(f: Surface, x: int, y: int): int { f.a * x + f.b * y + f.c * (x * y) + f.d }

  /** The height at (x / t, y / t), scaled by t squared. */
  function ScaledHeight(f: Surface, t: int, x: int, y: int): int
  {
    t * (f.a * x + f.b * y) + f.c * (x * y) + t * t * f.d
  }

  predicate SampledFrom(g: Grid, f: Surface)
    requires IsFull(g)
  {
    forall col: nat, row: nat :: col < g.numCols && row < g.numRows ==> Cell(g, col, row) == Height(f, col, row)
  }

  /**
   A table sampled from a bilinear surface gives the surface back between its points, in all three
   formats and up to the truncations; and every read is inside the table.
   */
  lemma SurfaceIsReproduced(g: Grid, f: Surface, X: Q31, Y: Q31)
    requires IsFull(g) && SampledFrom(g, f)
    requires Guard(g, X, Y) && Index(X) + 1 < g.numCols && Index(Y) + 1 < g.numRows
    ensures Readable(g, X, Y)
    ensures var exact := ScaledHeight(f, 0x10_0000, X, Y);
      && (AllWithin(g.data, -0x8000, 0x7FFF) ==> CloseQ15(ValueQ15(g, X, Y), exact))
      && (AllWithin(g.data, -0x80, 0x7F) ==> CloseQ7(ValueQ7(g, X, Y), exact))
      && (AllWithin(g.data, -0x8000_0000, 0x7FFF_FFFF) ==>
            CloseQ31(ValueQ31(g, X, Y), exact) || CloseQ31(ValueQ31(g, X, Y) - 0x1_0000_0000, exact))
      && (Within(CornersAt(g, X, Y), LOW, 0x7FFF_FFFF) ==> CloseQ31(ValueQ31(g, X, Y), exact))
  {
    Position(X);
    Position(Y);
    var i, j := X / 0x10_0000, Y / 0x10_0000;
    CornersAreCells(g, X, Y);
    hide Index, Guard, Readable, CornersAt, Cell, ValueQ15, ValueQ7, ValueQ31, AllWithin;
    hide Height, ScaledHeight, ScaledSurface;
    SurfaceThroughCorners(f, CornersAt(g, X, Y), 0x10_0000, i, j, X % 0x10_0000, Y % 0x10_0000);
    GridAccuracy(g, X, Y);
  }

  lemma CornersAreCells(g: Grid, X: Q31, Y: Q31)
    requires IsFull(g)
    requires 0 <= Index(X) && Index(X) + 1 < g.numCols && 0 <= Index(Y) && Index(Y) + 1 < g.numRows
    ensures Readable(g, X, Y)
    ensures var i, j := Index(X), Index(Y);
      CornersAt(g, X, Y) == Corners(Cell(g, i, j), Cell(g, i + 1, j), Cell(g, i, j + 1), Cell(g, i + 1, j + 1))
  {
    hide Index;
    CellInData(g, Index(X) + 1, Index(Y) + 1);
  }

  lemma SurfaceThroughCorners(f: Surface, k: Corners, t: int, i: int, j: int, xf: int, yf: int)
    requires k == Corners(Height(f, i, j), Height(f, i + 1, j), Height(f, i, j + 1), Height(f, i + 1, j + 1))
    ensures ScaledSurface(k, t, xf, yf) == ScaledHeight(f, t, t * i + xf, t * j + yf)
  {
    var v, right, down := k.x1, f.a + f.c * j, f.b + f.c * i;
    assert k.x2 == v + right && k.y1 == v + down && k.y2 == v + right + down + f.c by { Neighbours(f, i, j); }
    hide Height;
    WeightsByDifference(v, right, down, f.c, t, xf, yf);
    Translated(f, t, i, j, xf, yf);
    assert v == f.a * i + f.b * j + f.c * (i * j) + f.d by { Neighbours(f, i, j); }
    hide ScaledHeight;
  }

  lemma Neighbours(f: Surface, i: int, j: int)
    ensures var v, right, down := f.a * i + f.b * j + f.c * (i * j) + f.d, f.a + f.c * j, f.b + f.c * i;
      && Height(f, i, j) == v
      && Height(f, i + 1, j) == v + right
      && Height(f, i, j + 1) == v + down
      && Height(f, i + 1, j + 1) == v + right + down + f.c
  {
    assert (i + 1) * j == i * j + j && i * (j + 1) == i * j + i && (i + 1) * (j + 1) == i * j + i + j + 1;
    Distribute(f.c, i * j, i, j, 1);
    assert f.c * (i * j + i) == f.c * (i * j) + f.c * i && f.c * (i * j + j) == f.c * (i * j) + f.c * j;
  }

  /** The four weights regrouped by the differences between the corners. */
  lemma WeightsByDifference(v: int, right: int, down: int, twist: int, t: int, xf: int, yf: int)
    ensures ScaledSurface(Corners(v, v + right, v + down, v + right + down + twist), t, xf, yf)
         == v * (t * t) + right * (t * xf) + down * (t * yf) + twist * (xf * yf)
  {
    var w1, w2, w3, w4 := (t - xf) * (t - yf), (t - yf) * xf, (t - xf) * yf, xf * yf;
    assert w1 + w2 + w3 + w4 == t * t && w2 + w4 == t * xf && w3 + w4 == t * yf;
    Distribute(v, w1, w2, w3, w4);
    Distribute(right, 0, w2, 0, w4);
    Distribute(down, 0, 0, w3, w4);
    assert (v + right) * w2 == v * w2 + right * w2 && (v + down) * w3 == v * w3 + down * w3;
    assert (v + right + down + twist) * w4 == v * w4 + right * w4 + down * w4 + twist * w4;
  }

  lemma Translated(f: Surface, t: int, i: int, j: int, xf: int, yf: int)
    ensures ScaledHeight(f, t, t * i + xf, t * j + yf)
         == (f.a * i + f.b * j + f.c * (i * j) + f.d) * (t * t) + (f.a + f.c * j) * (t * xf)
            + (f.b + f.c * i) * (t * yf) + f.c * (xf * yf)
  {
    var tt, tx, ty := t * t, t * xf, t * yf;
    Distribute(t, f.a * (t * i + xf), f.b * (t * j + yf), 0, 0);
    Scale(t, i, xf, f.a);
    Scale(t, j, yf, f.b);
    Twist(f.c, t, i, j, xf, yf);
    Distribute(tt, f.a * i, f.b * j, f.c * (i * j), f.d);
    Distribute(tx, f.a, f.c * j, 0, 0);
    Distribute(ty, f.b, f.c * i, 0, 0);
  }

  lemma Twist(c: int, t: int, i: int, j: int, xf: int, yf: int)
    ensures c * ((t * i + xf) * (t * j + yf))
         == (t * t) * (c * (i * j)) + (t * xf) * (c * j) + (t * yf) * (c * i) + c * (xf * yf)
  {
    ProductOfPoint(t, i, j, xf, yf);
    Distribute(c, (t * t) * (i * j), (t * xf) * j, (t * yf) * i, xf * yf);
    Swap(c, t * t, i * j);
    Swap(c, t * xf, j);
    Swap(c, t * yf, i);
  }

  lemma ProductOfPoint(t: int, i: int, j: int, xf: int, yf: int)
    ensures (t * i + xf) * (t * j + yf) == (t * t) * (i * j) + (t * xf) * j + (t * yf) * i + xf * yf
  {
    Distribute(t * i + xf, t * j, yf, 0, 0);
    Distribute(t * j, t * i, xf, 0, 0);
    Distribute(yf, t * i, xf, 0, 0);
    assert (t * i) * (t * j) == (t * t) * (i * j);
  }

  lemma Swap(a: int, b: int, c: int)
    ensures a * (b * c) == b * (a * c)
  {
  }

  lemma Scale(t: int, i: int, xf: int, a: int)
    ensures t * (a * (t * i + xf)) == (t * t) * (a * i) + a * (t * xf)
  {
    assert a * (t * i + xf) == t * (a * i) + a * xf;
  }

  lemma SurfaceIn31Bits(k: Corners, xf: int, yf: int)
    ensures ScaledSurface(k, 0x8000_0000, xf * 0x800, yf * 0x800) == 0x40_0000 * ScaledSurface(k, 0x10_0000, xf, yf)
  {
    Rescaled(k.x1, 0x10_0000 - xf, 0x10_0000 - yf);
    Rescaled(k.x2, 0x10_0000 - yf, xf);
    Rescaled(k.y1, 0x10_0000 - xf, yf);
    Rescaled(k.y2, xf, yf);
  }

  lemma Rescaled(v: int, a: int, b: int)
    ensures v * ((a * 0x800) * (b * 0x800)) == 0x40_0000 * (v * (a * b))
  {
    assert (a * 0x800) * (b * 0x800) == 0x40_0000 * (a * b);
  }
}
