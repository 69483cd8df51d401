/** Greatest common divisors and the multiples of a number modulo another. */
module Divisors {
  import opened Words

  function Gcd(a: nat, b: nat): nat
    decreases b
  {
    if b == 0 then a else Gcd(b, a % b)
  }

  /** The greatest common divisor divides both and is a combination of both. */
  lemma {:induction false} Bezout(a: nat, b: nat) returns (s: int, t: int, p: nat, q: nat)
    requires a > 0
    ensures Gcd(a, b) > 0
    ensures s * a + t * b == Gcd(a, b)
    ensures a == Gcd(a, b) * p && b == Gcd(a, b) * q
    decreases b
  {
    if b == 0 {
      s, t, p, q := 1, 0, 1, 0;
    } else {
      var s', t', p', q' := Bezout(b, a % b);
      BezoutStep(a, b, a / b, a % b, Gcd(a, b), s', t', p', q');
      s, t, p, q := t', s' - t' * (a / b), a / b * p' + q', p';
    }
  }

  lemma BezoutStep(a: nat, b: nat, m: nat, r: nat, g: nat, s: int, t: int, p: nat, q: nat)
    requires a == m * b + r
    requires s * b + t * r == g && b == g * p && r == g * q
    ensures t * a + (s - t * m) * b == g
    ensures a == g * (m * p + q) && m * p + q >= 0
  {
    assert t * a == t * (m * b) + t * r;
    assert (s - t * m) * b == s * b - t * (m * b);
    assert g * (m * p + q) == m * (g * p) + g * q;
  }

  lemma GcdPositive(a: nat, b: nat)
    requires a > 0
    ensures Gcd(a, b) > 0
  {
    var s, t, p, q := Bezout(a, b);
  }

  lemma CancelFactor(g: int, a: int, b: int)
    requires g > 0 && g * a == g * b
    ensures a == b
  {
  }

  lemma SignedBezout(n: nat, c: int) returns (s: int, t: int, p: nat, q: int)
    requires n > 0
    ensures var g := Gcd(n, Magnitude(c));
      g > 0 && p > 0 && n == g * p && c == g * q && s * n + t * c == g
  {
    s, t, p, q := Bezout(n, Magnitude(c));
    PositivePeriod(Gcd(n, Magnitude(c)), p);
    if c < 0 {
      assert t * Magnitude(c) == (0 - t) * c;
      assert Gcd(n, Magnitude(c)) * (0 - q) == c;
      t, q := 0 - t, 0 - q;
    }
  }

  /** Modulo n no multiple of c lies above n - gcd(n, c). */
  lemma MultiplesEndBelow(n: nat, c: int, f: int)
    requires n > 0
    ensures (c * f) % n <= n - Gcd(n, Magnitude(c))
  {
    var s, t, p, q := SignedBezout(n, c);
    var g, m, r := Gcd(n, Magnitude(c)), (c * f) / n, (c * f) % n;
    assert c * f == n * m + r;
    hide Gcd, Magnitude;
    CommonFactor(g, p, q, f, m, r);
    BelowMultiple(g, q * f - p * m, p);
  }

  lemma CommonFactor(g: int, p: int, q: int, f: int, m: int, r: int)
    requires g * q * f == g * p * m + r
    ensures r == g * (q * f - p * m)
  {
    assert g * (q * f - p * m) == g * (q * f) - g * (p * m);
  }

  lemma BelowMultiple(g: int, k: int, p: int)
    requires g > 0 && g * k < g * p
    ensures g * k <= g * p - g
  {
    if k >= p {
      ScaleMonotone(g, p, k);
    } else {
      ScaleMonotone(g, k, p - 1);
      assert g * (p - 1) == g * p - g;
    }
  }

  lemma ScaleMonotone(g: int, a: int, b: int)
    requires g > 0 && a <= b
    ensures g * a <= g * b
  {
  }

  /** And for even n and c the bound is reached within the first half of the multiples. */
  lemma HighestMultiple(n: nat, c: int) returns (f: nat)
    requires n > 0 && n % 2 == 0 && c % 2 == 0
    ensures 2 * f < n
    ensures (c * f) % n == n - Gcd(n, Magnitude(c))
  {
    var s, t, p, q := SignedBezout(n, c);
    var g := Gcd(n, Magnitude(c));
    hide Gcd, Magnitude;
    EvenDivisor(n, c, s, t, g);
    // The factor -t works; taking whole periods off it changes nothing modulo n.
    f := (0 - t) % p;
    var k := (0 - t) / p;
    OffByPeriods(n, c, g, s, t, p, q, f, k);
    GcdAtMost(g, p, n);
    DivModUnique(c * f, n, s - q * k - 1, n - g);
    HalfPeriod(g, p, f);
  }

  lemma OffByPeriods(n: int, c: int, g: int, s: int, t: int, p: int, q: int, f: int, k: int)
    requires n == g * p && c == g * q && s * n + t * c == g
    requires 0 - t == p * k + f
    ensures c * f == (s - q * k - 1) * n + (n - g)
  {
    assert c * f == 0 - t * c - c * (p * k) by { assert c * (0 - t - p * k) == 0 - t * c - c * (p * k); }
    assert c * (p * k) == (g * p) * (q * k);
    assert (s - q * k - 1) * n == s * n - n * (q * k) - n;
  }

  lemma EvenDivisor(n: int, c: int, s: int, t: int, g: int)
    requires n % 2 == 0 && c % 2 == 0 && s * n + t * c == g && g > 0
    ensures g >= 2
  {
    var a, b := n / 2, c / 2;
    assert s * n == 2 * (s * a) && t * c == 2 * (t * b);
  }

  lemma PositivePeriod(g: int, p: nat)
    requires g > 0 && g * p > 0
    ensures p > 0
  {
  }

  lemma GcdAtMost(g: int, p: nat, n: int)
    requires g > 0 && p > 0 && n == g * p
    ensures g <= n
  {
    assert g * (p - 1) >= 0;
  }

  lemma HalfPeriod(g: int, p: nat, f: nat)
    requires g >= 2 && f < p
    ensures 2 * f < g * p
  {
    assert (g - 2) * p >= 0;
  }
}
