/** What the exponents of two and five make of a significand and its margin. */
module ExponentRatios {
  import opened Arith
  import opened BigGenerate
  import opened Decimal
  import opened DigitLimit
  import opened Floats
  import opened Preparation
  import opened Ratios

  lemma PartTenIs(k: int)
    ensures Part(10, k) == Part(2, k) * Part(5, k)
  {
    if k >= 0 { TenIsTwoFives(k); }
  }

  /** Non-negative part of an exponent. */
  function Plus(k: int): nat {
    if k >= 0 then k else 0
  }

  lemma PowersBalance(base: nat, b: nat, s: nat, e: int, k: int)
    requires b - s == e - k
    ensures Pow(base, b) * Part(base, -e) * Part(base, k) == Pow(base, s) * Part(base, e) * Part(base, -k)
  {
    PowAdd(base, b, Plus(-e));
    PowAdd(base, b + Plus(-e), Plus(k));
    PowAdd(base, s, Plus(e));
    PowAdd(base, s + Plus(e), Plus(-k));
  }

  /** The exponents make the quotient sig * 2^e / 10^k. */
  lemma ExponentsBalance(x: Exponents, e: int, k: int)
    requires Balanced(x, e, k) && x.b2 >= 0 && x.b5 >= 0 && x.s2 >= 0 && x.s5 >= 0
    ensures Pow(2, x.b2) * Pow(5, x.b5) * (Part(2, -e) * Part(10, k))
            == Pow(2, x.s2) * Pow(5, x.s5) * (Part(2, e) * Part(10, -k))
  {
    PowersBalance(2, x.b2, x.s2, e, k);
    PowersBalance(5, x.b5, x.s5, 0, k);
    assert Part(5, 0) == 1;
    PartTenIs(k);
    PartTenIs(-k);
    Rearranged(Pow(2, x.b2), Pow(5, x.b5), Part(2, -e), Part(2, k), Part(5, k));
    Rearranged(Pow(2, x.s2), Pow(5, x.s5), Part(2, e), Part(2, -k), Part(5, -k));
  }

  lemma Rearranged(a: int, b: int, c: int, d: int, e: int)
    ensures a * b * (c * (d * e)) == a * c * d * (b * e)
  {
    calc {
      a * b * (c * (d * e));
      { MulAssoc(a, b, c * (d * e)); MulAssoc(c, d, e); }
      a * (b * (c * d * e));
      { MulAssoc(b, c * d, e); MulAssoc(c * d, b, e); }
      a * (c * d * (b * e));
      { MulAssoc(a, c * d, b * e); MulAssoc(a, c, d); }
      a * c * d * (b * e);
    }
  }

  ghost predicate NonNegative(x: Exponents) {
    x.b2 >= 0 && x.b5 >= 0 && x.m2 >= 0 && x.m5 >= 0 && x.s2 >= 0 && x.s5 >= 0
  }

  /** The numerator: the significand with its powers. */
  ghost function Upper(x: Exponents, sig: int): int
    requires NonNegative(x)
  {
    Pow(2, x.b2) * (Pow(5, x.b5) * sig)
  }

  ghost function Lower(x: Exponents): int
    requires NonNegative(x)
  {
    Pow(2, x.s2) * Pow(5, x.s5)
  }

  ghost function Margin(x: Exponents): int
    requires NonNegative(x)
  {
    Pow(2, x.m2) * Pow(5, x.m5)
  }

  lemma Positive(x: Exponents)
    requires NonNegative(x)
    ensures Lower(x) > 0 && Margin(x) > 0
  {
    MulLe(1, Pow(2, x.s2), Pow(5, x.s5));
    MulLe(1, Pow(2, x.m2), Pow(5, x.m5));
  }

  /** The scaled numbers are in the ratio of the number to 10^k. */
  lemma UpperSame(f: Format, y: Float, sig: int, e: int, z: nat, k: int, x: Exponents)
    requires NonNegative(x) && Balanced(x, e, k) && SignificandOf(f, y, sig, e, z)
    ensures Same(Upper(x, sig), Lower(x), Numerator(f, y, k), Denominator(f, k))
  {
    var g := LimitTarget(sig, e, k, 1);
    Positive(x);
    ExponentsBalance(x, e, k);
    LimitSame(f, y, sig, e, z, k, 1);
    assert Pow10(0) == 1;
    UpperRatio(Pow(2, x.b2), Pow(5, x.b5), sig, Part(2, -e) * Part(10, k), Lower(x), Part(2, e) * Part(10, -k));
    SameTrans(Upper(x, sig), Lower(x), g.b, g.S, Numerator(f, y, k), Denominator(f, k));
  }

  lemma UpperRatio(p: int, q: int, sig: int, w: int, D: int, a: int)
    requires p * q * w == D * a
    ensures p * (q * sig) * (2 * 1 * w) == 2 * 1 * sig * a * D
  {
    calc {
      p * (q * sig) * (2 * w);
      { MulAssoc(p, q, sig); MulAssoc(2, p * q * sig, w); SwapLast(p * q, sig, w); }
      2 * (p * q * w * sig);
      2 * (D * a * sig);
      { SwapLast(D, a, sig); MulAssoc(2, sig, a); MulAssoc(2 * sig, a, D); MulAssoc(sig, a, D); MulAssoc(D, sig, a); }
      2 * sig * a * D;
    }
  }

  /** The numerator is so often the margin as the exponents differ. */
  lemma UpperShare(x: Exponents, sig: int, two: nat, five: nat)
    requires NonNegative(x) && MarginLess(x, two, five)
    ensures Upper(x, sig) == Pow(2, two) * Pow(5, five) * sig * Margin(x)
  {
    PowAdd(2, two, x.m2);
    PowAdd(5, five, x.m5);
    ShareRatio(Pow(2, two), Pow(2, x.m2), Pow(5, five), Pow(5, x.m5), sig);
  }

  lemma ShareRatio(a: int, b: int, c: int, d: int, s: int)
    ensures a * b * (c * d * s) == a * c * s * (b * d)
  {
    calc {
      a * b * (c * d * s);
      { MulAssoc(a, b, c * d * s); SwapLast(c, d, s); }
      a * (b * (c * s * d));
      { MulAssoc(b, c * s, d); MulAssoc(c * s, b, d); }
      a * (c * s * (b * d));
      { MulAssoc(a, c * s, b * d); MulAssoc(a, c, s); }
      a * c * s * (b * d);
    }
  }

  /** In modes 0 and 1 the margin is half a unit, or a quarter. */
  lemma UnitShare(f: Format, y: Float, sig: int, e: int, z: nat, x: Exponents, quarter: bool)
    requires NonNegative(x) && MarginLess(x, if quarter then z + 2 else z + 1, 0) && SignificandOf(f, y, sig, e, z)
    ensures Upper(x, sig) == Share(y, quarter) * Margin(x)
  {
    var two: nat := if quarter then z + 2 else z + 1;
    UpperShare(x, sig, two, 0);
    assert Pow(5, 0) == 1;
    assert Pow(2, z + 1) == 2 * Pow(2, z) && Pow(2, z + 2) == 2 * Pow(2, z + 1);
    assert Pow(2, two) * sig == Share(y, quarter) by {
      MulAssoc(2, Pow(2, z), sig);
      MulAssoc(4, Pow(2, z), sig);
    }
  }

  /** With a limit of n digits it is one part in 2 sig 10^(n - 1). */
  lemma LimitShare(sig: int, x: Exponents, n: nat)
    requires NonNegative(x) && n >= 1 && MarginLess(x, n, n - 1)
    ensures Upper(x, sig) == 2 * Pow10(n - 1) * sig * Margin(x)
  {
    UpperShare(x, sig, n, n - 1);
    TenIsTwoFives(n - 1);
    assert Pow(2, n) == 2 * Pow(2, n - 1);
    MulAssoc(2, Pow(2, n - 1), Pow(5, n - 1));
  }

  /** The margin that digit generation starts with; without powers of five in the numerator it has none. */
  ghost function StartMargin(x: Exponents, mode: int, single: bool): int
    requires NonNegative(x)
  {
    if mode == 2 || mode == 3 then 0 else Pow(2, x.m2 + Wider(single)) * Pow(5, if x.b5 > 0 then x.m5 else 0)
  }
}
