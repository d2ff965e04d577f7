/** The scaled numbers stand in the ratio of the floating-point number and its margins to a power of ten. */
module Ratios {
  import opened Arith
  import opened Decimal
  import opened DigitLimit
  import opened Dtoa
  import opened Floats
  import opened ReadBack
  import opened Scaling

  /** b / S and c / T are the same number. */
  ghost predicate Same(b: int, S: int, c: int, T: int) {
    S > 0 && T > 0 && b * T == c * S
  }

  lemma SameTrans(b: int, S: int, c: int, T: int, d: int, U: int)
    requires Same(b, S, c, T) && Same(c, T, d, U)
    ensures Same(b, S, d, U)
  {
    calc {
      b * U * T;
      { SwapLast(b, U, T); }
      c * S * U;
      { SwapLast(c, S, U); }
      d * T * S;
      { SwapLast(d, T, S); }
      d * S * T;
    }
    SameFactor(b * U, d * S, T);
  }

  /** If numerators are c times the margins, the margins stand in the same ratio. */
  lemma MarginsSame(b: int, S: int, b': int, S': int, m: int, m': int, c: int)
    requires Same(b, S, b', S') && b == c * m && b' == c * m' && c > 0
    ensures Same(m, S, m', S')
  {
    MulAssoc(c, m, S');
    MulAssoc(c, m', S);
    SameFactor(m * S', m' * S, c);
  }

  /** x / 10^k. */
  ghost function Numerator(f: Format, x: Float, k: int): int
    requires x.q >= f.lowest
  {
    Steps(f, x) * Part(10, -k)
  }

  function Denominator(f: Format, k: int): (d: int)
    requires f.lowest <= 0
    ensures d > 0
  {
    MulLe(1, Pow(2, -f.lowest), Part(10, k));
    Pow(2, -f.lowest) * Part(10, k)
  }

  /** One power of ten less is ten times the quotient. */
  lemma TenMore(k: int)
    ensures 10 * Part(10, -k) * Part(10, k - 1) == Part(10, 1 - k) * Part(10, k)
  {
    if k >= 1 {
      assert Part(10, k) == 10 * Part(10, k - 1);
    } else {
      assert Part(10, 1 - k) == 10 * Part(10, -k);
    }
  }

  lemma NextExponent(f: Format, x: Float, k: int)
    requires x.q >= f.lowest && f.lowest <= 0
    ensures Same(10 * Numerator(f, x, k), Denominator(f, k), Numerator(f, x, k - 1), Denominator(f, k - 1))
  {
    TenMore(k);
    var n, Z := Steps(f, x), Pow(2, -f.lowest);
    TenTimesRatio(n, Z, Part(10, -k), Part(10, k - 1), Part(10, 1 - k), Part(10, k));
  }

  lemma TenTimesRatio(n: int, Z: int, a: int, b: int, c: int, d: int)
    requires 10 * a * b == c * d
    ensures 10 * (n * a) * (Z * b) == n * c * (Z * d)
  {
    calc {
      10 * (n * a) * (Z * b);
      n * Z * (10 * a * b);
      n * Z * (c * d);
      n * c * (Z * d);
    }
  }

  lemma TenOfBoth(b: int, S: int, c: int, T: int)
    requires Same(b, S, c, T)
    ensures Same(10 * b, S, 10 * c, T)
  {
    MulAssoc(10, b, T);
    MulAssoc(10, c, S);
  }

  /** If b / S is x / 10^k, ten times that is x / 10^(k - 1). */
  lemma SameAtNext(f: Format, x: Float, k: int, b: int, S: int)
    requires x.q >= f.lowest && f.lowest <= 0 && Same(b, S, Numerator(f, x, k), Denominator(f, k))
    ensures Same(10 * b, S, Numerator(f, x, k - 1), Denominator(f, k - 1))
  {
    TenOfBoth(b, S, Numerator(f, x, k), Denominator(f, k));
    NextExponent(f, x, k);
    SameTrans(10 * b, S, 10 * Numerator(f, x, k), Denominator(f, k), Numerator(f, x, k - 1), Denominator(f, k - 1));
  }

  // ---- modes 0 and 1 ----

  /** How often the margin goes into the number: M units, each of two or four margins. */
  function Share(x: Float, quarter: bool): int {
    if quarter then 4 * x.M else 2 * x.M
  }

  lemma GapSame(f: Format, x: Float, k: int, quarter: bool, closed: bool)
    requires x.q >= f.lowest && f.lowest <= 0
    ensures var g := GapTarget(f, x, k, quarter, closed);
            && Same(g.b, g.S, Numerator(f, x, k), Denominator(f, k)) && g.b == Share(x, quarter) * g.mlo
  {
    var n, u, T, d := Steps(f, x), Unit(f, x), Part(10, -k), Denominator(f, k);
    assert 4 * n * T * d == n * T * (4 * d) by { MulAssoc(4, n, T); MulAssoc(4, n * T, d); }
    GapShare(x.M, u, T);
  }

  lemma GapShare(M: int, u: int, T: int)
    ensures 4 * (M * u) * T == 4 * M * (u * T) && 4 * (M * u) * T == 2 * M * (2 * u * T)
  {
    calc {
      4 * (M * u) * T;
      { MulAssoc(4, M, u); MulAssoc(4 * M, u, T); }
      4 * M * (u * T);
      { MulAssoc(2, u, T); }
      2 * M * (2 * u * T);
    }
  }

  /** The digits of modes 0 and 1 from numbers in the ratio of x and its margins to 10^k. */
  lemma ShortestAt(f: Format, x: Float, k: int, mode: int, ndigits: int, quarter: bool, even: bool, b: int, S: int,
                   m: int, s: seq<int>, decpt: int)
    requires 0 <= mode <= 1 && x.q >= f.lowest && f.lowest <= 0 && x.M > 0
    requires Same(b, S, Numerator(f, x, k), Denominator(f, k)) && b == Share(x, quarter) * m
    requires Promised(mode, ndigits, even, quarter, k, b, S, m, -1, s, decpt)
    ensures ShortestFor(GapTarget(f, x, k, quarter, mode == 0 && even), k, s, decpt - 1)
  {
    var g := GapTarget(f, x, k, quarter, mode == 0 && even);
    GapSame(f, x, k, quarter, mode == 0 && even);
    SameTrans(b, S, Numerator(f, x, k), Denominator(f, k), g.b, g.S);
    MarginsSame(b, S, g.b, g.S, m, g.mlo, Share(x, quarter));
    SameRatios(mode, ndigits, even, quarter, k, b, S, m, g.b, g.S, g.mlo, -1, s, decpt);
    GapMargins(f, x, k, mode, quarter, even);
  }

  lemma GapMargins(f: Format, x: Float, k: int, mode: int, quarter: bool, even: bool)
    requires 0 <= mode <= 1 && x.q >= f.lowest && f.lowest <= 0
    ensures var g := GapTarget(f, x, k, quarter, mode == 0 && even);
            TargetOf(mode, even, quarter, g.b, g.S, g.mlo) == g
  {
    MulAssoc(2, Unit(f, x), Part(10, -k));
  }

  /** Whichever exponent the estimate comes to, the digits are those of x with its margins. */
  lemma EstimatedShortest(f: Format, x: Float, k: int, mode: int, ndigits: int, quarter: bool, even: bool,
                          b: int, S: int, m: int, s: seq<int>, decpt: int) returns (k': int)
    requires 0 <= mode <= 1 && x.q >= f.lowest && f.lowest <= 0 && x.M > 0
    requires Same(b, S, Numerator(f, x, k), Denominator(f, k)) && b == Share(x, quarter) * m
    requires Estimated(mode, ndigits, even, quarter, k, b, S, m, -1, -1, s, decpt)
    ensures ShortestFor(GapTarget(f, x, k', quarter, mode == 0 && even), k', s, decpt - 1)
  {
    if b < S {
      k' := k - 1;
      SameAtNext(f, x, k, b, S);
      TenAndFactor(Share(x, quarter), m);
      ShortestAt(f, x, k - 1, mode, ndigits, quarter, even, 10 * b, S, 10 * m, s, decpt);
    } else {
      k' := k;
      ShortestAt(f, x, k, mode, ndigits, quarter, even, b, S, m, s, decpt);
    }
  }

  // ---- rounding ----

  /** The string s with decimal point at decpt is x rounded to a multiple of 10^-place, nearest, ties to even. */
  ghost predicate RoundedPlace(f: Format, x: Float, place: int, s: seq<int>, decpt: int)
    requires x.q >= f.lowest && f.lowest <= 0
  {
    && (s == [] || (Canonical(s) && decpt - |s| + place >= 0))
    && RoundsTo(Steps(f, x) * Part(10, place), Pow(2, -f.lowest) * Part(10, -place),
                if s == [] then 0 else DigitsValue(s) * Pow10(decpt - |s| + place))
  }

  lemma RoundsSame(n: int, d: int, n': int, d': int, v: int)
    requires Same(n, d, n', d') && RoundsTo(n, d, v)
    ensures RoundsTo(n', d', v)
  {
    RoundsScales(n, d, d', v);
    RoundsScales(n', d', d, v);
    assert d * d' == d' * d;
  }

  /** b / S times 10^a over 10^q is x times 10^place if b / S is x / 10^k. */
  lemma PlaceSame(f: Format, x: Float, k: int, b: int, S: int, a: nat, q: nat, place: int)
    requires x.q >= f.lowest && f.lowest <= 0 && Same(b, S, Numerator(f, x, k), Denominator(f, k)) && place == a - k - q
    ensures Same(b * Pow10(a), S * Pow10(q), Steps(f, x) * Part(10, place), Pow(2, -f.lowest) * Part(10, -place))
  {
    var n, Z := Steps(f, x), Pow(2, -f.lowest);
    Balance(a, q, -k, place);
    PlaceRatio(b, S, n, Z, Part(10, -k), Part(10, k), Pow10(a), Pow10(q), Part(10, place), Part(10, -place));
    MulLe(1, S, Pow10(q));
    MulLe(1, Z, Part(10, -place));
  }

  lemma PlaceRatio(b: int, S: int, n: int, Z: int, T: int, K: int, a: int, q: int, p: int, r: int)
    requires b * (Z * K) == n * T * S && a * T * r == p * K * q && K > 0
    ensures b * a * (Z * r) == n * p * (S * q)
  {
    calc {
      b * a * (Z * r) * K;
      { PlaceLeft(b, a, Z, r, K); }
      b * (Z * K) * (a * r);
      n * T * S * (a * r);
      { PlaceMiddle(n, T, S, a, r); }
      n * S * (a * T * r);
      n * S * (p * K * q);
      { PlaceRight(n, S, p, K, q); }
      n * p * (S * q) * K;
    }
    SameFactor(b * a * (Z * r), n * p * (S * q), K);
  }

  lemma PlaceLeft(b: int, a: int, Z: int, r: int, K: int)
    ensures b * a * (Z * r) * K == b * (Z * K) * (a * r)
  {
    calc {
      b * a * (Z * r) * K;
      { MulAssoc(b * a, Z * r, K); SwapLast(Z, r, K); }
      b * a * (Z * K * r);
      { MulAssoc(b * a, Z * K, r); SwapLast(b, a, Z * K); }
      b * (Z * K) * a * r;
      { MulAssoc(b * (Z * K), a, r); }
      b * (Z * K) * (a * r);
    }
  }

  lemma PlaceMiddle(n: int, T: int, S: int, a: int, r: int)
    ensures n * T * S * (a * r) == n * S * (a * T * r)
  {
    calc {
      n * T * S * (a * r);
      { SwapLast(n, T, S); MulAssoc(n * S, T, a * r); }
      n * S * (T * (a * r));
      { MulAssoc(T, a, r); }
      n * S * (a * T * r);
    }
  }

  lemma PlaceRight(n: int, S: int, p: int, K: int, q: int)
    ensures n * S * (p * K * q) == n * p * (S * q) * K
  {
    calc {
      n * S * (p * K * q);
      { SwapLast(p, K, q); MulAssoc(n * S, p * q, K); }
      n * S * (p * q) * K;
      { MulAssoc(n, S, p * q); MulAssoc(S, p, q); MulAssoc(p, S, q); MulAssoc(n, p, S * q); }
      n * p * (S * q) * K;
    }
  }

  /** Rounded to n digits from 10^k on is rounded at the place of the n-th. */
  lemma RoundedAtPlace(f: Format, x: Float, k: int, b: int, S: int, n: int, s: seq<int>, decpt: int)
    requires x.q >= f.lowest && f.lowest <= 0 && Same(b, S, Numerator(f, x, k), Denominator(f, k))
    requires RoundedAt(b, S, k, n, s, decpt - 1)
    ensures RoundedPlace(f, x, n - 1 - k, s, decpt)
  {
    var place, N, Z := n - 1 - k, Steps(f, x), Pow(2, -f.lowest);
    assert Pow10(0) == 1;
    if n >= 1 {
      PlaceSame(f, x, k, b, S, n - 1, 0, place);
      RoundsSame(b * Pow10(n - 1), S, N * Part(10, place), Z * Part(10, -place), InUnits(s, decpt - 1, k, n));
    } else {
      PlaceSame(f, x, k, b, S, 0, 1 - n, place);
      RoundsSame(b, S * Pow10(1 - n), N * Part(10, place), Z * Part(10, -place), |s|);
      if s != [] {
        assert s == [] + [1];
        DigitsSnoc([], 1);
      }
    }
  }

  /** x lies between 10^k, inclusive, and 10^(k + 1). */
  ghost predicate InDecade(f: Format, x: Float, k: int)
    requires x.q >= f.lowest && f.lowest <= 0
  {
    Denominator(f, k) <= Numerator(f, x, k) < 10 * Denominator(f, k)
  }

  /** The exponent that an estimate comes to: one less if the quotient is below one. */
  function TrueExponent(k: int, b: int, S: int): int {
    if b < S then k - 1 else k
  }

  /** The digit limit at the exponent the estimate comes to. */
  function TrueLimit(ilim: int, ilim1: int, b: int, S: int): int {
    if b < S then ilim1 else ilim
  }

  /** Modes 2 and 3 round x at the place of the last digit asked for. */
  lemma EstimatedRounds(f: Format, x: Float, k: int, mode: int, ndigits: int, even: bool, quarter: bool,
                        b: int, S: int, m: int, ilim: int, ilim1: int, s: seq<int>, decpt: int)
    requires mode == 2 || mode == 3
    requires x.q >= f.lowest && f.lowest <= 0 && Same(b, S, Numerator(f, x, k), Denominator(f, k))
    requires Estimated(mode, ndigits, even, quarter, k, b, S, m, ilim, ilim1, s, decpt)
    ensures RoundedPlace(f, x, TrueLimit(ilim, ilim1, b, S) - 1 - TrueExponent(k, b, S), s, decpt)
  {
    if b < S {
      SameAtNext(f, x, k, b, S);
      RoundedAtPlace(f, x, k - 1, 10 * b, S, ilim1, s, decpt);
    } else {
      RoundedAtPlace(f, x, k, b, S, ilim, s, decpt);
    }
  }

  // ---- modes 4 and 5 ----

  lemma FivesOfTens(x: int, X: int, v: int)
    ensures 10 * (2 * X * x * v) == 2 * X * x * (10 * v)
  {
    MulAssoc(10, 2 * X * x, v);
    MulAssoc(2 * X * x, 10, v);
  }

  /** With margins of one part in 2 f 10^(ilim - 1), a significand f of two digits makes all margins narrow. */
  lemma NarrowForSignificand(b: int, S: int, m: int, f: int, X: int)
    requires f >= 10 && b == 2 * X * f * m && 0 < S && b < 10 * S && m > 0 && X > 0
    ensures 2 * m * X <= S
  {
    assert 2 * m * f * X == b by { SwapLast(2 * X, f, m); SwapLast(2, X, m); SwapLast(2 * m, X, f); }
    MarginsOfSignificand(b, S, m, f, X);
    MulLe(10, f, S);
  }

  /** With one digit less than the margins are made for, they are narrow for every significand. */
  lemma NarrowForOneLess(b: int, S: int, m: int, f: int, n: nat)
    requires f >= 1 && b == 2 * Pow10(n) * f * m && 0 < b < S && m > 0 && n >= 1
    ensures 2 * (10 * m) * Pow10(n - 1) <= S
  {
    var X := Pow10(n - 1);
    assert Pow10(n) == 10 * X;
    assert 2 * (10 * m) * X == 2 * Pow10(n) * m by { SwapLast(20, m, X); }
    assert b == 2 * Pow10(n) * m * f by { SwapLast(2 * Pow10(n), f, m); }
    MulLe(0, m, 2 * Pow10(n));
    MulLe(1, f, 2 * Pow10(n) * m);
  }

  /**
   * With a significand of two digits or more, modes 4 and 5 round x as modes 2 and 3 do; mode 5 does so for every
   * significand if the estimate was too high.
   */
  lemma EstimatedLimited(f: Format, x: Float, k: int, mode: int, ndigits: int, even: bool, quarter: bool,
                         b: int, S: int, m: int, sig: int, ilim: int, ilim1: int, s: seq<int>, decpt: int)
    requires mode == 4 || mode == 5
    requires x.q >= f.lowest && f.lowest <= 0 && Same(b, S, Numerator(f, x, k), Denominator(f, k))
    requires ilim1 == (if mode == 5 then ilim - 1 else ilim) && 0 < b < 10 * S && m > 0 && sig >= 1
    requires ilim >= 1 ==> b == 2 * Pow10(ilim - 1) * sig * m
    requires sig >= 10 || ilim <= 0 || (mode == 5 && b < S)
    requires Estimated(mode, ndigits, even, quarter, k, b, S, m, ilim, ilim1, s, decpt)
    ensures RoundedPlace(f, x, TrueLimit(ilim, ilim1, b, S) - 1 - TrueExponent(k, b, S), s, decpt)
  {
    if b < S {
      SameAtNext(f, x, k, b, S);
      if ilim1 >= 1 {
        if mode == 5 {
          NarrowForOneLess(b, S, m, sig, ilim1);
        } else {
          FivesOfTens(sig, Pow10(ilim - 1), m);
          NarrowForSignificand(10 * b, S, 10 * m, sig, Pow10(ilim - 1));
        }
      }
      RoundedAtPlace(f, x, k - 1, 10 * b, S, ilim1, s, decpt);
    } else {
      if ilim >= 1 { NarrowForSignificand(b, S, m, sig, Pow10(ilim - 1)); }
      RoundedAtPlace(f, x, k, b, S, ilim, s, decpt);
    }
  }

  /** x is sig * 2^e, with z bits of M in the power. */
  ghost predicate SignificandOf(f: Format, x: Float, sig: int, e: int, z: nat) {
    x.q >= f.lowest && f.lowest <= 0 && e == x.q + z && x.M == sig * Pow(2, z)
  }

  lemma TwosBalance(e: int, low: nat)
    requires e + low >= 0
    ensures Pow(2, e + low) * Part(2, -e) == Part(2, e) * Pow(2, low)
  {
    if e >= 0 {
      PowAdd(2, e, low);
    } else {
      PowAdd(2, e + low, -e);
    }
  }

  /** The number and the margins of a digit limit stand in the ratio of x to 10^k. */
  lemma LimitSame(f: Format, x: Float, sig: int, e: int, z: nat, k: int, n: int)
    requires SignificandOf(f, x, sig, e, z) && n >= 1
    ensures var g := LimitTarget(sig, e, k, n);
            Same(g.b, g.S, Numerator(f, x, k), Denominator(f, k)) && g.b == 2 * Pow10(n - 1) * sig * g.mlo
  {
    var low: nat, X := -f.lowest, 2 * Pow10(n - 1);
    PowAdd(2, z, x.q - f.lowest);
    MulAssoc(sig, Pow(2, z), Unit(f, x));
    assert Steps(f, x) == sig * Pow(2, e + low);
    TwosBalance(e, low);
    LimitRatio(X, sig, Pow(2, e + low), Part(2, e), Part(2, -e), Pow(2, low), Part(10, -k), Part(10, k));
    MulLe(1, Part(2, -e), Part(10, k));
    MulLe(1, Part(2, -e) * Part(10, k), X);
  }

  lemma LimitRatio(X: int, s: int, u: int, p: int, r: int, Z: int, T: int, K: int)
    requires u * r == p * Z
    ensures X * s * (p * T) * (Z * K) == s * u * T * (X * (r * K))
  {
    calc {
      X * s * (p * T) * (Z * K);
      { LimitLeft(X, s, p, T, Z, K); }
      X * s * (T * K) * (p * Z);
      X * s * (T * K) * (u * r);
      { LimitRight(X, s, u, T, r, K); }
      s * u * T * (X * (r * K));
    }
  }

  lemma LimitLeft(X: int, s: int, p: int, T: int, Z: int, K: int)
    ensures X * s * (p * T) * (Z * K) == X * s * (T * K) * (p * Z)
  {
    var Y := X * s;
    MulAssoc(Y, p * T, Z * K);
    MulAssoc(Y, T * K, p * Z);
    assert p * T * (Z * K) == T * K * (p * Z) by {
      MulAssoc(p, T, Z * K);
      MulAssoc(T, Z, K);
      SwapLast(T, Z, K);
      MulAssoc(T * K, p, Z);
      MulAssoc(p, T * K, Z);
    }
  }

  lemma LimitRight(X: int, s: int, u: int, T: int, r: int, K: int)
    ensures X * s * (T * K) * (u * r) == s * u * T * (X * (r * K))
  {
    calc {
      X * s * (T * K) * (u * r);
      { SwapLast(X, s, T * K); MulAssoc(X, T * K, s); MulAssoc(X, s, T * K); }
      X * (s * (T * K)) * (u * r);
      { MulAssoc(X, s * (T * K), u * r); }
      X * (s * (T * K) * (u * r));
      { LimitInner(s, u, T, r, K); }
      X * (s * u * T * (r * K));
      { MulAssoc(X, s * u * T, r * K); MulAssoc(s * u * T, X, r * K); }
      s * u * T * (X * (r * K));
    }
  }

  lemma LimitInner(s: int, u: int, T: int, r: int, K: int)
    ensures s * (T * K) * (u * r) == s * u * T * (r * K)
  {
    calc {
      s * (T * K) * (u * r);
      { MulAssoc(s * (T * K), u, r); SwapLast(s, T * K, u); }
      s * u * (T * K) * r;
      { MulAssoc(s * u, T, K); }
      s * u * T * K * r;
      { MulAssoc(s * u * T, K, r); }
      s * u * T * (r * K);
    }
  }

  /** Modes 4 and 5 at a digit limit: the shortest decimal within the margins of the limit if any, or rounded. */
  ghost predicate LimitedTo(f: Format, x: Float, sig: int, e: int, k: int, n: int, s: seq<int>, decpt: int)
    requires x.q >= f.lowest && f.lowest <= 0 && n >= 1
  {
    var g := LimitTarget(sig, e, k, n);
    if NoneShorter(g, n + 1) then RoundedPlace(f, x, n - 1 - k, s, decpt)
    else ShortestFor(g, k, s, decpt - 1) && |s| <= n
  }

  lemma LimitedAt(f: Format, x: Float, sig: int, e: int, z: nat, k: int, n: int, mode: int, ndigits: int, even: bool,
                  quarter: bool, b: int, S: int, m: int, s: seq<int>, decpt: int)
    requires (mode == 4 || mode == 5) && SignificandOf(f, x, sig, e, z) && n >= 1 && sig >= 1
    requires Same(b, S, Numerator(f, x, k), Denominator(f, k)) && b == 2 * Pow10(n - 1) * sig * m
    requires Promised(mode, ndigits, even, quarter, k, b, S, m, n, s, decpt)
    ensures LimitedTo(f, x, sig, e, k, n, s, decpt)
  {
    var g := LimitTarget(sig, e, k, n);
    LimitSame(f, x, sig, e, z, k, n);
    SameTrans(b, S, Numerator(f, x, k), Denominator(f, k), g.b, g.S);
    MulLe(1, sig, 2 * Pow10(n - 1));
    MarginsSame(b, S, g.b, g.S, m, g.mlo, 2 * Pow10(n - 1) * sig);
    SameRatios(mode, ndigits, even, quarter, k, b, S, m, g.b, g.S, g.mlo, n, s, decpt);
    if NoneShorter(g, n + 1) { RoundedAtPlace(f, x, k, g.b, g.S, n, s, decpt); }
  }
}
