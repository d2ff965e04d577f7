/** When the modes that generate digits from left to right up to a limit round correctly. */
module DigitLimit {
  import opened Arith
  import opened Decimal
  import opened Dtoa
  import opened Shortest

  /** Equal margins that do not count themselves, as in the modes with a digit limit. */
  ghost predicate Even(g: Target) {
    g.Valid() && g.mlo == g.mhi && !g.closed
  }

  /** A string in units of its own last digit and of the n-th digit. */
  lemma UnitsOf(s: seq<int>, k': int, k: int, n: int)
    requires s != [] && k <= k' && |s| <= n
    ensures InUnits(s, k', k, n) == InUnits(s, k', k, |s|) * Pow10(n - |s|)
    ensures Pow10(n - 1) == Pow10(|s| - 1) * Pow10(n - |s|)
  {
    PowAdd(10, k' - k, n - |s|);
    MulAssoc(DigitsValue(s), Pow10(k' - k), Pow10(n - |s|));
    PowAdd(10, |s| - 1, n - |s|);
  }

  /** With margins of more than half a unit of the n-th digit, the correctly rounded decimal lies within them. */
  lemma RoundedIsAccepted(g: Target, k: int, n: int, r: seq<int>, kr: int)
    requires Even(g) && n >= 1 && RoundedTo(g.b, g.S, k, n, r, kr) && g.S < 2 * g.mlo * Pow10(n - 1)
    ensures g.Inside(InUnits(r, kr, k, |r|), |r| - 1)
  {
    var v, R, P, T := InUnits(r, kr, k, |r|), InUnits(r, kr, k, n), Pow10(n - 1), Pow10(n - |r|);
    UnitsOf(r, kr, k, n);
    HalfUnitInside(g.b, g.mlo, g.S, P, R);
    InsideCoarser(g, v, |r| - 1, R, P, T);
  }

  lemma HalfUnitInside(b: int, m: int, S: int, P: int, R: int)
    requires S < 2 * m * P && -S <= 2 * (R * S - b * P) <= S
    ensures (b - m) * P < R * S < (b + m) * P
  {
    MulDistributes(b, -m, P);
    MulDistributes(b, m, P);
    MulAssoc(2, m, P);
  }

  lemma InsideCoarser(g: Target, v: int, q: nat, R: int, P: int, T: int)
    requires T > 0 && P == Pow10(q) * T && R == v * T && (g.b - g.mlo) * P < R * g.S < (g.b + g.mhi) * P
    ensures g.Inside(v, q)
  {
    var Q := Pow10(q);
    MulAssoc(g.b - g.mlo, Q, T);
    MulAssoc(g.b + g.mhi, Q, T);
    SwapLast(v, T, g.S);
    CancelLt((g.b - g.mlo) * Q, v * g.S, T);
    CancelLt(v * g.S, (g.b + g.mhi) * Q, T);
  }

  /** A decimal within the margins is no shorter than a shortest one. */
  lemma NotShorter(g: Target, k: int, s: seq<int>, k': int, n: nat)
    requires Canonical(s) && k <= k' && g.Accepts(InUnits(s, k', k, |s|), |s| - 1) && NoneShorter(g, n)
    ensures |s| >= n
  {
    var c, t := DigitsValue(s), k' - k;
    DigitsBounds(s);
    LeadingDigit(s);
    assert Shifted(c, t) == InUnits(s, k', k, |s|);
    assert SignificantDigits(Shifted(c, t), |s|);
    MulLe(1, c, Pow10(t));
  }

  /** Of decimals on the same grid, the preferred one is the correctly rounded one if that is on the grid. */
  lemma PreferredIsRounded(b: int, S: int, v: int, w: int, T: int, low: int, high: int)
    requires S > 0 && T >= 1 && RoundsTo(b * T, S, w * T) && low < v * S < high && low < w * S < high
    requires var r := b - v * S;
             var other := if r >= 0 then v + 1 else v - 1;
             low < other * S < high ==> 2 * Distance(r) < S || (2 * Distance(r) == S && v % 2 == 0)
    ensures v == w
  {
    RoundedNear(b, S, w, T);
    var p, x := v * S, w * S;
    assert (w - v) * S == x - p by { MulDistributes(w, -v, S); }
    OffByOne(w - v, S);
    assert (v + 1) * S == p + S by { MulDistributes(v, 1, S); }
    assert (v - 1) * S == p - S by { MulDistributes(v, -1, S); }
    OnlyNearest(S, b, p, x, if b - p >= 0 then p + S else p - S, v, w, low, high);
  }

  lemma RoundedNear(b: int, S: int, w: int, T: int)
    requires S > 0 && T >= 1 && RoundsTo(b * T, S, w * T)
    ensures -S <= 2 * (w * S - b) <= S && (2 * (w * S - b) == S || 2 * (w * S - b) == -S ==> w % 2 == 0)
  {
    var near := w * S - b;
    assert w * T * S - b * T == near * T by { SwapLast(w, T, S); MulDistributes(w * S, -b, T); }
    MulAssoc(2, near, T);
    NearOnGrid(near, S, T);
    if T == 1 { assert near * T == near && w * T == w; }
  }

  /** The same with the products for variables. */
  lemma OnlyNearest(S: int, b: int, p: int, x: int, o: int, v: int, w: int, low: int, high: int)
    requires S > 0 && low < p < high && low < x < high && o == (if b - p >= 0 then p + S else p - S)
    requires -S <= 2 * (x - b) <= S && (2 * (x - b) == S || 2 * (x - b) == -S ==> w % 2 == 0)
    requires low < o < high ==> 2 * Distance(b - p) < S || (2 * Distance(b - p) == S && v % 2 == 0)
    requires (w - v >= 1 ==> x - p >= S) && (w - v <= -1 ==> x - p <= -S)
    requires (w - v >= 2 ==> x - p >= 2 * S) && (w - v <= -2 ==> x - p <= -2 * S)
    ensures v == w
  {
  }

  function Distance(r: int): int {
    if r >= 0 then r else -r
  }

  lemma NearOnGrid(near: int, S: int, T: int)
    requires T >= 1 && S > 0 && -S <= 2 * near * T <= S
    ensures -S <= 2 * near <= S && (T > 1 ==> -S < 2 * near < S)
  {
    if near > 0 { MulLe(1, T, 2 * near); }
    if near < 0 { MulLe(1, T, -2 * near); }
    if T > 1 && near > 0 { MulLe(2, T, 2 * near); }
    if T > 1 && near < 0 { MulLe(2, T, -2 * near); }
  }

  lemma OffByOne(d: int, S: int)
    requires S > 0
    ensures d >= 1 ==> d * S >= S
    ensures d <= -1 ==> d * S <= -S
    ensures d >= 2 ==> d * S >= 2 * S
    ensures d <= -2 ==> d * S <= -2 * S
  {
    if d >= 2 { MulLe(2, d, S); }
    if d <= -2 { MulLe(d, -2, S); }
  }

  lemma {:induction false} LeadingPower(s: seq<int>)
    requires s != [] && AllDigits(s) && s[0] >= 1
    ensures DigitsValue(s) >= Pow10(|s| - 1)
  {
    if |s| == 1 {
      LeadingDigit(s);
      assert Pow10(0) == 1;
    } else {
      LeadingPower(s[..|s| - 1]);
    }
  }

  lemma TenDivides(a: int, c: int, e: nat)
    requires e > 0 && a == c * Pow10(e)
    ensures a % 10 == 0
  {
    assert Pow10(e) == 10 * Pow10(e - 1);
    assert a == 10 * (c * Pow10(e - 1)) by { MulAssoc(10, c, Pow10(e - 1)); MulAssoc(c, 10, Pow10(e - 1)); }
  }

  lemma SameFactor(a: int, b: int, p: int)
    requires p > 0 && a * p == b * p
    ensures a == b
  {
    CancelLt(a, b, p);
    CancelLt(b, a, p);
  }

  /** A number that is no multiple of ten has no more zeros than another with the same product. */
  lemma NoMoreZeros(a: int, u: nat, c: int, t: nat)
    requires a > 0 && a % 10 != 0 && a * Pow10(u) == c * Pow10(t)
    ensures a <= c
  {
    if t > u {
      PowAdd(10, t - u, u);
      MulAssoc(c, Pow10(t - u), Pow10(u));
      SameFactor(a, c * Pow10(t - u), Pow10(u));
      TenDivides(a, c, t - u);
    } else {
      PowAdd(10, u - t, t);
      MulAssoc(a, Pow10(u - t), Pow10(t));
      SameFactor(a * Pow10(u - t), c, Pow10(t));
      MulLe(1, Pow10(u - t), a);
    }
  }

  /** A string that ends in no zero has the fewest digits of all for its number. */
  lemma CanonicalIsShort(r: seq<int>, u: nat, c: int, t: nat, j: nat)
    requires Canonical(r) && DigitsValue(r) * Pow10(u) == c * Pow10(t) && 0 <= c < Pow10(j)
    ensures |r| <= j
  {
    var a := DigitsValue(r);
    LeadingPower(r);
    NoMoreZeros(a, u, c, t);
    if j <= |r| - 1 { PowMonotone(10, j, |r| - 1); }
  }

  /** Two roundings to n digits are the same number, so the one that ends in no zero is not longer. */
  lemma SameLength(b: int, S: int, k: int, n: int, s: seq<int>, k': int, r: seq<int>, kr: int)
    requires S > 0 && n >= 1 && RoundedTo(b, S, k, n, s, k') && RoundedTo(b, S, k, n, r, kr)
    ensures |r| <= |s|
  {
    RoundsToUnique(b * Pow10(n - 1), S, InUnits(s, k', k, n), InUnits(r, kr, k, n));
    DigitsBounds(s);
    CanonicalIsShort(r, kr - k + n - |r|, DigitsValue(s), k' - k + n - |s|, |s|);
  }

  lemma FewerStillNone(g: Target, m: nat, n: nat)
    requires m <= n && NoneShorter(g, n)
    ensures NoneShorter(g, m)
  {
  }

  /** A shortest decimal with as many digits as the correctly rounded one is that one. */
  lemma PreferredOnGrid(g: Target, k: int, n: int, s: seq<int>, k': int, r: seq<int>, kr: int)
    requires Even(g) && n >= 1 && ShortestFor(g, k, s, k') && RoundedTo(g.b, g.S, k, n, r, kr) && |s| == |r|
    requires g.Inside(InUnits(r, kr, k, |r|), |r| - 1)
    ensures RoundedTo(g.b, g.S, k, n, s, k')
  {
    var q, Q, T := |s| - 1, Pow10(|s| - 1), Pow10(n - |s|);
    var v, w := InUnits(s, k', k, |s|), InUnits(r, kr, k, |r|);
    UnitsOf(s, k', k, n);
    UnitsOf(r, kr, k, n);
    MulAssoc(g.b, Q, T);
    PreferredIsRounded(g.b * Q, g.S, v, w, T, (g.b - g.mlo) * Q, (g.b + g.mhi) * Q);
  }

  /**
   * A shortest decimal of at most n digits is the number rounded to n digits exactly when no decimal of fewer digits
   * than the correctly rounded one lies within the margins.
   */
  lemma RoundsExactly(g: Target, k: int, n: int, s: seq<int>, k': int, r: seq<int>, kr: int)
    requires Even(g) && n >= 1 && ShortestFor(g, k, s, k') && |s| <= n && RoundedTo(g.b, g.S, k, n, r, kr)
    ensures RoundedTo(g.b, g.S, k, n, s, k') <==> NoneShorter(g, |r|)
  {
    if RoundedTo(g.b, g.S, k, n, s, k') {
      SameLength(g.b, g.S, k, n, s, k', r, kr);
      FewerStillNone(g, |r|, |s|);
    }
    if 2 * g.mlo * Pow10(n - 1) <= g.S {
      NarrowMargins(g, k, s, k', n);
    } else if NoneShorter(g, |r|) {
      RoundedIsAccepted(g, k, n, r, kr);
      NotShorter(g, k, r, kr, |s|);
      NotShorter(g, k, s, k', |r|);
      PreferredOnGrid(g, k, n, s, k', r, kr);
    }
  }

  /** Whatever shortest decimal of at most n digits the margins give, it is the correctly rounded one. */
  ghost predicate ShortestRounds(g: Target, n: int)
    requires n >= 1
  {
    forall k, s, k' :: ShortestFor(g, k, s, k') && |s| <= n ==> RoundedTo(g.b, g.S, k, n, s, k')
  }

  /** The string of a number from 1 to 10. */
  lemma OneDigit(v: int, k: int) returns (s: seq<int>, k': int)
    requires 1 <= v <= 10
    ensures Canonical(s) && |s| == 1 && k <= k' <= k + 1 && InUnits(s, k', k, 1) == v
  {
    assert Pow10(1) == 10 && Pow10(0) == 1;
    if v == 10 {
      s, k' := [1], k + 1;
      assert s == [] + [1];
      DigitsSnoc([], 1);
    } else {
      s, k' := [v], k;
      assert s == [] + [v];
      DigitsSnoc([], v);
    }
  }

  /** A quotient from one to ten has a rounding to one digit. */
  lemma RoundedToOne(b: int, S: int, k: int) returns (r: seq<int>, kr: int)
    requires 0 < S <= b < 10 * S
    ensures RoundedTo(b, S, k, 1, r, kr) && |r| == 1
  {
    var D, rem := b / S, b % S;
    DigitBounds(b, S);
    assert Pow10(0) == 1;
    NearestByRemainder(b, S, D, rem);
    r, kr := OneDigit(if 2 * rem > S || (2 * rem == S && D % 2 == 1) then D + 1 else D, k);
  }

  /** To one digit the modes with a limit round correctly. */
  lemma OneDigitRounds(g: Target)
    requires Even(g)
    ensures ShortestRounds(g, 1)
  {
    forall k, s, k' | ShortestFor(g, k, s, k') && |s| <= 1 ensures RoundedTo(g.b, g.S, k, 1, s, k') {
      NoneOfNoDigits(g);
      if 2 * g.mlo * Pow10(0) <= g.S {
        NarrowMargins(g, k, s, k', 1);
      } else {
        var r, kr := RoundedToOne(g.b, g.S, k);
        RoundsExactly(g, k, 1, s, k', r, kr);
      }
    }
  }

  // ---- the margins of the modes with a digit limit ----

  /** The number f 2^e / 10^k, with the margins of a limit of n digits: one part in 2 f 10^(n - 1) of the number. */
  function LimitTarget(f: int, e: int, k: int, n: int): Target
    requires n >= 1
  {
    var a, w, X := Part(2, e) * Part(10, -k), Part(2, -e) * Part(10, k), Pow10(n - 1);
    Target(2 * X * f * a, 2 * X * w, a, a, false)
  }

  /** Margins of one part in 2 f 10^(n - 1) are at most half a unit of the n-th digit exactly for numbers up to f. */
  lemma MarginsOfSignificand(b: int, S: int, m: int, f: int, P: int)
    requires f > 0 && 2 * m * f * P == b
    ensures 2 * m * P <= S <==> b <= f * S
  {
    SwapLast(2 * m, f, P);
    CancelLt(2 * m * P, S, f);
  }

  lemma SmallNumberRounds(g: Target, f: int, n: int)
    requires Even(g) && n >= 1 && f > 0 && 2 * g.mlo * f * Pow10(n - 1) == g.b && g.b <= f * g.S
    ensures ShortestRounds(g, n)
  {
    MarginsOfSignificand(g.b, g.S, g.mlo, f, Pow10(n - 1));
    forall k, s, k' | ShortestFor(g, k, s, k') && |s| <= n ensures RoundedTo(g.b, g.S, k, n, s, k') {
      NarrowMargins(g, k, s, k', n);
    }
  }

  /** With a significand f the modes with a digit limit round correctly, whatever the exponent and the limit. */
  ghost predicate AlwaysRounds(f: int) {
    forall e, k, n :: n >= 1 && LimitTarget(f, e, k, n).Valid() ==> ShortestRounds(LimitTarget(f, e, k, n), n)
  }

  lemma LimitMargins(f: int, e: int, k: int, n: int)
    requires n >= 1
    ensures var g := LimitTarget(f, e, k, n); 2 * g.mlo * f * Pow10(n - 1) == g.b
  {
    var a, X := Part(2, e) * Part(10, -k), Pow10(n - 1);
    calc {
      2 * a * f * X;
      { SwapLast(2 * a, f, X); }
      2 * a * X * f;
      { SwapLast(2, a, X); SwapLast(2 * X, a, f); }
      2 * X * f * a;
    }
  }

  /** A one-digit candidate within the margins is a shortest decimal. */
  lemma OneDigitIsShortest(g: Target, D: int, r: int, up: bool) returns (s: seq<int>, k': int)
    requires Even(g) && g.b == D * g.S + r && 0 <= r < g.S && 1 <= D <= 9
    requires if up then g.S < r + g.mhi && g.mlo <= r else r < g.mlo && r + g.mhi <= g.S
    ensures ShortestFor(g, 0, s, k') && |s| == 1 && InUnits(s, k', 0, 1) == D + (if up then 1 else 0)
  {
    assert Pow10(0) == 1;
    s, k' := OneDigit(D + (if up then 1 else 0), 0);
    AcceptsByRemainder(g, D, r, 0);
    NearerByRemainder(g, D, r, 0, up);
    NoneOfNoDigits(g);
  }

  /** It is not the rounding to two digits if it is more than a twentieth away. */
  lemma TooFarForTwo(b: int, S: int, v: int)
    requires 20 * (v * S - b) > S || 20 * (v * S - b) < -S
    ensures !RoundsTo(b * 10, S, v * 10)
  {
    assert v * 10 * S == 10 * (v * S);
  }

  lemma OneDigitTooFew(g: Target, D: int, r: int, up: bool)
    requires Even(g) && g.b == D * g.S + r && 0 <= r < g.S && 1 <= D <= 9
    requires if up then g.S < r + g.mhi && g.mlo <= r && 20 * (g.S - r) > g.S
             else r < g.mlo && r + g.mhi <= g.S && 20 * r > g.S
    ensures !ShortestRounds(g, 2)
  {
    var v := D + (if up then 1 else 0);
    var s, k' := OneDigitIsShortest(g, D, r, up);
    assert v * g.S - g.b == (if up then g.S else 0) - r by { MulDistributes(D, 1, g.S); }
    TooFarForTwo(g.b, g.S, v);
    assert Pow10(1) == 10;
    UnitsOf(s, k', 0, 2);
  }

  lemma PowersOfTen()
    ensures Pow(10, 0) == 1 && Pow(10, 1) == 10 && Pow(10, 2) == 100 && Pow(10, 4) == 1_0000
            && Pow(10, 8) == 1_0000_0000
    ensures Pow(10, 16) == 1_0000_0000_0000_0000
  {
    PowAdd(10, 1, 1);
    PowAdd(10, 2, 2);
    PowAdd(10, 4, 4);
    PowAdd(10, 8, 8);
  }

  /** 1 / 2^4 is 6.25 times 10^-2. To two digits that is 6.2, but 6 is within the margins. */
  lemma OneFails()
    ensures LimitTarget(1, -4, -2, 2).Valid() && !ShortestRounds(LimitTarget(1, -4, -2, 2), 2)
  {
    PowersOfTwo();
    PowersOfTen();
    OneDigitTooFew(LimitTarget(1, -4, -2, 2), 6, 80, false);
  }

  /** 3 / 2^25 is 8.94 times 10^-8. To two digits that is 8.9, but 9 is within the margins. */
  lemma ThreeFails()
    ensures LimitTarget(3, -25, -8, 2).Valid() && !ShortestRounds(LimitTarget(3, -25, -8, 2), 2)
  {
    PowersOfTwo();
    PowersOfTen();
    PowAdd(2, 16, 8);
    PowAdd(2, 24, 1);
    OneDigitTooFew(LimitTarget(3, -25, -8, 2), 8, 631290880, true);
  }

  /** 5 / 2^56 is 6.94 times 10^-17. To two digits that is 6.9, but 7 is within the margins. */
  lemma FiveFails()
    ensures LimitTarget(5, -56, -17, 2).Valid() && !ShortestRounds(LimitTarget(5, -56, -17, 2), 2)
  {
    PowersOfTwo();
    PowersOfTen();
    PowAdd(2, 32, 16);
    PowAdd(2, 48, 8);
    PowAdd(10, 16, 1);
    OneDigitTooFew(LimitTarget(5, -56, -17, 2), 6, 1353088715448647680, true);
  }

  /** 7 / 2^46 is 9.948 times 10^-14. To two digits that is 9.9, but 10 is within the margins. */
  lemma SevenFails()
    ensures LimitTarget(7, -46, -14, 2).Valid() && !ShortestRounds(LimitTarget(7, -46, -14, 2), 2)
  {
    PowersOfTwo();
    PowersOfTen();
    PowAdd(2, 32, 8);
    PowAdd(2, 40, 4);
    PowAdd(2, 44, 2);
    PowAdd(10, 8, 4);
    PowAdd(10, 12, 2);
    OneDigitTooFew(LimitTarget(7, -46, -14, 2), 9, 1333626048020480, true);
  }

  lemma TwoTo249(a: nat)
    requires a == 83
    ensures Pow(2, 3 * a) == 904625697166532776746648320380374280103671755200316906558262375061821325312
  {
    PowersOfTwo();
    var d: nat := 16;
    PowProduct(2, d, d, 65536, 65536);
    PowProduct(2, 2 * d, 2 * d, 4294967296, 4294967296);
    PowProduct(2, 4 * d, d, 18446744073709551616, 65536);
    PowProduct(2, 5 * d, 2, 1208925819614629174706176, 4);
    PowProduct(2, 5 * d + 2, 1, 4835703278458516698824704, 2);
    PowProduct(2, a, a, 9671406556917033397649408, 9671406556917033397649408);
    PowProduct(2, 2 * a, a, 93536104789177786765035829293842113257979682750464, 9671406556917033397649408);
  }

  lemma TenTo75(c: nat)
    requires c == 25
    ensures Pow(10, 3 * c) == 1000000000000000000000000000000000000000000000000000000000000000000000000000
  {
    PowersOfTen();
    var e: nat := 8;
    PowProduct(10, e, e, 100000000, 100000000);
    PowProduct(10, 2 * e, e, 10000000000000000, 100000000);
    PowProduct(10, 3 * e, 1, 1000000000000000000000000, 10);
    PowProduct(10, c, c, 10000000000000000000000000, 10000000000000000000000000);
    PowProduct(10, 2 * c, c, 100000000000000000000000000000000000000000000000000, 10000000000000000000000000);
  }

  /** 9 / 2^249 is 9.948 times 10^-75. To two digits that is 9.9, but 10 is within the margins. */
  lemma NineFails(e: int, k: int)
    requires e == -249 && k == -75
    ensures LimitTarget(9, e, k, 2).Valid() && !ShortestRounds(LimitTarget(9, e, k, 2), 2)
  {
    TwoTo249(83);
    TenTo75(25);
    assert Pow10(1) == 10;
    OneDigitTooFew(LimitTarget(9, e, k, 2), 9,
                   17167374510024100185603302331532629581339084063942956819512772488872161443840, true);
  }

  /** With a significand of one digit some number is not rounded correctly to two digits. */
  lemma SmallSignificandFails(f: int) returns (e: int, k: int)
    requires f in {1, 3, 5, 7, 9}
    ensures LimitTarget(f, e, k, 2).Valid() && !ShortestRounds(LimitTarget(f, e, k, 2), 2)
  {
    match f
    case 1 => e, k := -4, -2; OneFails();
    case 3 => e, k := -25, -8; ThreeFails();
    case 5 => e, k := -56, -17; FiveFails();
    case 7 => e, k := -46, -14; SevenFails();
    case _ => e, k := -249, -75; NineFails(e, k);
  }

  /**
   * For an odd significand f, the modes with a digit limit round every f 2^e correctly to every number of digits if and
   * only if f has two digits or more.
   */
  lemma LimitedModesRound(f: int)
    requires f > 0 && f % 2 == 1
    ensures AlwaysRounds(f) <==> f >= 10
  {
    if f >= 10 {
      forall e, k, n | n >= 1 && LimitTarget(f, e, k, n).Valid() ensures ShortestRounds(LimitTarget(f, e, k, n), n) {
        var g := LimitTarget(f, e, k, n);
        LimitMargins(f, e, k, n);
        MulLe(10, f, g.S);
        SmallNumberRounds(g, f, n);
      }
    } else {
      var e, k := SmallSignificandFails(f);
    }
  }
}
