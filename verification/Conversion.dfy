/** Printing a double: from its two words to the digits, apart from the floating-point estimate of the exponent. */
module Conversion {
  import opened Arith
  import opened BigDigits
  import opened BigGenerate
  import opened BigMult
  import opened Bignum
  import Decades
  import opened Decimal
  import opened DigitLimit
  import opened DoubleBits
  import opened Dtoa
  import opened ExponentRatios
  import opened Floats
  import opened LeastNormal
  import opened Preparation
  import opened Ratios
  import opened ReadBack
  import opened SinglePrecision
  import BigScale

  /** Digits of the number that the exponents make of a significand. */
  method Digits(p: Powers, b: Bigint, x: Exponents, mode: int, ndigits: int, even: bool, quarter: bool, k: int,
                kCheck: bool, single: bool, ilim: int, ilim1: int) returns (s: seq<int>, decpt: int)
    requires p.Valid() && p.Foreign(b) && Ample(b) && NonNegative(x) && 0 <= mode <= 5
    requires mode != 2 && mode != 3 && x.b5 > 0 ==> x.m5 <= x.b5
    requires Upper(x, b.Value()) < 10 * Lower(x) && Lower(x) <= (if kCheck then 10 else 1) * Upper(x, b.Value())
    requires mode <= 2 || mode == 4 ==> ilim == ilim1
    requires mode <= 1 ==> ilim < 0
    requires mode == 2 || mode == 4 ==> ilim >= 1
    requires mode == 3 || mode == 5 ==> ilim == ndigits + k + 1 && ilim1 == ilim - 1
    modifies p, b, b.x
    ensures p.Valid()
    ensures Estimated(mode, ndigits, even, quarter, k, old(Upper(x, b.Value())), Lower(x), StartMargin(x, mode, single),
                      ilim, ilim1, s, decpt)
  {
    var leftright := mode != 2 && mode != 3;
    ghost var sig := b.Value();
    var b', S, mhi := Prepare(p, b, x, leftright);
    PositiveValue(b');
    PositiveValue(S);
    if leftright { PositiveValue(mhi); }
    s, decpt := BigScale.Digits(mode, ndigits, even, quarter, kCheck, k, b', S, mhi, x.s5 != 0, x.b2, x.m2, x.s2,
                                single, ilim, ilim1);
  }

  /** The modes from 6 on are those from 2 on without the quick path; others are mode 0. */
  function Reduced(mode: int): int {
    if mode < 0 || mode > 9 then 0 else if mode > 5 then mode - 4 else mode
  }

  /** The number of digits that counts: none in modes 0 and 1, and at least one where digits are significant ones. */
  function Asked(mode: int, ndigits: int): int {
    if mode <= 1 then 0 else if (mode == 2 || mode == 4) && ndigits <= 0 then 1 else ndigits
  }

  function Limit(mode: int, ndigits: int, k: int): int {
    if mode <= 1 then -1 else if mode == 2 || mode == 4 then ndigits else ndigits + k + 1
  }

  /** The limit when the estimate of the exponent was one too high. */
  function LowerLimit(mode: int, ndigits: int, k: int): int {
    if mode == 3 || mode == 5 then ndigits + k else Limit(mode, ndigits, k)
  }

  /** The estimate k of the exponent of x is right or, if it is to be checked, at most one too high. */
  ghost predicate Close(x: Float, k: int, kCheck: bool)
    requires x.q >= DOUBLE.lowest
  {
    var n, d := Numerator(DOUBLE, x, k), Denominator(DOUBLE, k);
    n < 10 * d && d <= (if kCheck then 10 else 1) * n
  }

  /** That is, x lies in the decade of the estimate or, if it is to be checked, in the one below. */
  lemma CloseExactly(x: Float, k: int, kCheck: bool)
    requires x.q >= DOUBLE.lowest
    ensures Close(x, k, kCheck) <==> InDecade(DOUBLE, x, k) || (kCheck && InDecade(DOUBLE, x, k - 1))
  {
    Decades.OneLess(DOUBLE, x, k, 1);
    TenthAtLeast(x, k);
  }

  lemma TenthAtLeast(x: Float, k: int)
    requires x.q >= DOUBLE.lowest
    ensures 10 * Numerator(DOUBLE, x, k) >= Denominator(DOUBLE, k) <==>
            Numerator(DOUBLE, x, k - 1) >= Denominator(DOUBLE, k - 1)
  {
    NextExponent(DOUBLE, x, k);
    Decades.SameAtLeast(10 * Numerator(DOUBLE, x, k), Denominator(DOUBLE, k), Numerator(DOUBLE, x, k - 1),
                        Denominator(DOUBLE, k - 1), 1);
  }

  /** The exponent of x, given a close estimate. */
  ghost function ExponentOf(x: Float, k: int): int
    requires x.q >= DOUBLE.lowest
  {
    TrueExponent(k, Numerator(DOUBLE, x, k), Denominator(DOUBLE, k))
  }

  /** The place of the last digit asked for. */
  ghost function Place(x: Float, mode: int, ndigits: int, k: int): int
    requires x.q >= DOUBLE.lowest
  {
    if mode == 3 || mode == 5 then ndigits else ndigits - 1 - ExponentOf(x, k)
  }

  /** Equal ratios are in the same range. */
  lemma SameRange(b: int, S: int, n: int, d: int, kCheck: bool)
    requires Same(b, S, n, d) && n < 10 * d && d <= (if kCheck then 10 else 1) * n
    ensures b < 10 * S && S <= (if kCheck then 10 else 1) * b && (b < S <==> n < d)
  {
    var c := if kCheck then 10 else 1;
    CancelLt(b, 10 * S, d);
    CancelLt(n, 10 * d, S);
    CancelLt(S, c * b, d);
    CancelLt(d, c * n, S);
    CancelLt(b, S, d);
    CancelLt(n, d, S);
    assert 10 * S * d == 10 * d * S && c * b * d == c * n * S by {
      MulAssoc(10, S, d);
      MulAssoc(10, d, S);
      MulAssoc(c, b, d);
      MulAssoc(c, n, S);
    }
  }

  /** The digits are nearest to x, no fewer digits are, and with the same last place none of the nearest are closer. */
  ghost predicate ReadsBack(x: Float, ties: bool, s: seq<int>, decpt: int)
    requires Finite(DOUBLE, x)
  {
    && ReadsAs(DOUBLE, x, ties, DigitsValue(s), decpt - |s|) && NoneReadsAs(DOUBLE, x, ties, |s|)
    && Closest(DOUBLE, x, ties, DigitsValue(s), decpt - |s|)
  }

  /** In mode 0 ties go to the even number; in mode 1 no digits may need that. */
  predicate TiesCount(x: Float, mode: int) {
    mode == 0 && x.M % 2 == 0
  }

  lemma ReadsBackAt(x: Float, k: int, mode: int, s: seq<int>, decpt: int)
    requires 0 <= mode <= 1 && Finite(DOUBLE, x) && x.M > 0
    requires ShortestFor(GapTarget(DOUBLE, x, k, x.M == Hidden(DOUBLE), TiesCount(x, mode)), k, s, decpt - 1)
    ensures ReadsBack(x, TiesCount(x, mode), s, decpt)
  {
    var quarter, ties := x.M == Hidden(DOUBLE), TiesCount(x, mode);
    ShortestReadsBack(DOUBLE, x, ties, k, quarter, ties, s, decpt - 1);
    if x == Least() {
      LeastReadsBack(k, mode, s, decpt);
    } else {
      ShortestIsClosest(DOUBLE, x, ties, k, quarter, ties, s, decpt - 1);
    }
  }

  lemma LeastReadsBack(k: int, mode: int, s: seq<int>, decpt: int)
    requires 0 <= mode <= 1
    requires ShortestFor(GapTarget(DOUBLE, Least(), k, true, TiesCount(Least(), mode)), k, s, decpt - 1)
    requires Finite(DOUBLE, Least()) && ReadsAs(DOUBLE, Least(), TiesCount(Least(), mode), DigitsValue(s), decpt - |s|)
    ensures NoneReadsAs(DOUBLE, Least(), TiesCount(Least(), mode), |s|)
    ensures Closest(DOUBLE, Least(), TiesCount(Least(), mode), DigitsValue(s), decpt - |s|)
  {
    var x, ties := Least(), TiesCount(Least(), mode);
    HiddenBit(52);
    if !ties { NearestAlone(DOUBLE, x, true, DigitsValue(s), decpt - |s|); }
    LeastIsClosest(k, ties, ties, s, decpt - 1);
    LeastIsShortest(k, ties, s, decpt - 1);
    forall c: nat, t: int, j: nat | c < Pow10(j) && j < |s| ensures !ReadsAs(DOUBLE, x, ties, c, t) {
      assert !Reads(DOUBLE, x, c, t);
      if ReadsAs(DOUBLE, x, false, c, t) { NearestAlone(DOUBLE, x, true, c, t); }
    }
  }

  /** Modes 0 and 1. */
  lemma ShortestOutcome(x: Float, sig: int, e: int, z: nat, y: Exponents, k: int, mode: int, s: seq<int>, decpt: int)
    requires 0 <= mode <= 1 && Finite(DOUBLE, x) && x.M > 0 && SignificandOf(DOUBLE, x, sig, e, z)
    requires NonNegative(y) && Balanced(y, e, k) && MarginLess(y, if x.M == Hidden(DOUBLE) then z + 2 else z + 1, 0)
    requires Estimated(mode, 0, x.M % 2 == 0, x.M == Hidden(DOUBLE), k, Upper(y, sig), Lower(y),
                       StartMargin(y, mode, false), -1, -1, s, decpt)
    ensures ReadsBack(x, TiesCount(x, mode), s, decpt)
  {
    var quarter, even := x.M == Hidden(DOUBLE), x.M % 2 == 0;
    UpperSame(DOUBLE, x, sig, e, z, k, y);
    UnitShare(DOUBLE, x, sig, e, z, y, quarter);
    assert Pow(5, if y.b5 > 0 then y.m5 else 0) == Pow(5, y.m5);
    var k' := EstimatedShortest(DOUBLE, x, k, mode, 0, quarter, even, Upper(y, sig), Lower(y), Margin(y), s, decpt);
    ReadsBackAt(x, k', mode, s, decpt);
  }

  /** Modes 2 and 3. */
  lemma RoundedOutcome(x: Float, sig: int, e: int, z: nat, y: Exponents, k: int, kCheck: bool, mode: int, ndigits: int,
                       m: int, s: seq<int>, decpt: int)
    requires (mode == 2 || mode == 3) && Finite(DOUBLE, x) && SignificandOf(DOUBLE, x, sig, e, z)
    requires NonNegative(y) && Balanced(y, e, k) && Close(x, k, kCheck)
    requires Estimated(mode, ndigits, x.M % 2 == 0, false, k, Upper(y, sig), Lower(y), m, Limit(mode, ndigits, k),
                       LowerLimit(mode, ndigits, k), s, decpt)
    ensures RoundedPlace(DOUBLE, x, Place(x, mode, ndigits, k), s, decpt)
  {
    UpperSame(DOUBLE, x, sig, e, z, k, y);
    SameRange(Upper(y, sig), Lower(y), Numerator(DOUBLE, x, k), Denominator(DOUBLE, k), kCheck);
    EstimatedRounds(DOUBLE, x, k, mode, ndigits, x.M % 2 == 0, false, Upper(y, sig), Lower(y), m,
                    Limit(mode, ndigits, k), LowerLimit(mode, ndigits, k), s, decpt);
  }

  /** What modes 4 and 5 give with a significand of one digit. */
  ghost predicate Limited(x: Float, sig: int, e: int, mode: int, ndigits: int, k: int, s: seq<int>, decpt: int)
    requires x.q >= DOUBLE.lowest
  {
    var n := Place(x, mode, ndigits, k) + 1 + ExponentOf(x, k);
    if n >= 1 && (mode == 4 || ExponentOf(x, k) == k) then LimitedTo(DOUBLE, x, sig, e, ExponentOf(x, k), n, s, decpt)
    else RoundedPlace(DOUBLE, x, Place(x, mode, ndigits, k), s, decpt)
  }

  lemma StartsPositive(y: Exponents, sig: int)
    requires NonNegative(y) && sig >= 1
    ensures Upper(y, sig) > 0 && StartMargin(y, 4, false) > 0
  {
    MulLe(1, Pow(5, y.b5), sig);
    MulLe(1, Pow(2, y.b2), Pow(5, y.b5) * sig);
    MulLe(1, Pow(2, y.m2), Pow(5, if y.b5 > 0 then y.m5 else 0));
  }

  lemma LimitedExactly(x: Float, sig: int, e: int, z: nat, k: int, mode: int, ndigits: int, even: bool,
                       b: int, S: int, m: int, n: int, s: seq<int>, decpt: int)
    requires (mode == 4 || (mode == 5 && b >= S)) && SignificandOf(DOUBLE, x, sig, e, z) && sig >= 1 && n >= 1
    requires Same(b, S, Numerator(DOUBLE, x, k), Denominator(DOUBLE, k)) && b == 2 * Pow10(n - 1) * sig * m
    requires Estimated(mode, ndigits, even, false, k, b, S, m, n, if mode == 5 then n - 1 else n, s, decpt)
    ensures LimitedTo(DOUBLE, x, sig, e, TrueExponent(k, b, S), n, s, decpt)
  {
    if b < S {
      SameAtNext(DOUBLE, x, k, b, S);
      FivesOfTens(sig, Pow10(n - 1), m);
      LimitedAt(DOUBLE, x, sig, e, z, k - 1, n, mode, ndigits, even, false, 10 * b, S, 10 * m, s, decpt);
    } else {
      LimitedAt(DOUBLE, x, sig, e, z, k, n, mode, ndigits, even, false, b, S, m, s, decpt);
    }
  }

  /** Modes 4 and 5, from numbers in the ratio of x and its margins to 10^k. */
  lemma LimitedFrom(x: Float, sig: int, e: int, z: nat, k: int, mode: int, ndigits: int, even: bool,
                    b: int, S: int, m: int, n: int, s: seq<int>, decpt: int)
    requires (mode == 4 || mode == 5) && SignificandOf(DOUBLE, x, sig, e, z) && sig >= 1 && n == Limit(mode, ndigits, k)
    requires Same(b, S, Numerator(DOUBLE, x, k), Denominator(DOUBLE, k)) && 0 < b < 10 * S && m > 0
    requires b < S <==> Numerator(DOUBLE, x, k) < Denominator(DOUBLE, k)
    requires n >= 1 ==> b == 2 * Pow10(n - 1) * sig * m
    requires mode == 4 ==> n >= 1
    requires Estimated(mode, ndigits, even, false, k, b, S, m, n, if mode == 5 then n - 1 else n, s, decpt)
    ensures Limited(x, sig, e, mode, ndigits, k, s, decpt)
    ensures sig >= 10 ==> RoundedPlace(DOUBLE, x, Place(x, mode, ndigits, k), s, decpt)
  {
    var n1 := if mode == 5 then n - 1 else n;
    if sig >= 10 || n <= 0 || (mode == 5 && b < S) {
      EstimatedLimited(DOUBLE, x, k, mode, ndigits, even, false, b, S, m, sig, n, n1, s, decpt);
    }
    if n >= 1 && (mode == 4 || b >= S) {
      LimitedExactly(x, sig, e, z, k, mode, ndigits, even, b, S, m, n, s, decpt);
    }
  }

  /** Modes 4 and 5. */
  lemma LimitedOutcome(x: Float, sig: int, e: int, z: nat, y: Exponents, k: int, kCheck: bool, mode: int, ndigits: int,
                       s: seq<int>, decpt: int)
    requires (mode == 4 || mode == 5) && Finite(DOUBLE, x) && SignificandOf(DOUBLE, x, sig, e, z) && sig >= 1
    requires NonNegative(y) && Balanced(y, e, k) && Close(x, k, kCheck) && (mode == 4 ==> ndigits >= 1)
    requires var n := Limit(mode, ndigits, k); MarginLess(y, n, n - 1)
    requires Estimated(mode, ndigits, x.M % 2 == 0, false, k, Upper(y, sig), Lower(y), StartMargin(y, mode, false),
                       Limit(mode, ndigits, k), LowerLimit(mode, ndigits, k), s, decpt)
    ensures Limited(x, sig, e, mode, ndigits, k, s, decpt)
    ensures sig >= 10 ==> RoundedPlace(DOUBLE, x, Place(x, mode, ndigits, k), s, decpt)
  {
    var b, S, m, n, even := Upper(y, sig), Lower(y), StartMargin(y, mode, false), Limit(mode, ndigits, k), x.M % 2 == 0;
    UpperSame(DOUBLE, x, sig, e, z, k, y);
    SameRange(b, S, Numerator(DOUBLE, x, k), Denominator(DOUBLE, k), kCheck);
    StartsPositive(y, sig);
    if n >= 1 { LimitShare(sig, y, n); }
    LimitedFrom(x, sig, e, z, k, mode, ndigits, even, b, S, m, n, s, decpt);
  }

  /** With a limit above the first digit there are no digits, whatever the numbers. */
  lemma NoneOutcome(x: Float, k: int, kCheck: bool, ndigits: int)
    requires Finite(DOUBLE, x) && Close(x, k, kCheck) && ndigits + k + 1 < 0
    ensures RoundedPlace(DOUBLE, x, ndigits, [], -ndigits)
  {
    var b, S := Numerator(DOUBLE, x, k), Denominator(DOUBLE, k);
    if b < S {
      SameAtNext(DOUBLE, x, k, b, S);
      NothingToRound(10 * b, S, ndigits + k);
      RoundedAtPlace(DOUBLE, x, k - 1, 10 * b, S, ndigits + k, [], -ndigits);
    } else {
      NothingToRound(b, S, ndigits + k + 1);
      RoundedAtPlace(DOUBLE, x, k, b, S, ndigits + k + 1, [], -ndigits);
    }
  }

  /** A normal power of two, where the gap below is taken for half a unit. */
  predicate PowerOfTwo(word0: int, word1: int) {
    word1 == 0 && word0 % 0x10_0000 == 0 && word0 >= 0x10_0000
  }

  lemma PowerOfTwoExactly(word0: int, word1: int)
    requires Ordinary(word0, word1)
    ensures PowerOfTwo(word0, word1) <==> FloatOf(word0, word1).M == Hidden(DOUBLE)
    ensures FloatOf(word0, word1).M % 2 == word1 % 2
  {
    PrecisionPowers();
    assert Hidden(DOUBLE) == 0x10_0000_0000_0000;
  }

  /** The exponents from the position of the significand's highest bit. */
  method Scales(word0: int, word1: int, e: int, bits: nat, ghost z: nat, k: int, mode: int, ilim: int)
    returns (x: Exponents)
    requires Ordinary(word0, word1) && e == FloatOf(word0, word1).q + z && (word0 >= 0x10_0000 ==> bits == 53 - z)
    requires 0 <= mode <= 5
    ensures Balanced(x, e, k) && 0 <= x.b5 && 0 <= x.m5 && 0 <= x.s5 && 0 <= x.m2 && 0 <= x.s2
    ensures mode <= 1 ==> MarginLess(x, if PowerOfTwo(word0, word1) then z + 2 else z + 1, 0)
    ensures mode >= 4 ==> MarginLess(x, ilim, ilim - 1)
    ensures mode <= 3 || ilim >= 0 ==> 0 <= x.b2
    ensures mode >= 4 && ilim <= 0 ==> x.b5 == if k < 0 then -k else 0
  {
    var de := word0 / 0x10_0000;
    var denorm := de == 0;
    var i := if denorm then bits + e + (1023 + 52 - 1) - (1023 + 52 - 1 + 1) else de - 1023;
    var n := if denorm then e + (1023 + 52 - 1 + 1) else 1 + 53 - bits;
    x := Compute(bits - i - 1, k, mode, n, ilim);
    if mode < 2 && PowerOfTwo(word0, word1) {
      x := x.(b2 := x.b2 + 1, s2 := x.s2 + 1);
    }
  }

  datatype Printed = Printed(s: seq<int>, decpt: int) | NeverEnds

  /** A limit above the first digit of a number below one makes mode 5 multiply by a negative power of five. */
  predicate Loops(mode: int, ndigits: int, k: int) {
    mode == 5 && k < 0 && ndigits + k + 1 <= 0
  }

  /**
   * What is promised of the digits of x in each mode. With the wider margins of single precision modes 4 and 5 promise
   * nothing of the double.
   */
  ghost predicate Fulfils(x: Float, sig: int, e: int, mode: int, ndigits: int, k: int, single: bool, s: seq<int>,
                          decpt: int)
    requires Finite(DOUBLE, x) && x.M > 0
  {
    && (mode <= 1 && !single ==> ReadsBack(x, TiesCount(x, mode), s, decpt))
    && (mode <= 1 && single && IsSingle(x) ==> ReadsBackSingle(x, mode, s, decpt))
    && (mode == 2 || mode == 3 ==> RoundedPlace(DOUBLE, x, Place(x, mode, ndigits, k), s, decpt))
    && (mode >= 4 && sig >= 10 && !single ==> RoundedPlace(DOUBLE, x, Place(x, mode, ndigits, k), s, decpt))
    && (mode >= 4 && !single ==> Limited(x, sig, e, mode, ndigits, k, s, decpt))
  }

  /** There are no digits only where they are counted from the decimal point. */
  predicate EmptyOnly(mode: int, ndigits: int, s: seq<int>, decpt: int) {
    s == [] ==> decpt == -ndigits && (mode == 3 || mode == 5)
  }

  /** The number of significant digits asked for. */
  function AtLeastOne(n: int): int {
    if n <= 0 then 1 else n
  }

  /**
   * What is promised of the digits by the mode of the caller; E is the decimal exponent of x. With single precision
   * modes 4, 5, 8 and 9 promise nothing, and the modes of shortest digits only of numbers of single precision.
   */
  ghost predicate Prints(x: Float, sig: int, e: int, E: int, mode: int, ndigits: int, k: int, single: bool,
                         s: seq<int>, decpt: int)
    requires Finite(DOUBLE, x) && x.M > 0
  {
    && (!(1 <= mode <= 9) && !single ==> ReadsBack(x, x.M % 2 == 0, s, decpt))
    && (mode == 1 && !single ==> ReadsBack(x, false, s, decpt))
    && (!(1 <= mode <= 9) && single && IsSingle(x) ==> ReadsBackSingle(x, 0, s, decpt))
    && (mode == 1 && single && IsSingle(x) ==> ReadsBackSingle(x, 1, s, decpt))
    && (mode == 2 || mode == 6 ==> RoundedPlace(DOUBLE, x, AtLeastOne(ndigits) - 1 - E, s, decpt))
    && (mode == 3 || mode == 7 ==> RoundedPlace(DOUBLE, x, ndigits, s, decpt))
    && ((mode == 4 || mode == 8) && !single ==>
          && (sig >= 10 ==> RoundedPlace(DOUBLE, x, AtLeastOne(ndigits) - 1 - E, s, decpt))
          && LimitedTo(DOUBLE, x, sig, e, E, AtLeastOne(ndigits), s, decpt))
    && ((mode == 5 || mode == 9) && !single ==>
          && (sig >= 10 || E != k || ndigits + E + 1 <= 0 ==> RoundedPlace(DOUBLE, x, ndigits, s, decpt))
          && (E == k && ndigits + E + 1 >= 1 ==> LimitedTo(DOUBLE, x, sig, e, E, ndigits + E + 1, s, decpt)))
    && (s == [] ==> mode in {3, 5, 7, 9} && decpt == -ndigits)
  }

  lemma PrintsByMode(x: Float, sig: int, e: int, mode: int, ndigits: int, k: int, kCheck: bool, single: bool,
                     s: seq<int>, decpt: int)
    requires Finite(DOUBLE, x) && x.M > 0 && Close(x, k, kCheck)
    requires var m := Reduced(mode);
             Fulfils(x, sig, e, m, Asked(m, ndigits), k, single, s, decpt) && EmptyOnly(m, Asked(m, ndigits), s, decpt)
    ensures Prints(x, sig, e, ExponentOf(x, k), mode, ndigits, k, single, s, decpt)
  {
  }

  lemma ExponentInDecade(x: Float, k: int, kCheck: bool)
    requires Finite(DOUBLE, x) && Close(x, k, kCheck)
    ensures InDecade(DOUBLE, x, ExponentOf(x, k))
  {
    var n, d := Numerator(DOUBLE, x, k), Denominator(DOUBLE, k);
    if n < d {
      SameAtNext(DOUBLE, x, k, n, d);
      SameRange(Numerator(DOUBLE, x, k - 1), Denominator(DOUBLE, k - 1), 10 * n, d, false);
    }
  }

  lemma EmptyOutcome(mode: int, ndigits: int, even: bool, quarter: bool, k: int, b: int, S: int, m: int,
                     ilim: int, ilim1: int, s: seq<int>, decpt: int)
    requires 0 <= mode <= 5 && Estimated(mode, ndigits, even, quarter, k, b, S, m, ilim, ilim1, s, decpt)
    requires mode == 2 || mode == 4 ==> ilim >= 1 && ilim1 >= 1
    ensures EmptyOnly(mode, ndigits, s, decpt)
  {
  }

  lemma Outcome(x: Float, sig: int, e: int, z: nat, y: Exponents, k: int, kCheck: bool, mode: int, ndigits: int,
                single: bool, s: seq<int>, decpt: int)
    requires 0 <= mode <= 5 && Finite(DOUBLE, x) && x.M > 0 && SignificandOf(DOUBLE, x, sig, e, z) && sig >= 1
             && sig % 2 == 1
    requires NonNegative(y) && Balanced(y, e, k) && Close(x, k, kCheck)
    requires (mode <= 1 ==> ndigits == 0) && (mode == 4 ==> ndigits >= 1)
    requires mode <= 1 ==> MarginLess(y, if x.M == Hidden(DOUBLE) then z + 2 else z + 1, 0)
    requires mode >= 4 ==> MarginLess(y, Limit(mode, ndigits, k), Limit(mode, ndigits, k) - 1)
    requires Estimated(mode, ndigits, x.M % 2 == 0, mode <= 1 && x.M == Hidden(DOUBLE), k, Upper(y, sig), Lower(y),
                       StartMargin(y, mode, single), Limit(mode, ndigits, k), LowerLimit(mode, ndigits, k), s, decpt)
    ensures Fulfils(x, sig, e, mode, ndigits, k, single, s, decpt)
  {
    if mode <= 1 {
      if !single {
        ShortestOutcome(x, sig, e, z, y, k, mode, s, decpt);
      } else if IsSingle(x) {
        SingleOutcome(x, sig, e, z, y, k, mode, s, decpt);
      }
    } else if mode <= 3 {
      RoundedOutcome(x, sig, e, z, y, k, kCheck, mode, ndigits, 0, s, decpt);
    } else if !single {
      LimitedOutcome(x, sig, e, z, y, k, kCheck, mode, ndigits, s, decpt);
    }
  }

  ghost predicate DoubleFulfils(word0: int, word1: int, sig: int, e: int, mode: int, ndigits: int, k: int, single: bool,
                                s: seq<int>, decpt: int)
    requires Ordinary(word0, word1)
  {
    FloatOfIsFinite(word0, word1);
    Fulfils(FloatOf(word0, word1), sig, e, mode, ndigits, k, single, s, decpt)
  }

  ghost predicate CloseDouble(word0: int, word1: int, k: int, kCheck: bool)
    requires Ordinary(word0, word1)
  {
    FloatOfIsFinite(word0, word1);
    Close(FloatOf(word0, word1), k, kCheck)
  }

  /** The digits, given the exponents. */
  method PrintScaled(p: Powers, b: Bigint, x: Exponents, word0: int, word1: int, mode: int, ndigits: int, k: int,
                     kCheck: bool, single: bool, ghost e: int, ghost z: nat) returns (s: seq<int>, decpt: int)
    requires p.Valid() && p.Foreign(b) && Ample(b) && b.Value() % 2 == 1 && 0 <= mode <= 5
    requires Ordinary(word0, word1) && CloseDouble(word0, word1, k, kCheck)
    requires SignificandOf(DOUBLE, FloatOf(word0, word1), b.Value(), e, z) && NonNegative(x) && Balanced(x, e, k)
    requires (mode <= 1 ==> ndigits == 0) && (mode == 2 || mode == 4 ==> ndigits >= 1)
    requires mode <= 1 ==> MarginLess(x, if PowerOfTwo(word0, word1) then z + 2 else z + 1, 0)
    requires mode >= 4 ==> MarginLess(x, Limit(mode, ndigits, k), Limit(mode, ndigits, k) - 1)
    requires mode == 5 && x.b5 > 0 ==> x.m5 <= x.b5
    modifies p, b, b.x
    ensures p.Valid()
    ensures DoubleFulfils(word0, word1, old(b.Value()), e, mode, ndigits, k, single, s, decpt)
    ensures EmptyOnly(mode, ndigits, s, decpt)
  {
    ghost var d, sig := FloatOf(word0, word1), b.Value();
    FloatOfIsFinite(word0, word1);
    PowerOfTwoExactly(word0, word1);
    UpperSame(DOUBLE, d, sig, e, z, k, x);
    SameRange(Upper(x, sig), Lower(x), Numerator(DOUBLE, d, k), Denominator(DOUBLE, k), kCheck);
    s, decpt := Digits(p, b, x, mode, ndigits, word1 % 2 == 0, mode < 2 && PowerOfTwo(word0, word1), k, kCheck, single,
                       Limit(mode, ndigits, k), LowerLimit(mode, ndigits, k));
    Outcome(d, sig, e, z, x, k, kCheck, mode, ndigits, single, s, decpt);
    EmptyOutcome(mode, ndigits, d.M % 2 == 0, mode <= 1 && d.M == Hidden(DOUBLE), k, Upper(x, sig), Lower(x),
                 StartMargin(x, mode, single), Limit(mode, ndigits, k), LowerLimit(mode, ndigits, k), s, decpt);
  }

  /** What is promised of a double, by its words. */
  ghost predicate PrintsDouble(word0: int, word1: int, sig: int, e: int, E: int, mode: int, ndigits: int, k: int,
                               single: bool, s: seq<int>, decpt: int)
    requires Ordinary(word0, word1)
  {
    FloatOfIsFinite(word0, word1);
    && InDecade(DOUBLE, FloatOf(word0, word1), E)
    && Prints(FloatOf(word0, word1), sig, e, E, mode, ndigits, k, single, s, decpt)
  }

  lemma DoublePrints(word0: int, word1: int, sig: int, e: int, mode: int, ndigits: int, k: int, kCheck: bool,
                     single: bool, s: seq<int>, decpt: int) returns (E: int)
    requires Ordinary(word0, word1) && CloseDouble(word0, word1, k, kCheck)
    requires var m := Reduced(mode);
             && DoubleFulfils(word0, word1, sig, e, m, Asked(m, ndigits), k, single, s, decpt)
             && EmptyOnly(m, Asked(m, ndigits), s, decpt)
    ensures PrintsDouble(word0, word1, sig, e, E, mode, ndigits, k, single, s, decpt)
  {
    var x := FloatOf(word0, word1);
    FloatOfIsFinite(word0, word1);
    E := ExponentOf(x, k);
    ExponentInDecade(x, k, kCheck);
    PrintsByMode(x, sig, e, mode, ndigits, k, kCheck, single, s, decpt);
  }

  /** The digits in a mode from 0 to 5. */
  method PrintReduced(p: Powers, word0: int, word1: int, m: int, nd: int, k: int, kCheck: bool, single: bool)
      returns (r: Printed, ghost sig: int, ghost e: int, ghost z: nat)
    requires p.Valid() && Ordinary(word0, word1) && CloseDouble(word0, word1, k, kCheck) && 0 <= m <= 5
    requires (m <= 1 ==> nd == 0) && (m == 2 || m == 4 ==> nd >= 1)
    modifies p
    ensures p.Valid() && SignificandOf(DOUBLE, FloatOf(word0, word1), sig, e, z) && sig % 2 == 1 && sig >= 1
    ensures r.NeverEnds? <==> Loops(m, nd, k)
    ensures r.Printed? ==> DoubleFulfils(word0, word1, sig, e, m, nd, k, single, r.s, r.decpt)
    ensures r.Printed? ==> EmptyOnly(m, nd, r.s, r.decpt)
  {
    ghost var d := FloatOf(word0, word1);
    FloatOfIsFinite(word0, word1);
    var ilim := Limit(m, nd, k);
    var b, e', bits;
    b, e', bits, z := D2b(word0, word1);
    sig, e := b.Value(), e';
    var x := Scales(word0, word1, e', bits, z, k, m, ilim);
    if m == 5 && x.b5 > 0 && x.m5 > x.b5 {
      r := NeverEnds;
      return;
    }
    if m == 5 && ilim < 0 {
      // Whatever numerator and denominator come to, there are no digits.
      NoneOutcome(d, k, kCheck, nd);
      return Printed([], -1 - nd + 1), sig, e, z;
    }
    var s, decpt := PrintScaled(p, b, x, word0, word1, m, nd, k, kCheck, single, e, z);
    r := Printed(s, decpt);
  }

  /** The digits of a double and the place of its decimal point, from a close estimate k of its exponent. */
  method Print(p: Powers, word0: int, word1: int, mode: int, ndigits: int, k: int, kCheck: bool, single: bool)
      returns (r: Printed, ghost sig: int, ghost e: int, ghost z: nat, ghost E: int)
    requires p.Valid() && Ordinary(word0, word1) && CloseDouble(word0, word1, k, kCheck)
    modifies p
    ensures p.Valid() && SignificandOf(DOUBLE, FloatOf(word0, word1), sig, e, z) && sig % 2 == 1 && sig >= 1
    ensures r.NeverEnds? <==> (mode == 5 || mode == 9) && k < 0 && ndigits + k + 1 <= 0
    ensures r.Printed? ==> PrintsDouble(word0, word1, sig, e, E, mode, ndigits, k, single, r.s, r.decpt)
  {
    var m := Reduced(mode);
    r, sig, e, z := PrintReduced(p, word0, word1, m, Asked(m, ndigits), k, kCheck, single);
    E := 0;
    if r.Printed? { E := DoublePrints(word0, word1, sig, e, mode, ndigits, k, kCheck, single, r.s, r.decpt); }
  }

  const HALF_WORD := 0x3fe0_0000

  /** One half is 5 / 10. */
  lemma HalfClose(n: nat)
    requires n == -DOUBLE.lowest
    ensures CloseDouble(HALF_WORD, 0, -1, false)
  {
    var x := FloatOf(HALF_WORD, 0);
    var P := Pow(2, n - 53);
    PrecisionPowers();
    FloatOfIsFinite(HALF_WORD, 0);
    PowAdd(2, 53, n - 53);
    assert x.q - DOUBLE.lowest == n - 53 && x.M == Pow(2, 52);
    assert Part(10, 1) == 10 && Part(10, -1) == 1;
    assert Numerator(DOUBLE, x, -1) == 10 * (Pow(2, 52) * P) && Denominator(DOUBLE, -1) == 2 * (Pow(2, 52) * P);
  }

  /** Printing one half ends except in modes 5 and 9 with no digit after the point; in mode 0 it is read back. */
  method Half(mode: int, ndigits: int) returns (r: Printed)
    ensures r.NeverEnds? <==> (mode == 5 || mode == 9) && ndigits <= 0
    ensures mode == 0 ==> r.Printed? && Reads(DOUBLE, Float(Hidden(DOUBLE), -53), DigitsValue(r.s), r.decpt - |r.s|)
  {
    var p := new Powers();
    HalfClose(-DOUBLE.lowest);
    PrecisionPowers();
    ghost var sig, e, z, E;
    r, sig, e, z, E := Print(p, HALF_WORD, 0, mode, ndigits, -1, false, false);
    assert FloatOf(HALF_WORD, 0) == Float(Hidden(DOUBLE), -53);
  }
}
