/** Printing a number of single precision, given as a double. */
module SinglePrecision {
  import opened Arith
  import opened Decimal
  import opened DigitLimit
  import opened Dtoa
  import opened ExponentRatios
  import opened Floats
  import opened Preparation
  import opened Ratios
  import opened ReadBack
  import opened Scaling
  import opened Shortest

  /** x is a number of single precision that is not below the least of full precision. */
  ghost predicate IsSingle(x: Float) {
    x.M % Pow(2, 29) == 0 && x.q + 29 >= SINGLE.lowest
  }

  function ToSingle(x: Float): Float {
    Float(x.M / Pow(2, 29), x.q + 29)
  }

  /** Dropping w zero bits of a number of p bits leaves p - w. */
  lemma DropBits(M: int, c: int, p: nat, w: nat)
    requires M == c * Pow(2, w) && Pow(2, p) <= M < 2 * Pow(2, p) && w <= p
    ensures Pow(2, p - w) <= c < 2 * Pow(2, p - w) && (M == Pow(2, p) <==> c == Pow(2, p - w))
  {
    var P, Q := Pow(2, p - w), Pow(2, w);
    PowAdd(2, p - w, w);
    CancelLt(P, c, Q);
    CancelLt(c, P, Q);
    CancelLt(c, 2 * P, Q);
    MulAssoc(2, P, Q);
  }

  lemma SingleIsFinite(x: Float)
    requires Finite(DOUBLE, x) && x.M > 0 && IsSingle(x)
    ensures Finite(SINGLE, ToSingle(x)) && ToSingle(x).M > 0 && x.M == ToSingle(x).M * Pow(2, 29)
    ensures x.M == Hidden(DOUBLE) <==> ToSingle(x).M == Hidden(SINGLE)
  {
    var P := Pow(2, 29);
    assert x.M == x.M / P * P;
    assert Pow(2, 53) == 2 * Hidden(DOUBLE) && Pow(2, 24) == 2 * Hidden(SINGLE);
    DropBits(x.M, x.M / P, 52, 29);
  }

  lemma EvenProduct(c: int, n: nat)
    requires n > 0
    ensures c * Pow(2, n) % 2 == 0
  {
    assert c * Pow(2, n) == 2 * (c * Pow(2, n - 1)) by { SwapLast(c, 2, Pow(2, n - 1)); MulAssoc(2, c, Pow(2, n - 1)); }
  }

  lemma OddPart(sig: int, c: int, n: nat)
    requires sig == c * Pow(2, n) && sig % 2 == 1
    ensures n == 0
  {
    if n > 0 { EvenProduct(c, n); }
  }

  lemma TrailingBits(sig: int, z: nat, c: int, w: nat)
    requires sig % 2 == 1 && sig * Pow(2, z) == c * Pow(2, w)
    ensures z >= w && sig * Pow(2, z - w) == c
  {
    if z < w {
      PowAdd(2, w - z, z);
      MulAssoc(c, Pow(2, w - z), Pow(2, z));
      SameFactor(sig, c * Pow(2, w - z), Pow(2, z));
      OddPart(sig, c, w - z);
    } else {
      PowAdd(2, z - w, w);
      MulAssoc(sig, Pow(2, z - w), Pow(2, w));
      SameFactor(sig * Pow(2, z - w), c, Pow(2, w));
    }
  }

  ghost predicate ShortestSingle(y: Float, k: int, mode: int, s: seq<int>, decpt: int)
    requires y.q >= SINGLE.lowest
  {
    ShortestFor(GapTarget(SINGLE, y, k, y.M == Hidden(SINGLE), mode == 0), k, s, decpt - 1)
  }

  ghost predicate ReadsUnlessHalfway(y: Float, s: seq<int>, decpt: int)
    requires Finite(SINGLE, y)
  {
    Reads(SINGLE, y, DigitsValue(s), decpt - |s|) <==> !Halves(SINGLE, y, DigitsValue(s), decpt - |s|)
  }

  lemma OddOutcome(y: Float, k: int, s: seq<int>, decpt: int)
    requires Finite(SINGLE, y) && y.M % 2 == 1 && ShortestSingle(y, k, 0, s, decpt)
    ensures ReadsUnlessHalfway(y, s, decpt)
  {
    assert Hidden(SINGLE) == 2 * Pow(2, SINGLE.precision - 2);
    OddReadsExactly(SINGLE, y, k, DigitsValue(s), decpt - 1 - k, |s| - 1, decpt - |s|);
  }

  /**
   * The digits are the shortest decimal within half the gaps of single precision. These always count themselves in
   * mode 0, so the digits of an even number are read back, and those of an odd one exactly if they do not lie halfway.
   */
  ghost predicate ReadsBackSingle(x: Float, mode: int, s: seq<int>, decpt: int)
    requires Finite(DOUBLE, x) && x.M > 0 && IsSingle(x)
  {
    SingleIsFinite(x);
    var y := ToSingle(x);
    var quarter := y.M == Hidden(SINGLE);
    && (exists k :: ShortestSingle(y, k, mode, s, decpt))
    && (mode == 0 && y.M % 2 == 0 ==> Reads(SINGLE, y, DigitsValue(s), decpt - |s|))
    && (mode == 1 ==> ReadsAs(SINGLE, y, false, DigitsValue(s), decpt - |s|))
    && (mode == 0 && y.M % 2 == 0 && (quarter ==> y.q > SINGLE.lowest) ==> NoneReads(SINGLE, y, |s|))
    && (mode == 0 && y.M % 2 == 1 ==> ReadsUnlessHalfway(y, s, decpt))
  }

  lemma SingleOutcome(x: Float, sig: int, e: int, z: nat, y: Exponents, k: int, mode: int, s: seq<int>, decpt: int)
    requires 0 <= mode <= 1 && Finite(DOUBLE, x) && x.M > 0 && IsSingle(x)
    requires SignificandOf(DOUBLE, x, sig, e, z) && sig % 2 == 1
    requires NonNegative(y) && Balanced(y, e, k) && MarginLess(y, if x.M == Hidden(DOUBLE) then z + 2 else z + 1, 0)
    requires Estimated(mode, 0, x.M % 2 == 0, x.M == Hidden(DOUBLE), k, Upper(y, sig), Lower(y),
                       StartMargin(y, mode, true), -1, -1, s, decpt)
    ensures ReadsBackSingle(x, mode, s, decpt)
  {
    SingleIsFinite(x);
    TrailingBits(sig, z, ToSingle(x).M, 29);
    assert x.M % 2 == 0 by { EvenProduct(ToSingle(x).M, 29); }
    SingleShortest(ToSingle(x), sig, e, z - 29, y, k, mode, s, decpt);
  }

  lemma SingleShortest(f: Float, sig: int, e: int, z: nat, y: Exponents, k: int, mode: int, s: seq<int>, decpt: int)
    requires 0 <= mode <= 1 && Finite(SINGLE, f) && f.M > 0 && SignificandOf(SINGLE, f, sig, e, z)
    requires NonNegative(y) && Balanced(y, e, k) && MarginLess(y, if f.M == Hidden(SINGLE) then z + 31 else z + 30, 0)
    requires Estimated(mode, 0, true, f.M == Hidden(SINGLE), k, Upper(y, sig), Lower(y), StartMargin(y, mode, true), -1,
                       -1, s, decpt)
    ensures exists k' :: ShortestSingle(f, k', mode, s, decpt)
    ensures mode == 0 && f.M % 2 == 0 ==> Reads(SINGLE, f, DigitsValue(s), decpt - |s|)
    ensures mode == 1 ==> ReadsAs(SINGLE, f, false, DigitsValue(s), decpt - |s|)
    ensures mode == 0 && f.M % 2 == 0 && (f.M == Hidden(SINGLE) ==> f.q > SINGLE.lowest) ==> NoneReads(SINGLE, f, |s|)
    ensures mode == 0 && f.M % 2 == 1 ==> ReadsUnlessHalfway(f, s, decpt)
  {
    var quarter, wide := f.M == Hidden(SINGLE), y.(m2 := y.m2 + 29);
    UpperSame(SINGLE, f, sig, e, z, k, wide);
    UnitShare(SINGLE, f, sig, e, z, wide, quarter);
    assert Upper(wide, sig) == Upper(y, sig) && Lower(wide) == Lower(y) && Margin(wide) == StartMargin(y, mode, true);
    var k' := EstimatedShortest(SINGLE, f, k, mode, 0, quarter, true, Upper(y, sig), Lower(y), Margin(wide), s, decpt);
    assert ShortestSingle(f, k', mode, s, decpt);
    if mode == 1 || f.M % 2 == 0 {
      ShortestReadsBack(SINGLE, f, mode == 0, k', quarter, mode == 0, s, decpt - 1);
    } else {
      OddOutcome(f, k', s, decpt);
    }
  }

  /** 14648437 * 2^27, an odd number of single precision: 1.966079933865984 times 10^15. */
  function Halfway(): Float {
    Float(14648437, 27)
  }

  /** Its margins over 2^149. */
  function HalfwayTarget(): Target {
    Target(4 * 14648437 * 0x800_0000, 4 * 1_00000_00000_00000, 2 * 0x800_0000, 2 * 0x800_0000, true)
  }

  lemma HalfwayIsShortest()
    ensures ShortestFor(HalfwayTarget(), 15, [1, 9, 6, 6, 0, 8], 15)
  {
    var g, s := HalfwayTarget(), [1, 9, 6, 6, 0, 8];
    assert Pow10(0) == 1 && Pow10(4) == 1_0000 && Pow10(5) == 10_0000;
    DigitsSnoc([], 1);
    DigitsSnoc([] + [1], 9);
    DigitsSnoc([] + [1] + [9], 6);
    DigitsSnoc([] + [1] + [9] + [6], 6);
    DigitsSnoc([] + [1] + [9] + [6] + [6], 0);
    DigitsSnoc([] + [1] + [9] + [6] + [6] + [0], 8);
    assert s == [] + [1] + [9] + [6] + [6] + [0] + [8];
    assert InUnits(s, 15, 15, 6) == 196608;
    UndecidedMeansNoneShorter(g, 19660, g.b * 1_0000 - 19660 * g.S, 4);
  }

  lemma HalfwayFacts(n: nat)
    requires n == -SINGLE.lowest
    ensures Finite(SINGLE, Halfway()) && Unit(SINGLE, Halfway()) == 0x800_0000 * Pow(2, n)
    ensures Hidden(SINGLE) == 0x80_0000 && Part(10, 15) == 1_00000_00000_00000
  {
    PowersOfTwo();
    PowProduct(2, 16, 8, 0x1_0000, 0x100);
    assert Pow(2, 24) == 2 * Pow(2, 23);
    PowProduct(2, 24, 2, 0x100_0000, 4);
    PowProduct(2, 26, 1, 0x400_0000, 2);
    PowProduct(2, 27, n, 0x800_0000, Pow(2, n));
    assert Pow(10, 5) == 1_00000;
    PowProduct(10, 5, 5, 1_00000, 1_00000);
    PowProduct(10, 10, 5, 1_00000_00000, 1_00000);
  }

  lemma HalfwayNumbers(p: int, u: int, T: int)
    requires u == 0x800_0000 * p && T == 1_00000_00000_00000
    ensures Target(4 * (14648437 * u) * 1, 4 * (p * T), 2 * u * 1, 2 * u * 1, true) == Times(HalfwayTarget(), p)
  {
  }

  lemma HalfwayEqual(n: nat)
    requires n == -SINGLE.lowest
    ensures GapTarget(SINGLE, Halfway(), 15, false, true) == Times(HalfwayTarget(), Pow(2, n))
  {
    HalfwayFacts(n);
    HalfwayNumbers(Pow(2, n), Unit(SINGLE, Halfway()), Part(10, 15));
  }

  /** The decimal 1.96608 times 10^15 lies halfway to the next number, which is even. */
  lemma HalfwayIsTie(n: nat, t: int)
    requires n == -SINGLE.lowest && t == 10
    ensures Finite(SINGLE, Halfway()) && !Reads(SINGLE, Halfway(), 196608, t)
  {
    var x, u, ten := Halfway(), Unit(SINGLE, Halfway()), Part(10, t);
    HalfwayFacts(n);
    assert ten == 1_00000_00000 by {
      assert Pow(10, 5) == 1_00000;
      PowProduct(10, 5, 5, 1_00000, 1_00000);
    }
    NearestExactly(SINGLE, 196608 * ten * Pow(2, n), Part(10, -t), x, false);
    TieNumbers(Pow(2, n), u, ten);
  }

  lemma TieNumbers(p: int, u: int, ten: int)
    requires u == 0x800_0000 * p && ten == 1_00000_00000
    ensures 4 * (196608 * ten * p) == (4 * (14648437 * u) + 2 * u) * 1
  {
  }

  /** Mode 0 prints the number as that decimal, which is not read back. */
  lemma HalfwayIsMisread(n: nat)
    requires n == -SINGLE.lowest
    ensures Finite(SINGLE, Halfway()) && ShortestSingle(Halfway(), 15, 0, [1, 9, 6, 6, 0, 8], 16)
    ensures !Reads(SINGLE, Halfway(), 196608, 10)
  {
    HalfwayFacts(n);
    HalfwayEqual(n);
    HalfwayIsShortest();
    ShortestScales(HalfwayTarget(), Pow(2, n), 15, [1, 9, 6, 6, 0, 8], 15);
    HalfwayIsTie(n, 10);
  }
}
