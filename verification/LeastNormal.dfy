/** The least double of full precision, where the margin below is half of what it could be. */
module LeastNormal {
  import opened Arith
  import opened Decimal
  import DigitLimit
  import opened Dtoa
  import opened Floats
  import opened ReadBack
  import opened Scaling
  import opened Shortest

  /** x lies between lo and hi times P. */
  predicate Between(x: int, lo: int, hi: int, P: int) {
    0 <= lo && 0 < P && lo * P <= x <= hi * P
  }

  lemma Squared(x: int, lo: int, hi: int, P: int)
    requires Between(x, lo, hi, P)
    ensures Between(x * x, lo * lo, hi * hi, P * P)
  {
    MulLe(0, lo, P);
    SquareLe(lo * P, x);
    SquareLe(x, hi * P);
    SquareOf(lo, P);
    SquareOf(hi, P);
    MulLe(1, P, P);
    MulLe(0, lo, lo);
  }

  lemma SquareLe(a: int, b: int)
    requires 0 <= a <= b
    ensures a * a <= b * b
  {
    MulLe(a, b, a);
    MulLe(a, b, b);
  }

  lemma SquareOf(a: int, b: int)
    ensures a * b * (a * b) == a * a * (b * b)
  {
    MulAssoc(a * b, a, b);
    SwapLast(a, b, a);
    MulAssoc(a * a, b, b);
  }

  /** Bounds with fewer digits. */
  lemma Coarser(x: int, lo: int, hi: int, P: int, lo': int, hi': int, Q: int)
    requires Between(x, lo, hi, P) && 0 <= lo' && 0 < Q && lo' * Q <= lo && hi <= hi' * Q
    ensures Between(x, lo', hi', Q * P)
  {
    MulLe(lo' * Q, lo, P);
    MulLe(hi, hi' * Q, P);
    MulAssoc(lo', Q, P);
    MulAssoc(hi', Q, P);
    MulLe(1, Q, P);
  }

  lemma FiveTo77(n: nat)
    requires n == 7
    ensures Pow(5, 11 * n) == 661744490042422139897126953655970282852649688720703125
  {
    assert Pow(5, 7) == 78125;
    PowProduct(5, n, n, 78125, 78125);
    PowProduct(5, 2 * n, 2 * n, 6103515625, 6103515625);
    PowProduct(5, 4 * n, 4 * n, 37252902984619140625, 37252902984619140625);
    PowProduct(5, 8 * n, 2 * n, 1387778780781445675529539585113525390625, 6103515625);
    PowProduct(5, 10 * n, n, 8470329472543003390683225006796419620513916015625, 78125);
  }

  lemma TwoTo96(n: nat)
    requires n == 32
    ensures Pow(2, 3 * n) == 0x1_0000_0000_0000_0000_0000_0000
  {
    PowersOfTwo();
    PowProduct(2, n, n, 0x1_0000_0000, 0x1_0000_0000);
    PowProduct(2, 2 * n, n, 0x1_0000_0000_0000_0000, 0x1_0000_0000);
  }

  lemma TwoTo83(n: nat)
    requires n == 32
    ensures Pow(2, 2 * n + 19) == 0x8_0000_0000_0000_0000_0000
  {
    PowersOfTwo();
    PowProduct(2, n, n, 0x1_0000_0000, 0x1_0000_0000);
    PowProduct(2, 16, 2, 0x1_0000, 4);
    PowProduct(2, 18, 1, 0x4_0000, 2);
    PowProduct(2, 2 * n, 19, 0x1_0000_0000_0000_0000, 0x8_0000);
  }

  /** Doubling the exponent squares the bounds, which are then cut to 96 bits again. */
  lemma Doubled(n: nat, lo: int, hi: int, e: nat, lo': int, hi': int)
    requires Between(Pow(5, n), lo, hi, Pow(2, e))
    requires 0 <= lo' && lo' * 0x1_0000_0000_0000_0000_0000_0000 <= lo * lo
    requires hi * hi <= hi' * 0x1_0000_0000_0000_0000_0000_0000
    ensures Between(Pow(5, n + n), lo', hi', Pow(2, 96 + (e + e)))
  {
    Squared(Pow(5, n), lo, hi, Pow(2, e));
    PowAdd(5, n, n);
    PowAdd(2, e, e);
    TwoTo96(32);
    Coarser(Pow(5, n + n), lo * lo, hi * hi, Pow(2, e + e), lo', hi', 0x1_0000_0000_0000_0000_0000_0000);
    PowProduct(2, 96, e + e, 0x1_0000_0000_0000_0000_0000_0000, Pow(2, e + e));
  }

  const LO := 44072128317012440822003468777
  const HI := 44072128317012440822003468782

  /** 5^308 to 28 digits. */
  lemma FiveTo308(n: nat, e: nat)
    requires n == 77 && e == 83
    ensures Between(Pow(5, 4 * n), LO, HI, Pow(2, 288 + 4 * e))
  {
    FiveTo77(7);
    TwoTo83(32);
    assert Between(Pow(5, n), 68422776578360208541197733559, 68422776578360208541197733560, Pow(2, e));
    Doubled(n, 68422776578360208541197733559, 68422776578360208541197733560, e, 59091063153828708996857156879,
            59091063153828708996857156882);
    Doubled(n + n, 59091063153828708996857156879, 59091063153828708996857156882, 96 + (e + e), LO, HI);
  }

  /** 2.2250738585072014, a decimal of 17 digits, and its first 16 digits. */
  const DECIMAL: nat := 22250738585072014
  const DECIMAL16: nat := 2225073858507201

  /** F / S is 5^308 / 2^768 closely enough to tell the digits of 2^-1022 times 10^308, which is 2^54 F / S. */
  ghost predicate Telling(F: int, S: int) {
    && F > 0 && S > 0
    && DECIMAL16 * S < (0x40_0000_0000_0000 - 2) * 1_00000_00000_00000 * F
    && (0x40_0000_0000_0000 + 2) * 1_00000_00000_00000 * F < (DECIMAL16 + 1) * S
    && (0x40_0000_0000_0000 - 1) * 10_00000_00000_00000 * F < DECIMAL * S
    && DECIMAL * S < (0x40_0000_0000_0000 + 2) * 10_00000_00000_00000 * F
  }

  lemma BetweenTells(F: int, Q: int, S: int)
    requires Between(F, LO, HI, Q) && S == 0x10_0000_0000_0000_0000_0000_0000_0000_0000_0000 * Q
    ensures Telling(F, S)
  {
    assert LO * Q > 0;
  }

  lemma TwoTo768(h: nat, e: nat)
    requires h == 37 && e == 620
    ensures Pow(2, 4 * h + e) == 0x10_0000_0000_0000_0000_0000_0000_0000_0000_0000 * Pow(2, e)
  {
    PowersOfTwo();
    PowProduct(2, 32, 4, 0x1_0000_0000, 0x10);
    PowProduct(2, 36, 1, 0x10_0000_0000, 2);
    PowProduct(2, h, h, 0x20_0000_0000, 0x20_0000_0000);
    PowProduct(2, 2 * h, 2 * h, 0x400_0000_0000_0000_0000, 0x400_0000_0000_0000_0000);
    PowProduct(2, 4 * h, e, 0x10_0000_0000_0000_0000_0000_0000_0000_0000_0000, Pow(2, e));
  }

  /** F is 5^308 and S is 2^768. */
  lemma PowersTell(n: nat, m: nat)
    requires n == 308 && m == 768
    ensures Telling(Pow(5, n), Pow(2, m))
  {
    FiveTo308(77, 83);
    TwoTo768(37, 620);
    BetweenTells(Pow(5, n), Pow(2, 620), Pow(2, m));
  }

  lemma TenTo15(n: nat)
    requires n == 5
    ensures Pow(10, 3 * n) == 1_00000_00000_00000
  {
    assert Pow(10, 5) == 1_00000;
    PowProduct(10, n, n, 1_00000, 1_00000);
    PowProduct(10, 2 * n, n, 1_00000_00000, 1_00000);
  }

  /** The number 2^54 F / S, with margins of half a unit that count. */
  function WideTarget(F: int, S: int): Target {
    Target(0x40_0000_0000_0000 * F, S, 2 * F, 2 * F, true)
  }

  /** No decimal of 16 digits is within these margins. */
  lemma WideHasNone(F: int, S: int)
    requires Telling(F, S)
    ensures NoneShorter(WideTarget(F, S), 17)
  {
    var g := WideTarget(F, S);
    TenTo15(5);
    UndecidedMeansNoneShorter(g, DECIMAL16, g.b * 1_00000_00000_00000 - DECIMAL16 * S, 15);
  }

  function Least(): Float {
    Float(Hidden(DOUBLE), -1074)
  }

  lemma HiddenBit(n: nat)
    requires n == 52
    ensures Pow(2, n) == 0x10_0000_0000_0000 && Hidden(DOUBLE) == 0x10_0000_0000_0000
    ensures Finite(DOUBLE, Least()) && !HalfGap(DOUBLE, Least()) && Unit(DOUBLE, Least()) == 1
  {
    PowersOfTwo();
    var m: nat := 16;
    PowProduct(2, m, 4, 0x1_0000, 0x10);
    PowProduct(2, m + 4, 2 * m, 0x10_0000, 0x1_0000_0000);
    assert Pow(2, n + 1) == 2 * Pow(2, n);
  }

  lemma TenTo308(n: nat)
    ensures Pow(10, n) == Pow(2, n) * Pow(5, n)
  {
    TenIsTwoFives(n);
  }

  lemma TwoTo1074(z: nat, n: nat, m: nat)
    requires z + 2 == n + m
    ensures 4 * Pow(2, z) == Pow(2, n) * Pow(2, m)
  {
    PowAdd(2, n, m);
    assert Pow(2, z + 2) == 2 * Pow(2, z + 1) && Pow(2, z + 1) == 2 * Pow(2, z);
  }

  lemma WideEqual(p: int, F: int, S: int, T: int, Z: int)
    requires T == p * F && 4 * Z == p * S
    ensures Target(4 * (0x10_0000_0000_0000 * 1) * T, 4 * (Z * 1), 2 * 1 * T, 2 * 1 * T, true) ==
            Times(WideTarget(F, S), p)
  {
    assert p * (0x40_0000_0000_0000 * F) == 0x40_0000_0000_0000 * (p * F) && p * (2 * F) == 2 * (p * F);
  }

  /** The margins of half a unit are the wide ones times a power of two. */
  lemma WideIsGap(k: int, n: nat, m: nat)
    requires k == -308 && k + n == 0 && n + m == 2 - DOUBLE.lowest
    ensures GapTarget(DOUBLE, Least(), k, false, true) == Times(WideTarget(Pow(5, n), Pow(2, m)), Pow(2, n))
  {
    HiddenBit(52);
    TenTo308(n);
    TwoTo1074(-DOUBLE.lowest, n, m);
    WideEqual(Pow(2, n), Pow(5, n), Pow(2, m), Part(10, n), Pow(2, -DOUBLE.lowest));
  }

  lemma GapHasNone(k: int, n: nat, m: nat)
    requires k == -308 && n == 308 && m == 768
    ensures NoneShorter(GapTarget(DOUBLE, Least(), k, false, true), 17)
  {
    PowersTell(n, m);
    WideHasNone(Pow(5, n), Pow(2, m));
    WideIsGap(k, n, m);
    NoneShorterScales(WideTarget(Pow(5, n), Pow(2, m)), Pow(2, n), 17);
  }

  /** No decimal of 16 digits is read as the least number. */
  lemma NoneReadsLeast(k: int)
    requires k == -308
    ensures Finite(DOUBLE, Least()) && NoneReads(DOUBLE, Least(), 17)
  {
    var x := Least();
    HiddenBit(52);
    assert x.M % 2 == 0;
    GapHasNone(k, 308, 768);
    NoneOfShorter(DOUBLE, x, true, k, false, true, 17);
  }

  lemma BoundsTimes(p: int, F: int, S: int, low: int, high: int, d: int)
    requires low * F < d * S < high * F && p > 0
    ensures low * (p * F) < d * (p * S) < high * (p * F)
  {
    MulLt(low * F, d * S, p);
    MulLt(d * S, high * F, p);
    MulAssoc(low, F, p);
    MulAssoc(high, F, p);
    MulAssoc(d, S, p);
  }

  /** The decimal is within the narrow margins. */
  lemma NarrowHas(p: int, F: int, S: int, ten: int, Z: int)
    requires Telling(F, S) && p > 0 && ten == p * F * 10_00000_00000_00000 && 4 * Z == p * S
    ensures (4 * 0x10_0000_0000_0000 - 1) * ten < 4 * (DECIMAL * Z) < (4 * 0x10_0000_0000_0000 + 2) * ten
  {
    BoundsTimes(p, F, S, (0x40_0000_0000_0000 - 1) * 10_00000_00000_00000,
                (0x40_0000_0000_0000 + 2) * 10_00000_00000_00000, DECIMAL);
  }

  lemma NarrowFraction(t: int, z: nat, n: nat, m: nat)
    requires n == 308 && m == 768 && t + n == -16 && z + 2 == n + m
    ensures (4 * 0x10_0000_0000_0000 - 1) * Part(10, -t) < 4 * (DECIMAL * Part(10, t) * Pow(2, z))
    ensures 4 * (DECIMAL * Part(10, t) * Pow(2, z)) < (4 * 0x10_0000_0000_0000 + 2) * Part(10, -t)
  {
    PowersTell(n, m);
    TenTo308(n);
    TenTo15(5);
    PowProduct(10, 15, 1, 1_00000_00000_00000, 10);
    PowProduct(10, n, 16, Pow(2, n) * Pow(5, n), 10_00000_00000_00000);
    TwoTo1074(z, n, m);
    assert DECIMAL * Part(10, t) * Pow(2, z) == DECIMAL * Pow(2, z);
    NarrowHas(Pow(2, n), Pow(5, n), Pow(2, m), Part(10, -t), Pow(2, z));
  }

  /** With the narrow margins too the decimal is accepted, whatever power of ten it is written with. */
  lemma NarrowAccepts(k: int, closed: bool, a: nat, q: nat, t: int)
    requires t == -324 && t == a + k - q
    ensures Finite(DOUBLE, Least()) && GapTarget(DOUBLE, Least(), k, true, closed).Accepts(DECIMAL * Pow10(a), q)
  {
    var x, z: nat := Least(), -DOUBLE.lowest;
    var A, B := DECIMAL * Pow10(a) * Part(10, k) * Pow(2, z), Part(10, -k) * Pow10(q);
    var A', B' := DECIMAL * Part(10, t) * Pow(2, z), Part(10, -t);
    HiddenBit(52);
    AcceptsByEnds(DOUBLE, x, k, true, closed, DECIMAL * Pow10(a), q);
    SameFraction(DECIMAL, a, q, k, t, Pow(2, z));
    MulLe(1, Part(10, -k), Pow10(q));
    NarrowFraction(t, z, 308, 768);
    EndSame(4 * 0x10_0000_0000_0000 - 1, A, B, A', B');
    EndSame(4 * 0x10_0000_0000_0000 + 2, A, B, A', B');
  }

  /** Though one margin is half of what it could be, no decimal of fewer digits is read as the least number. */
  lemma LeastIsShortest(k: int, closed: bool, s: seq<int>, k': int)
    requires ShortestFor(GapTarget(DOUBLE, Least(), k, true, closed), k, s, k')
    ensures Finite(DOUBLE, Least()) && NoneReads(DOUBLE, Least(), |s|)
  {
    NoneReadsLeast(-308);
    var a: nat, q: nat := if -324 >= k then -324 - k else 0, if -324 >= k then 0 else k + 324;
    NarrowAccepts(k, closed, a, q, -324);
    MulLe(1, DECIMAL, Pow10(a));
    assert Shifted(DECIMAL, a) == DECIMAL * Pow10(a);
    TenTo17(17);
    assert SignificantDigits(DECIMAL * Pow10(a), 17);
    assert |s| <= 17;
  }

  // ---- closeness ----

  /** With margins wider than a step S, the next number towards B from one within them is within them. */
  lemma OtherWithin(V: int, B: int, S: int, lo: int, hi: int)
    requires 0 < S < lo <= hi && B - lo <= V <= B + hi
    ensures var other := if B - V >= 0 then V + S else V - S; B - lo < other < B + hi
  {
  }

  lemma OtherAccepted(g: Target, v: int, q: nat)
    requires 0 < g.S < g.mlo * Pow10(q) && g.mlo <= g.mhi && g.Accepts(v, q)
    ensures g.Accepts(if g.b * Pow10(q) - v * g.S >= 0 then v + 1 else v - 1, q)
  {
    var P := Pow10(q);
    MulLe(g.mlo, g.mhi, P);
    MulDistributes(g.b, g.mhi, P);
    MulDistributes(g.b, -g.mlo, P);
    NeighbourOf(v, g.S);
    OtherWithin(v * g.S, g.b * P, g.S, g.mlo * P, g.mhi * P);
  }

  lemma HalfStep(V: int, W: int, B: int, S: int)
    requires 2 * Distance(V - B) <= S && (W == V || W >= V + S || W <= V - S)
    ensures Distance(V - B) <= Distance(W - B)
  {
  }

  /** Margins wider than the step of the grid leave a choice between two candidates, so the closest is taken. */
  lemma ChosenIsClosest(g: Target, v: int, w: int, q: nat)
    requires 0 < g.S < g.mlo * Pow10(q) && g.mlo <= g.mhi && q > 0 && g.Accepts(v, q) && g.PrefersNearer(v, q)
    ensures Distance(v * g.S - g.b * Pow10(q)) <= Distance(w * g.S - g.b * Pow10(q))
  {
    OtherAccepted(g, v, q);
    StepFrom(v, w, g.S);
    HalfStep(v * g.S, w * g.S, g.b * Pow10(q), g.S);
  }

  /** Four times the number of units in one is less than 10^324 and more than 10^307 times 2^54 + 2. */
  lemma UnitsBetween(Z: int, p: int, F: int, S: int, T: int)
    requires Telling(F, S) && p > 0 && 4 * Z == p * S && 10 * T == p * F
    ensures 4 * Z < 10 * T * 10_00000_00000_00000 && (4 * 0x10_0000_0000_0000 + 2) * T < 4 * Z
  {
    BoundsTimes(p, F, S, 0, 10_00000_00000_00000, 1);
    BoundsTimes(p, S, F, 0, 10, 4 * 0x10_0000_0000_0000 + 2);
  }

  lemma PowersBetween(z: nat, n: nat, m: nat)
    requires n == 308 && m == 768 && z + 2 == n + m
    ensures 4 * Pow(2, z) < Pow(10, n) * Pow(10, 16)
    ensures (4 * 0x10_0000_0000_0000 + 2) * Pow(10, n - 1) < 4 * Pow(2, z)
  {
    PowersTell(n, m);
    TenTo308(n);
    TenTo15(5);
    PowProduct(10, 15, 1, 1_00000_00000_00000, 10);
    TwoTo1074(z, n, m);
    UnitsBetween(Pow(2, z), Pow(2, n), Pow(5, n), Pow(2, m), Pow(10, n - 1));
  }

  lemma ProductLess(x: int, a: int, b: int, c: int, d: int)
    requires x < a * b && 0 <= a <= c && 0 <= b <= d
    ensures x < c * d
  {
    MulLe(a, c, b);
    MulLe(b, d, c);
  }

  /** Numbers of at least one are scaled for the exponent -308 or a lower one. */
  lemma ExponentAtMost(k: int, z: nat, n: nat)
    requires (4 * 0x10_0000_0000_0000 + 2) * Pow(10, n) < 4 * Pow(2, z)
    ensures 4 * (Pow(2, z) * Part(10, k)) <= (4 * 0x10_0000_0000_0000 + 2) * Part(10, -k) ==> k + n < 0
  {
    if k + n >= 0 {
      MulLe(1, Part(10, k), Pow(2, z));
      PowMonotone(10, if k <= 0 then -k else 0, n);
      assert Part(10, -k) <= Pow(10, n);
    }
  }

  lemma StepWithin(k: int, z: nat, n: nat, P: int, Q: int)
    requires k + n <= 0 && n > 0 && 4 * Pow(2, z) < Pow(10, n) * P && 0 < P <= Q
    ensures 4 * (Pow(2, z) * Part(10, k)) < Part(10, -k) * Q
  {
    PowMonotone(10, n, -k);
    assert Part(10, k) == 1 && Part(10, -k) == Pow(10, -k);
    ProductLess(4 * Pow(2, z), Pow(10, n), P, Pow(10, -k), Q);
  }

  /** The first digits bound the number from below. */
  lemma AtMostUpperEnd(g: Target, v: int, q: nat)
    requires g.Accepts(v, q) && v >= Pow10(q) && g.S > 0
    ensures g.S <= g.b + g.mhi
  {
    MulLe(Pow10(q), v, g.S);
    CancelLt(g.S, g.b + g.mhi, Pow10(q));
  }

  lemma UnitsOfDigits(s: seq<int>, a: nat)
    requires Canonical(s)
    ensures DigitsValue(s) * Pow10(a) >= Pow10(|s| - 1)
  {
    DigitLimit.LeadingPower(s);
    MulLe(1, Pow10(a), DigitsValue(s));
  }

  lemma LeastSteps(k: int, closed: bool, s: seq<int>, k': int)
    requires ShortestFor(GapTarget(DOUBLE, Least(), k, true, closed), k, s, k') && |s| >= 17
    ensures var g := GapTarget(DOUBLE, Least(), k, true, closed);
            0 < g.S < g.mlo * Pow10(|s| - 1) && 0 < g.mlo <= g.mhi
  {
    var g, z: nat := GapTarget(DOUBLE, Least(), k, true, closed), -DOUBLE.lowest;
    HiddenBit(52);
    GapSizes(DOUBLE, Least(), k, true, closed);
    UnitsOfDigits(s, k' - k);
    AtMostUpperEnd(g, DigitsValue(s) * Pow10(k' - k), |s| - 1);
    PowersBetween(z, 308, 768);
    UpperEnd(k, closed);
    ExponentAtMost(k, z, 307);
    PowMonotone(10, 16, |s| - 1);
    StepWithin(k, z, 308, Pow(10, 16), Pow10(|s| - 1));
  }

  lemma UpperEnd(k: int, closed: bool)
    ensures Finite(DOUBLE, Least())
    ensures var g := GapTarget(DOUBLE, Least(), k, true, closed);
            g.b + g.mhi == (4 * 0x10_0000_0000_0000 + 2) * Part(10, -k) && g.mlo == Part(10, -k)
  {
    HiddenBit(52);
  }

  /** Though one margin is half of what it could be, no decimal with its last place is closer to the least number. */
  lemma LeastIsClosest(k: int, ties: bool, closed: bool, s: seq<int>, k': int)
    requires Finite(DOUBLE, Least()) && ShortestFor(GapTarget(DOUBLE, Least(), k, true, closed), k, s, k')
    requires Reads(DOUBLE, Least(), DigitsValue(s), k' + 1 - |s|)
    ensures Closest(DOUBLE, Least(), ties, DigitsValue(s), k' + 1 - |s|)
  {
    var x, c, a, q, t := Least(), DigitsValue(s), k' - k, |s| - 1, k' + 1 - |s|;
    NoneReadsLeast(-308);
    DigitsBounds(s);
    assert |s| >= 17;
    LeastSteps(k, closed, s, k');
    forall d | ReadsAs(DOUBLE, x, ties, d, t) ensures NoFarther(DOUBLE, x, c, d, t) {
      ChosenIsClosest(GapTarget(DOUBLE, x, k, true, closed), c * Pow10(a), d * Pow10(a), q);
      ClosestOnGrid(DOUBLE, x, k, true, closed, c, d, a, q, t);
    }
  }

  lemma TenTo17(n: nat)
    requires n == 17
    ensures DECIMAL < Pow10(n)
  {
    TenTo15(5);
    PowAdd(10, 15, 2);
    assert Pow(10, 2) == 100;
  }
}
