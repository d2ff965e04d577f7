/** The shortest decimal within the margins of a floating-point number is read back as that number. */
module ReadBack {
  import opened Arith
  import opened Decimal
  import opened Dtoa
  import opened Floats

  /** The decimal c * 10^t is nearest to x, alone or in a tie if ties count. */
  ghost predicate ReadsAs(f: Format, x: Float, ties: bool, c: int, t: int)
    requires Finite(f, x) && f.lowest <= 0
  {
    Nearest(f, c * Part(10, t) * Pow(2, -f.lowest), Part(10, -t), x, ties)
  }

  /** The decimal c * 10^t is read as x: ties go to the even number. */
  ghost predicate Reads(f: Format, x: Float, c: int, t: int)
    requires Finite(f, x) && f.lowest <= 0
  {
    ReadsAs(f, x, x.M % 2 == 0, c, t)
  }

  /**
   * The number x / 10^k with margins of half the gaps around it: half a unit above, and below a quarter of a unit or
   * half of one.
   */
  function GapTarget(f: Format, x: Float, k: int, quarter: bool, closed: bool): Target
    requires f.lowest <= 0 && x.q >= f.lowest
  {
    var u, T := Unit(f, x), Part(10, -k);
    Target(4 * (x.M * u) * T, 4 * (Pow(2, -f.lowest) * Part(10, k)), (if quarter then u else 2 * u) * T, 2 * u * T,
           closed)
  }

  /** The end points of a target in terms of multiples of the decimal's denominator. */
  lemma TargetEnds(n: int, m: int, T: int, P: int)
    ensures (4 * n * T + m * T) * P == (4 * n + m) * (T * P) && (4 * n * T - m * T) * P == (4 * n - m) * (T * P)
  {
    MulDistributes(4 * n, m, T);
    MulDistributes(4 * n, -m, T);
    MulAssoc(4 * n + m, T, P);
    MulAssoc(4 * n - m, T, P);
  }

  lemma FourTimes(v: int, Z: int, K: int)
    ensures v * (4 * (Z * K)) == 4 * (v * K * Z)
  {
    MulAssoc(v, K, Z);
  }

  /** The margins are half the gaps, and count themselves exactly if ties do. */
  ghost predicate TrueGaps(f: Format, x: Float, ties: bool, quarter: bool, closed: bool) {
    (quarter <==> HalfGap(f, x)) && (closed <==> ties)
  }

  /** Within the margins, in terms of the decimal's own fraction. */
  lemma AcceptsByEnds(f: Format, x: Float, k: int, quarter: bool, closed: bool, v: int, q: nat)
    requires Finite(f, x) && f.lowest <= 0
    ensures var g, n, u := GapTarget(f, x, k, quarter, closed), Steps(f, x), Unit(f, x);
            var A, B := v * Part(10, k) * Pow(2, -f.lowest), Part(10, -k) * Pow10(q);
            var low, high := (4 * n - (if quarter then u else 2 * u)) * B, (4 * n + 2 * u) * B;
            g.Accepts(v, q) <==> if closed then low <= 4 * A <= high else low < 4 * A < high
  {
    var n, u, T, P := Steps(f, x), Unit(f, x), Part(10, -k), Pow10(q);
    TargetEnds(n, 2 * u, T, P);
    TargetEnds(n, if quarter then u else 2 * u, T, P);
    FourTimes(v, Pow(2, -f.lowest), Part(10, k));
  }

  /** Within the margins of half the gaps is within half the gaps. */
  lemma AcceptsExactly(f: Format, x: Float, ties: bool, k: int, quarter: bool, closed: bool, v: int, q: nat)
    requires Finite(f, x) && f.lowest <= 0 && (HalfGap(f, x) ==> quarter) && (closed ==> ties)
    ensures var g := GapTarget(f, x, k, quarter, closed);
            var A, B := v * Part(10, k) * Pow(2, -f.lowest), Part(10, -k) * Pow10(q);
            && (g.Accepts(v, q) ==> Within(f, A, B, x, ties))
            && (TrueGaps(f, x, ties, quarter, closed) ==> (g.Accepts(v, q) <==> Within(f, A, B, x, ties)))
  {
    var n, u, T, P := Steps(f, x), Unit(f, x), Part(10, -k), Pow10(q);
    AcceptsByEnds(f, x, k, quarter, closed, v, q);
    if quarter { MulLe(4 * n - 2 * u, 4 * n - u, T * P); MulLt(4 * n - 2 * u, 4 * n - u, T * P); }
  }

  lemma PartIsPow(base: nat, e: int, m: nat)
    requires m == if e >= 0 then e else 0
    ensures Part(base, e) == Pow(base, m)
  {
  }

  lemma ThreePowers(a: nat, b: nat, c: nat)
    ensures Pow(10, a) * Pow(10, b) * Pow(10, c) == Pow(10, a + b + c)
  {
    PowAdd(10, a, b);
    PowAdd(10, a + b, c);
  }

  lemma Balance(a: nat, q: nat, k: int, t: int)
    requires t == a + k - q
    ensures Pow10(a) * Part(10, k) * Part(10, -t) == Part(10, t) * Part(10, -k) * Pow10(q)
  {
    var k1: nat, k0: nat := if k >= 0 then k else 0, if -k >= 0 then -k else 0;
    var t1: nat, t0: nat := if t >= 0 then t else 0, if -t >= 0 then -t else 0;
    PartIsPow(10, k, k1);
    PartIsPow(10, -k, k0);
    PartIsPow(10, t, t1);
    PartIsPow(10, -t, t0);
    ThreePowers(a, k1, t0);
    ThreePowers(t1, k0, q);
  }

  /** The decimal c * 10^t written as c * 10^a / 10^q * 10^k is the same number. */
  lemma SameFraction(c: int, a: nat, q: nat, k: int, t: int, Z: int)
    requires t == a + k - q
    ensures (c * Pow10(a) * Part(10, k) * Z) * Part(10, -t) == (c * Part(10, t) * Z) * (Part(10, -k) * Pow10(q))
  {
    Balance(a, q, k, t);
    Regroup(c, Pow10(a), Part(10, k), Z, Part(10, -t));
    RegroupOther(c, Part(10, t), Z, Part(10, -k), Pow10(q));
  }

  lemma Regroup(c: int, a: int, k: int, Z: int, t: int)
    ensures c * a * k * Z * t == c * Z * (a * k * t)
  {
    calc {
      c * a * k * Z * t;
      { MulAssoc(c, a, k); }
      c * (a * k) * Z * t;
      { SwapLast(c, a * k, Z); }
      c * Z * (a * k) * t;
      { MulAssoc(c * Z, a * k, t); }
      c * Z * (a * k * t);
    }
  }

  lemma RegroupOther(c: int, t: int, Z: int, k: int, q: int)
    ensures c * t * Z * (k * q) == c * Z * (t * k * q)
  {
    calc {
      c * t * Z * (k * q);
      { SwapLast(c, t, Z); }
      c * Z * t * (k * q);
      { MulAssoc(c * Z, t, k * q); MulAssoc(t, k, q); }
      c * Z * (t * k * q);
    }
  }

  /** Lying within half the gaps depends on the number only. */
  lemma WithinSame(f: Format, x: Float, ties: bool, A: int, B: int, A': int, B': int)
    requires Finite(f, x) && B > 0 && B' > 0 && A * B' == A' * B
    ensures Within(f, A, B, x, ties) <==> Within(f, A', B', x, ties)
  {
    var n, u := Steps(f, x), Unit(f, x);
    EndSame(4 * n - (if HalfGap(f, x) then u else 2 * u), A, B, A', B');
    EndSame(4 * n + 2 * u, A, B, A', B');
  }

  lemma EndSame(e: int, A: int, B: int, A': int, B': int)
    requires B > 0 && B' > 0 && A * B' == A' * B
    ensures (e * B <= 4 * A <==> e * B' <= 4 * A') && (4 * A <= e * B <==> 4 * A' <= e * B')
  {
    CancelLt(e * B, 4 * A, B');
    CancelLt(4 * A, e * B, B');
    CancelLt(e * B', 4 * A', B);
    CancelLt(4 * A', e * B', B);
    SwapLast(e, B, B');
    MulAssoc(4, A, B');
    MulAssoc(4, A', B);
  }

  /** A decimal is nearest to x if it lies within margins of half the gaps, and only then if these are the true gaps. */
  lemma ReadsExactly(f: Format, x: Float, ties: bool, k: int, quarter: bool, closed: bool, c: int, a: nat, q: nat,
                     t: int)
    requires Finite(f, x) && f.lowest <= 0 && x.M > 0 && t == a + k - q
    requires (HalfGap(f, x) ==> quarter) && (closed ==> ties)
    ensures var g := GapTarget(f, x, k, quarter, closed);
            && (g.Accepts(c * Pow10(a), q) ==> ReadsAs(f, x, ties, c, t))
            && (TrueGaps(f, x, ties, quarter, closed) ==> (g.Accepts(c * Pow10(a), q) <==> ReadsAs(f, x, ties, c, t)))
  {
    var Z := Pow(2, -f.lowest);
    AcceptsExactly(f, x, ties, k, quarter, closed, c * Pow10(a), q);
    SameFraction(c, a, q, k, t, Z);
    MulLe(1, Part(10, -k), Pow10(q));
    WithinSame(f, x, ties, c * Pow10(a) * Part(10, k) * Z, Part(10, -k) * Pow10(q), c * Part(10, t) * Z, Part(10, -t));
    NearestExactly(f, c * Part(10, t) * Z, Part(10, -t), x, ties);
  }

  /** What is nearest alone is nearest. */
  lemma NearestAlone(f: Format, x: Float, ties: bool, c: int, t: int)
    requires Finite(f, x) && f.lowest <= 0 && ReadsAs(f, x, false, c, t)
    ensures ReadsAs(f, x, ties, c, t)
  {
    var A, B := c * Part(10, t) * Pow(2, -f.lowest), Part(10, -t);
    forall y | Finite(f, y) && Steps(f, y) != Steps(f, x) ensures Nearer(A, B, Steps(f, x), Steps(f, y), ties) {
      assert Nearer(A, B, Steps(f, x), Steps(f, y), false);
    }
  }

  /** No decimal of fewer than n digits is nearest to x. */
  ghost predicate NoneReadsAs(f: Format, x: Float, ties: bool, n: nat)
    requires Finite(f, x) && f.lowest <= 0
  {
    forall c: nat, t: int, j: nat :: c < Pow10(j) && j < n ==> !ReadsAs(f, x, ties, c, t)
  }

  /** No decimal of fewer than n digits is read as x. */
  ghost predicate NoneReads(f: Format, x: Float, n: nat)
    requires Finite(f, x) && f.lowest <= 0
  {
    NoneReadsAs(f, x, x.M % 2 == 0, n)
  }

  lemma ZeroIsNotRead(f: Format, x: Float, ties: bool, t: int)
    requires Finite(f, x) && f.lowest <= 0 && x.M > 0
    ensures !ReadsAs(f, x, ties, 0, t)
  {
    NearestExactly(f, 0, Part(10, -t), x, ties);
    var n, u := Steps(f, x), Unit(f, x);
    MulLe(1, x.M, u);
    MulLe(1, 4 * n - (if HalfGap(f, x) then u else 2 * u), Part(10, -t));
  }

  /**
   * The shortest decimal within margins of no more than half the gaps, which count themselves only if ties do, is
   * nearest to x. If the margins are half the gaps and count themselves if ties do, no decimal of fewer digits is.
   */
  lemma ShortestReadsBack(f: Format, x: Float, ties: bool, k: int, quarter: bool, closed: bool, s: seq<int>, k': int)
    requires Finite(f, x) && f.lowest <= 0 && x.M > 0 && (HalfGap(f, x) ==> quarter) && (closed ==> ties)
    requires ShortestFor(GapTarget(f, x, k, quarter, closed), k, s, k')
    ensures ReadsAs(f, x, ties, DigitsValue(s), k' + 1 - |s|)
    ensures TrueGaps(f, x, ties, quarter, closed) ==> NoneReadsAs(f, x, ties, |s|)
  {
    ReadsExactly(f, x, ties, k, quarter, closed, DigitsValue(s), k' - k, |s| - 1, k' + 1 - |s|);
    if TrueGaps(f, x, ties, quarter, closed) { NoneOfShorter(f, x, ties, k, quarter, closed, |s|); }
  }

  lemma NoneOfShorter(f: Format, x: Float, ties: bool, k: int, quarter: bool, closed: bool, n: nat)
    requires Finite(f, x) && f.lowest <= 0 && x.M > 0 && TrueGaps(f, x, ties, quarter, closed)
    requires NoneShorter(GapTarget(f, x, k, quarter, closed), n)
    ensures NoneReadsAs(f, x, ties, n)
  {
    forall c: nat, t: int, j: nat | c < Pow10(j) && j < n ensures !ReadsAs(f, x, ties, c, t) {
      NotReadShorter(f, x, ties, k, quarter, closed, n, c, t, j);
    }
  }

  lemma NotReadShorter(f: Format, x: Float, ties: bool, k: int, quarter: bool, closed: bool, n: nat,
                       c: nat, t: int, j: nat)
    requires Finite(f, x) && f.lowest <= 0 && x.M > 0 && TrueGaps(f, x, ties, quarter, closed) && c < Pow10(j) && j < n
    requires NoneShorter(GapTarget(f, x, k, quarter, closed), n)
    ensures !ReadsAs(f, x, ties, c, t)
  {
    if c == 0 {
      ZeroIsNotRead(f, x, ties, t);
    } else {
      var a: nat, q: nat := if t >= k then t - k else 0, if t >= k then 0 else k - t;
      ReadsExactly(f, x, ties, k, quarter, closed, c, a, q, t);
      MulLe(1, c, Pow10(a));
      assert Shifted(c, a) == c * Pow10(a);
      assert SignificantDigits(c * Pow10(a), j);
    }
  }

  /** The decimal c * 10^t is no farther from x than d * 10^t. */
  ghost predicate NoFarther(f: Format, x: Float, c: int, d: int, t: int)
    requires x.q >= f.lowest && f.lowest <= 0
  {
    var Z, N := Pow(2, -f.lowest), Steps(f, x) * Part(10, -t);
    Distance(c * Part(10, t) * Z - N) <= Distance(d * Part(10, t) * Z - N)
  }

  predicate InRange(y: int, L: int, H: int, closed: bool) {
    if closed then L <= y <= H else L < y < H
  }

  /** Of two numbers V and W in a range around B, V is the closer if its neighbour towards B is not closer. */
  lemma CloserInRange(V: int, W: int, B: int, S: int, L: int, H: int, closed: bool)
    requires S > 0 && L < B < H && InRange(V, L, H, closed) && InRange(W, L, H, closed)
    requires W == V || W >= V + S || W <= V - S
    requires InRange(if B >= V then V + S else V - S, L, H, closed) ==> 2 * Distance(V - B) <= S
    ensures Distance(V - B) <= Distance(W - B)
  {
  }

  /** Of the multiples of 10^-q within the margins, one that is preferred to its neighbour is the closest. */
  lemma PreferredIsClosest(g: Target, v: int, w: int, q: nat)
    requires g.S > 0 && 0 < g.mlo <= g.mhi && g.Accepts(v, q) && g.Accepts(w, q) && g.PrefersNearer(v, q)
    requires !(v == 10 && q == 0 && g.b < 10 * g.S)
    ensures Distance(v * g.S - g.b * Pow10(q)) <= Distance(w * g.S - g.b * Pow10(q))
  {
    var P, B, S := Pow10(q), g.b * Pow10(q), g.S;
    MulLt(g.b - g.mlo, g.b, P);
    MulLt(g.b, g.b + g.mhi, P);
    StepFrom(v, w, S);
    NeighbourOf(v, S);
    CloserInRange(v * S, w * S, B, S, (g.b - g.mlo) * P, (g.b + g.mhi) * P, g.closed);
  }

  lemma NeighbourOf(v: int, S: int)
    ensures (v + 1) * S == v * S + S && (v - 1) * S == v * S - S
  {
    MulDistributes(v, 1, S);
    MulDistributes(v, -1, S);
  }

  /** Ten above a number below is closer than its other multiples. */
  lemma TenIsClosest(b: int, S: int, mhi: int, m: int)
    requires S > 0 && b < 10 * S <= b + mhi && 2 * mhi <= b
    ensures Distance(10 * S - b) <= Distance(m * 10 * S - b)
  {
    MulAssoc(m, 10, S);
    if m >= 1 { MulLe(1, m, 10 * S); } else { MulLe(m, 0, 10 * S); }
  }

  /** Multiples of S in order. */
  lemma StepFrom(v: int, w: int, S: int)
    requires S > 0
    ensures w >= v + 1 ==> w * S >= v * S + S
    ensures w <= v - 1 ==> w * S <= v * S - S
  {
    MulDistributes(v, 1, S);
    MulDistributes(v, -1, S);
    if w >= v + 1 { MulLe(v + 1, w, S); }
    if w <= v - 1 { MulLe(w, v - 1, S); }
  }

  lemma DifferenceTimes(A: int, A': int, n: int, X: int, Y: int)
    requires A * X == A' * Y
    ensures (A - n * Y) * X == (A' - n * X) * Y
  {
    MulDistributes(A, -(n * Y), X);
    MulDistributes(A', -(n * X), Y);
    SwapLast(n, Y, X);
  }

  /** The difference of a decimal and x, with and without the common power of ten. */
  lemma SameDifference(f: Format, x: Float, c: int, a: nat, q: nat, k: int, t: int)
    requires x.q >= f.lowest && f.lowest <= 0 && t == a + k - q
    ensures var Z, n := Pow(2, -f.lowest), Steps(f, x);
            (c * Pow10(a) * Part(10, k) * Z - n * (Part(10, -k) * Pow10(q))) * Part(10, -t) ==
            (c * Part(10, t) * Z - n * Part(10, -t)) * (Part(10, -k) * Pow10(q))
  {
    var Z := Pow(2, -f.lowest);
    SameFraction(c, a, q, k, t, Z);
    DifferenceTimes(c * Pow10(a) * Part(10, k) * Z, c * Part(10, t) * Z, Steps(f, x), Part(10, -t),
                    Part(10, -k) * Pow10(q));
  }

  lemma DistanceTimes(a: int, X: int, b: int, Y: int)
    requires X > 0 && Y > 0 && a * X == b * Y
    ensures Distance(a) * X == Distance(b) * Y
  {
    CancelLt(0, a, X);
    CancelLt(0, b, Y);
    if a < 0 { assert -a * X == -(a * X) && -b * Y == -(b * Y); }
  }

  lemma CompareDistances(a: int, a': int, b: int, b': int, X: int, Y: int)
    requires X > 0 && Y > 0 && a * X == b * Y && a' * X == b' * Y
    ensures Distance(a) <= Distance(a') <==> Distance(b) <= Distance(b')
  {
    DistanceTimes(a, X, b, Y);
    DistanceTimes(a', X, b', Y);
    CancelLt(Distance(a), Distance(a'), X);
    CancelLt(Distance(b), Distance(b'), Y);
  }

  /** The distance from the number of a target, in its own terms. */
  lemma TargetDifference(f: Format, x: Float, k: int, quarter: bool, closed: bool, v: int, q: nat)
    requires x.q >= f.lowest && f.lowest <= 0
    ensures var g := GapTarget(f, x, k, quarter, closed);
            v * g.S - g.b * Pow10(q) ==
            4 * (v * Part(10, k) * Pow(2, -f.lowest) - Steps(f, x) * (Part(10, -k) * Pow10(q)))
  {
    var n, T := Steps(f, x), Part(10, -k);
    FourTimes(v, Pow(2, -f.lowest), Part(10, k));
    MulAssoc(4, n, T);
    MulAssoc(4, n * T, Pow10(q));
    MulAssoc(n, T, Pow10(q));
  }

  lemma ClosestOnGrid(f: Format, x: Float, k: int, quarter: bool, closed: bool, c: int, d: int, a: nat, q: nat, t: int)
    requires x.q >= f.lowest && f.lowest <= 0 && t == a + k - q
    requires var g := GapTarget(f, x, k, quarter, closed);
             Distance(c * Pow10(a) * g.S - g.b * Pow10(q)) <= Distance(d * Pow10(a) * g.S - g.b * Pow10(q))
    ensures NoFarther(f, x, c, d, t)
  {
    var Z, n, Y := Pow(2, -f.lowest), Steps(f, x), Part(10, -k) * Pow10(q);
    TargetDifference(f, x, k, quarter, closed, c * Pow10(a), q);
    TargetDifference(f, x, k, quarter, closed, d * Pow10(a), q);
    SameDifference(f, x, c, a, q, k, t);
    SameDifference(f, x, d, a, q, k, t);
    MulLe(1, Part(10, -k), Pow10(q));
    CompareDistances(c * Pow10(a) * Part(10, k) * Z - n * Y, d * Pow10(a) * Part(10, k) * Z - n * Y,
                     c * Part(10, t) * Z - n * Part(10, -t), d * Part(10, t) * Z - n * Part(10, -t), Part(10, -t), Y);
  }

  /** c * 10^t is the closest to x of the decimals with its last place that are nearest to x. */
  ghost predicate Closest(f: Format, x: Float, ties: bool, c: int, t: int)
    requires Finite(f, x) && f.lowest <= 0
  {
    forall d :: ReadsAs(f, x, ties, d, t) ==> NoFarther(f, x, c, d, t)
  }

  /** The shortest decimal is the closest of its kind. */
  lemma ShortestIsClosest(f: Format, x: Float, ties: bool, k: int, quarter: bool, closed: bool, s: seq<int>, k': int)
    requires Finite(f, x) && f.lowest <= 0 && x.M > 0 && TrueGaps(f, x, ties, quarter, closed)
    requires ShortestFor(GapTarget(f, x, k, quarter, closed), k, s, k')
    ensures Closest(f, x, ties, DigitsValue(s), k' + 1 - |s|)
  {
    var t := k' + 1 - |s|;
    forall d | ReadsAs(f, x, ties, d, t) ensures NoFarther(f, x, DigitsValue(s), d, t) {
      ShortestIsCloser(f, x, ties, k, quarter, closed, s, k', d);
    }
  }

  lemma ShortestIsCloser(f: Format, x: Float, ties: bool, k: int, quarter: bool, closed: bool, s: seq<int>, k': int,
                         d: int)
    requires Finite(f, x) && f.lowest <= 0 && x.M > 0 && TrueGaps(f, x, ties, quarter, closed)
    requires ShortestFor(GapTarget(f, x, k, quarter, closed), k, s, k')
    requires ReadsAs(f, x, ties, d, k' + 1 - |s|)
    ensures NoFarther(f, x, DigitsValue(s), d, k' + 1 - |s|)
  {
    var g, c, a, q, t := GapTarget(f, x, k, quarter, closed), DigitsValue(s), k' - k, |s| - 1, k' + 1 - |s|;
    ReadsExactly(f, x, ties, k, quarter, closed, d, a, q, t);
    GapSizes(f, x, k, quarter, closed);
    if c * Pow10(a) == 10 && q == 0 && g.b < 10 * g.S {
      OneIsTen(s, a);
      TenIsClosest(g.b, g.S, g.mhi, d);
    } else {
      PreferredIsClosest(g, c * Pow10(a), d * Pow10(a), q);
    }
    ClosestOnGrid(f, x, k, quarter, closed, c, d, a, q, t);
  }

  lemma OneIsTen(s: seq<int>, a: nat)
    requires Canonical(s) && |s| == 1 && a <= 1 && DigitsValue(s) * Pow10(a) == 10
    ensures Pow10(a) == 10 && Pow10(0) == 1
  {
    LastDigit(s, 0);
    assert s[..1] == s && s[..0] == [];
    assert Pow10(0) == 1 && Pow10(1) == 10;
  }

  lemma GapSizes(f: Format, x: Float, k: int, quarter: bool, closed: bool)
    requires x.q >= f.lowest && f.lowest <= 0 && x.M > 0
    ensures var g := GapTarget(f, x, k, quarter, closed); g.S > 0 && 0 < g.mlo <= g.mhi && 2 * g.mhi <= g.b
  {
    var u, T := Unit(f, x), Part(10, -k);
    MulLe(1, Pow(2, -f.lowest), Part(10, k));
    MulLe(1, u, T);
    MulLe(1, x.M, u);
    MulLe(u, 2 * u, T);
    MulLe(4 * u, 4 * (x.M * u), T);
    assert (4 * u) * T == 2 * (2 * u * T) by { MulAssoc(2, 2 * u, T); }
  }

  /** The decimal c * 10^t lies halfway between x and the next number above or below, a unit away. */
  ghost predicate Halves(f: Format, x: Float, c: int, t: int)
    requires x.q >= f.lowest && f.lowest <= 0
  {
    var A, B, n, u := c * Part(10, t) * Pow(2, -f.lowest), Part(10, -t), Steps(f, x), Unit(f, x);
    4 * A == (4 * n - 2 * u) * B || 4 * A == (4 * n + 2 * u) * B
  }

  /** A decimal within half a unit of an odd number, or just half a unit away, is read as it unless it lies halfway. */
  lemma OddReadsExactly(f: Format, x: Float, k: int, c: int, a: nat, q: nat, t: int)
    requires Finite(f, x) && f.lowest <= 0 && x.M % 2 == 1 && !HalfGap(f, x) && t == a + k - q
    requires GapTarget(f, x, k, false, true).Accepts(c * Pow10(a), q)
    ensures Reads(f, x, c, t) <==> !Halves(f, x, c, t)
  {
    var Z, n, u := Pow(2, -f.lowest), Steps(f, x), Unit(f, x);
    var A, B, A', B' := c * Pow10(a) * Part(10, k) * Z, Part(10, -k) * Pow10(q), c * Part(10, t) * Z, Part(10, -t);
    AcceptsByEnds(f, x, k, false, true, c * Pow10(a), q);
    SameFraction(c, a, q, k, t, Z);
    MulLe(1, Part(10, -k), Pow10(q));
    EndSame(4 * n - 2 * u, A, B, A', B');
    EndSame(4 * n + 2 * u, A, B, A', B');
    NearestExactly(f, A', B', x, false);
  }
}
