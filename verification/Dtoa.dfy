/** What the digit generation of the double-to-string conversion promises, and what its steps keep. */
module Dtoa {
  import opened Arith
  import opened Decimal
  import opened Shortest

  /** A generated string: s and k denote s[0].s[1]s[2]... times 10^k. */
  ghost predicate Canonical(s: seq<int>) {
    s != [] && AllDigits(s) && s[0] >= 1 && s[|s| - 1] >= 1
  }

  /** Digits generated so far: none, or a string with a non-zero first digit. */
  ghost predicate Leading(s: seq<int>) {
    AllDigits(s) && (s == [] || s[0] >= 1)
  }

  /** d can follow the digits of s. */
  ghost predicate Follows(s: seq<int>, d: int) {
    0 <= d <= 9 && (s == [] ==> d >= 1)
  }

  /** The value of the string s with exponent k', as a multiple of 10^(k - n + 1). */
  ghost function InUnits(s: seq<int>, k': int, k: int, n: int): int
    requires |s| <= n + (k' - k)
  {
    DigitsValue(s) * Pow10(k' - k + n - |s|)
  }

  /**
   * The string s with exponent k' is accepted by a target scaled by 10^k, nothing shorter is, and
   * it is the nearer of the two candidates of its length.
   */
  ghost predicate ShortestFor(g: Target, k: int, s: seq<int>, k': int) {
    && Canonical(s) && k <= k' <= k + 1
    && g.Accepts(InUnits(s, k', k, |s|), |s| - 1)
    && g.PrefersNearer(InUnits(s, k', k, |s|), |s| - 1)
    && NoneShorter(g, |s|)
  }

  /** The string s with exponent k' is b / S * 10^k correctly rounded to n digits. */
  ghost predicate RoundedTo(b: int, S: int, k: int, n: int, s: seq<int>, k': int)
    requires n >= 1
  {
    && Canonical(s) && k <= k' <= k + 1 && |s| <= n
    && RoundsTo(b * Pow10(n - 1), S, InUnits(s, k', k, n))
  }

  lemma LastDigit(s: seq<int>, i: nat)
    requires i < |s|
    ensures DigitsValue(s[..i + 1]) == 10 * DigitsValue(s[..i]) + s[i]
  {
    assert s[..i + 1] == s[..i] + [s[i]];
    DigitsSnoc(s[..i], s[i]);
  }

  lemma TenTimes(a: int, e: nat)
    ensures a * Pow10(e + 1) == 10 * a * Pow10(e)
  {
    assert Pow10(e + 1) == 10 * Pow10(e);
    MulAssoc(a, 10, Pow10(e));
  }

  /** A carry that has reached position i amounts to adding one to the whole string. */
  ghost predicate CarryInto(s: seq<int>, i: nat)
    requires i <= |s|
  {
    (DigitsValue(s[..i]) + 1) * Pow10(|s| - i) == DigitsValue(s) + 1
  }

  lemma CarryOverNine(s: seq<int>, i: nat)
    requires i < |s| && s[i] == 9 && CarryInto(s, i + 1)
    ensures CarryInto(s, i)
  {
    LastDigit(s, i);
    TenTimes(DigitsValue(s[..i]) + 1, |s| - 1 - i);
  }

  lemma CarryStops(s: seq<int>, i: nat, k: int)
    requires i < |s| && CarryInto(s, i + 1)
    ensures InUnits(s[..i] + [s[i] + 1], k, k, |s|) == DigitsValue(s) + 1
  {
    var t := s[..i] + [s[i] + 1];
    LastDigit(s, i);
    DigitsSnoc(s[..i], s[i] + 1);
    UnitsAtSameExponent(t, k, |s|, |s| - (i + 1));
  }

  lemma UnitsAtSameExponent(t: seq<int>, k: int, n: int, e: nat)
    requires t != [] && e == n - |t|
    ensures InUnits(t, k, k, n) == DigitsValue(t) * Pow10(e)
  {
  }

  lemma CarryLeaves(s: seq<int>, k: int)
    requires s != [] && CarryInto(s, 0)
    ensures InUnits([1], k + 1, k, |s|) == DigitsValue(s) + 1
  {
    LastDigit([1], 0);
  }

  /** Propagate a carry into the last digit; trailing nines disappear. */
  method RoundOff(s: seq<int>, k: int) returns (s': seq<int>, k': int)
    requires s != [] && Leading(s)
    ensures Canonical(s') && |s'| <= |s| && k <= k' <= k + 1
    ensures InUnits(s', k', k, |s|) == DigitsValue(s) + 1
  {
    var i := |s|;
    assert s[..i] == s;
    while true
      invariant 0 < i <= |s| && CarryInto(s, i)
      decreases i
    {
      i := i - 1;
      if s[i] != 9 { break; }
      CarryOverNine(s, i);
      if i == 0 {
        CarryLeaves(s, k);
        return [1], k + 1;
      }
    }
    s', k' := s[..i] + [s[i] + 1], k;
    CarryStops(s, i, k);
  }

  /** Drop the trailing zeros of a string with a non-zero first digit. */
  method StripZeros(s: seq<int>) returns (s': seq<int>)
    requires s != [] && Leading(s)
    ensures Canonical(s') && |s'| <= |s|
    ensures DigitsValue(s) == DigitsValue(s') * Pow10(|s| - |s'|)
  {
    var i := |s| - 1;
    assert s[..i + 1] == s;
    while s[i] == 0
      invariant 0 <= i < |s|
      invariant DigitsValue(s) == DigitsValue(s[..i + 1]) * Pow10(|s| - 1 - i)
      decreases i
    {
      LastDigit(s, i);
      TenTimes(DigitsValue(s[..i]), |s| - 1 - i);
      i := i - 1;
    }
    s' := s[..i + 1];
  }

  /** Parity of a digit string is the parity of its last digit. */
  lemma LastDigitParity(s: seq<int>)
    requires s != []
    ensures DigitsValue(s) % 2 == s[|s| - 1] % 2
  {
    assert s == s[..|s| - 1] + [s[|s| - 1]];
  }

  lemma NearestByRemainder(n: int, S: int, D: int, r: int)
    requires n == D * S + r && 0 <= r < S
    ensures 2 * r < S || (2 * r == S && D % 2 == 0) ==> RoundsTo(n, S, D)
    ensures 2 * r > S || (2 * r == S && D % 2 == 1) ==> RoundsTo(n, S, D + 1)
  {
    MulDistributes(D, 1, S);
  }

  /** The digits of s are the leading digits of b0 / S, and b is what is left, times 10 S. */
  ghost predicate Generated(b0: int, S: int, s: seq<int>, b: int) {
    && Leading(s) && 0 <= b < 10 * S && (s == [] ==> b == b0)
    && b0 * Pow10(|s|) == 10 * DigitsValue(s) * S + b
  }

  lemma DigitBounds(b: int, S: int)
    requires S > 0 && 0 <= b < 10 * S
    ensures b == b / S * S + b % S && 0 <= b / S <= 9 && (b >= S ==> b / S >= 1)
  {
    var q := b / S;
    assert b == S * q + b % S;
    if q >= 10 { MulLe(10, q, S); }
    if q < 0 { MulLe(q, -1, S); }
    if q <= 0 { MulLe(q, 0, S); }
  }

  lemma AppendDigit(b0: int, S: int, s: seq<int>, b: int)
    requires S > 0 && b0 >= S && Generated(b0, S, s, b)
    ensures Follows(s, b / S)
    ensures b0 * Pow10(|s|) == (10 * DigitsValue(s) + b / S) * S + b % S
  {
    DigitBounds(b, S);
    MulDistributes(10 * DigitsValue(s), b / S, S);
  }

  lemma NextPosition(b0: int, S: int, s: seq<int>, r: int)
    requires s != [] && Leading(s) && 0 <= r < S
    requires b0 * Pow10(|s| - 1) == DigitsValue(s) * S + r
    ensures Generated(b0, S, s, 10 * r)
  {
    TenTimes(b0, |s| - 1);
    MulAssoc(10, b0, Pow10(|s| - 1));
    MulAssoc(10, DigitsValue(s), S);
  }

  /** An accepted string that nothing shorter can replace does not end in zero. */
  lemma ShortestEndsNonZero(g: Target, s: seq<int>)
    requires s != [] && Leading(s)
    requires g.Accepts(DigitsValue(s), |s| - 1) && NoneShorter(g, |s|)
    ensures Canonical(s)
  {
    var n := |s| - 1;
    LeadingDigit(s);
    if s[n] == 0 {
      LastDigit(s, n);
      assert s[..n + 1] == s;
      DigitsBounds(s[..n]);
      assert Pow10(1) == 10;
      assert Shifted(DigitsValue(s[..n]), 1) == DigitsValue(s);
      assert SignificantDigits(DigitsValue(s), n);
    }
  }

  /** What the stopping tests at one position decide: go on, or stop with the digit or its successor. */
  datatype Choice = Continue | Stop(up: bool)

  /**
   * Emit the digit chosen at a position where the loop stops. Only a nine at the first position is
   * ever rounded up, so the carry leaves a single digit one.
   */
  method Emit(ghost g: Target, k: int, s: seq<int>, dig: int, up: bool) returns (s': seq<int>, k': int)
    requires Leading(s) && Follows(s, dig) && NoneShorter(g, |s| + 1)
    requires up && dig == 9 ==> s == []
    requires g.Accepts(10 * DigitsValue(s) + dig + (if up then 1 else 0), |s|)
    ensures Canonical(s') && |s'| == |s| + 1 && k <= k' <= k + 1
    ensures InUnits(s', k', k, |s'|) == 10 * DigitsValue(s) + dig + if up then 1 else 0
  {
    if up && dig == 9 {
      DigitsSnoc(s, 9);
      s', k' := RoundOff(s + [9], k);
      return;
    }
    var d := if up then dig + 1 else dig;
    DigitsSnoc(s, d);
    ShortestEndsNonZero(g, s + [d]);
    return s + [d], k;
  }

  /** A stop is justified by the margins. */
  lemma StopIsAccepted(g: Target, D: int, r: int, e: nat, up: bool)
    requires g.Valid() && 0 <= r < g.S && g.b * Pow10(e) == D * g.S + r
    requires up ==> if g.closed then g.S <= r + g.mhi * Pow10(e) else g.S < r + g.mhi * Pow10(e)
    requires !up ==> if g.closed then r <= g.mlo * Pow10(e) else r < g.mlo * Pow10(e)
    ensures g.Accepts(D + (if up then 1 else 0), e)
  {
    AcceptsByRemainder(g, D, r, e);
    MulLe(1, g.mlo, Pow10(e));
    MulLe(1, g.mhi, Pow10(e));
  }

  /** The state of the left-to-right loop before a position: the margins have grown with the digits. */
  ghost predicate Scanning(g: Target, s: seq<int>, b: int, mlo: int, mhi: int) {
    && g.Valid() && Generated(g.b, g.S, s, b) && NoneShorter(g, |s| + 1)
    && mlo == g.mlo * Pow10(|s|) && mhi == g.mhi * Pow10(|s|) && 0 < mlo && 0 < mhi
    && (s != [] ==> if g.closed then b + mhi < 10 * g.S else b + mhi <= 10 * g.S)
  }

  lemma ScanningStarts(g: Target)
    requires g.Valid()
    ensures Scanning(g, [], g.b, g.mlo, g.mhi)
  {
    NoneOfNoDigits(g);
  }

  lemma ScanningDigit(g: Target, s: seq<int>, b: int, mlo: int, mhi: int)
    requires Scanning(g, s, b, mlo, mhi)
    ensures Follows(s, b / g.S)
    ensures g.b * Pow10(|s|) == (10 * DigitsValue(s) + b / g.S) * g.S + b % g.S
  {
    AppendDigit(g.b, g.S, s, b);
  }

  /** A nine is rounded up only at the first position: later the successor would have been taken earlier. */
  lemma NineOnlyAtFirst(g: Target, s: seq<int>, b: int, mlo: int, mhi: int)
    requires Scanning(g, s, b, mlo, mhi) && b / g.S == 9
    requires var r := b % g.S; if g.closed then g.S <= r + mhi else g.S < r + mhi
    ensures s == []
  {
    DigitBounds(b, g.S);
  }

  /** The stopping tests justify the digit chosen, or its successor. */
  ghost predicate Justified(closed: bool, S: int, mlo: int, mhi: int, dig: int, r: int, up: bool) {
    && (up ==> if closed then S <= r + mhi else S < r + mhi)
    && (!up ==> if closed then r <= mlo else r < mlo)
    && (r < mlo && S < r + mhi ==> (up <==> 2 * r > S || (2 * r == S && dig % 2 == 1)))
    && (closed && mlo <= mhi && r <= mlo && S <= r + mhi ==> if up then 2 * r >= S || dig == 9 else 2 * r <= S)
  }

  /** A justified choice is an accepted number and the nearer of two candidates. */
  lemma JustifiedIsAccepted(g: Target, s: seq<int>, b: int, mlo: int, mhi: int, up: bool)
    requires Scanning(g, s, b, mlo, mhi) && Justified(g.closed, g.S, mlo, mhi, b / g.S, b % g.S, up)
    ensures g.Accepts(10 * DigitsValue(s) + b / g.S + (if up then 1 else 0), |s|)
  {
    ScanningDigit(g, s, b, mlo, mhi);
    StopIsAccepted(g, 10 * DigitsValue(s) + b / g.S, b % g.S, |s|, up);
  }

  lemma JustifiedIsNearer(g: Target, s: seq<int>, b: int, mlo: int, mhi: int, up: bool)
    requires Scanning(g, s, b, mlo, mhi) && Justified(g.closed, g.S, mlo, mhi, b / g.S, b % g.S, up)
    ensures g.PrefersNearer(10 * DigitsValue(s) + b / g.S + (if up then 1 else 0), |s|)
  {
    ScanningDigit(g, s, b, mlo, mhi);
    var dig, r := b / g.S, b % g.S;
    TensAreEven(DigitsValue(s), dig);
    if up && dig == 9 { NineOnlyAtFirst(g, s, b, mlo, mhi); }
    CancelLt(g.mhi, g.mlo, Pow10(|s|));
    NearerByRemainder(g, 10 * DigitsValue(s) + dig, r, |s|, up);
  }

  lemma TensAreEven(x: int, d: int)
    ensures (10 * x + d) % 2 == d % 2
  {}

  /** The string of a stop at the digit dig of the remainder b. */
  method StopHere(ghost g: Target, k: int, s: seq<int>, ghost b: int, ghost mlo: int, ghost mhi: int, dig: int,
                  up: bool)
      returns (s': seq<int>, k': int)
    requires Scanning(g, s, b, mlo, mhi) && dig == b / g.S
    requires Justified(g.closed, g.S, mlo, mhi, dig, b % g.S, up)
    ensures ShortestFor(g, k, s', k') && |s'| == |s| + 1
  {
    ScanningDigit(g, s, b, mlo, mhi);
    if up && dig == 9 { NineOnlyAtFirst(g, s, b, mlo, mhi); }
    JustifiedIsAccepted(g, s, b, mlo, mhi, up);
    JustifiedIsNearer(g, s, b, mlo, mhi, up);
    s', k' := Emit(g, k, s, dig, up);
  }

  lemma ScanningContinues(g: Target, s: seq<int>, b: int, mlo: int, mhi: int)
    requires Scanning(g, s, b, mlo, mhi)
    requires var r := b % g.S; if g.closed then mlo < r && r + mhi < g.S else mlo <= r && r + mhi <= g.S
    ensures Scanning(g, s + [b / g.S], 10 * (b % g.S), 10 * mlo, 10 * mhi)
    ensures g.b * Pow10(|s|) == DigitsValue(s + [b / g.S]) * g.S + b % g.S
  {
    GeneratesNext(g.b, g.S, s, b);
    MarginGrows(g.mlo, |s|);
    MarginGrows(g.mhi, |s|);
    assert NoneShorter(g, |s| + 2) by { NoneAtThisPosition(g, s, b, mlo, mhi); }
  }

  lemma GeneratesNext(b0: int, S: int, s: seq<int>, b: int)
    requires S > 0 && b0 >= S && Generated(b0, S, s, b)
    ensures Generated(b0, S, s + [b / S], 10 * (b % S))
    ensures b0 * Pow10(|s|) == DigitsValue(s + [b / S]) * S + b % S
  {
    AppendDigit(b0, S, s, b);
    DigitsSnoc(s, b / S);
    NextPosition(b0, S, s + [b / S], b % S);
  }

  lemma NoneAtThisPosition(g: Target, s: seq<int>, b: int, mlo: int, mhi: int)
    requires Scanning(g, s, b, mlo, mhi)
    requires var r := b % g.S; if g.closed then mlo < r && r + mhi < g.S else mlo <= r && r + mhi <= g.S
    ensures NoneShorter(g, |s| + 2)
  {
    ScanningDigit(g, s, b, mlo, mhi);
    UndecidedMeansNoneShorter(g, 10 * DigitsValue(s) + b / g.S, b % g.S, |s|);
  }

  lemma MarginGrows(m: int, e: nat)
    requires m > 0
    ensures 10 * (m * Pow10(e)) == m * Pow10(e + 1) > 0
  {
    TenTimes(m, e);
    MulAssoc(10, m, Pow10(e));
    MulLe(1, m, Pow10(e + 1));
  }

  /** An accepted string is a decimal of so many significant digits. */
  lemma ShortestIsAccepted(g: Target, k: int, s: seq<int>, k': int, n: nat)
    requires ShortestFor(g, k, s, k') && |s| <= n
    ensures !NoneShorter(g, n + 1)
  {
    var c, t := DigitsValue(s), k' - k;
    DigitsBounds(s);
    LeadingDigit(s);
    assert Shifted(c, t) == InUnits(s, k', k, |s|);
    assert SignificantDigits(Shifted(c, t), |s|);
    MulLe(1, c, Pow10(t));
  }

  /**
   * The shortest decimal within the margins, unless there is a digit limit and no decimal of so many digits lies within
   * them: then rounded to the limit.
   */
  ghost predicate ShortestWithin(g: Target, k: int, ilim: int, s: seq<int>, k': int) {
    if ilim >= 1 && NoneShorter(g, ilim + 1) then RoundedTo(g.b, g.S, k, ilim, s, k')
    else ShortestFor(g, k, s, k') && (ilim >= 1 ==> |s| <= ilim)
  }

  /** A stop before the limit is the shortest decimal. */
  method StopWithin(ghost g: Target, k: int, s: seq<int>, ghost b: int, ghost mlo: int, ghost mhi: int, dig: int,
                    up: bool, ghost ilim: int) returns (s': seq<int>, k': int)
    requires Scanning(g, s, b, mlo, mhi) && dig == b / g.S && (ilim >= 1 ==> |s| < ilim)
    requires Justified(g.closed, g.S, mlo, mhi, dig, b % g.S, up)
    ensures ShortestWithin(g, k, ilim, s', k')
  {
    s', k' := StopHere(g, k, s, b, mlo, mhi, dig, up);
    if ilim >= 1 { ShortestIsAccepted(g, k, s', k', ilim); }
  }

  /**
   * The string s with exponent k' is b / S * 10^k rounded at the digit position of weight
   * 10^(k - n + 1); n may be zero or negative, and the empty string denotes zero.
   */
  ghost predicate RoundedAt(b: int, S: int, k: int, n: int, s: seq<int>, k': int) {
    if n >= 1 then RoundedTo(b, S, k, n, s, k')
    else (s == [] || (s == [1] && n == 0 && k' == k + 1)) && RoundsTo(b, S * Pow10(1 - n), |s|)
  }

  /** With margins of at most half a unit of the n-th digit, the shortest decimal is the correctly rounded one. */
  lemma NarrowMargins(g: Target, k: int, s: seq<int>, k': int, n: int)
    requires g.Valid() && !g.closed && ShortestFor(g, k, s, k') && 1 <= |s| <= n
    requires 2 * g.mlo * Pow10(n - 1) <= g.S && 2 * g.mhi * Pow10(n - 1) <= g.S
    ensures RoundedTo(g.b, g.S, k, n, s, k')
  {
    var v, q := InUnits(s, k', k, |s|), |s| - 1;
    var T, Q, P := Pow10(n - |s|), Pow10(q), Pow10(n - 1);
    PowAdd(10, q, n - |s|);
    PowAdd(10, k' - k, n - |s|);
    MulAssoc(DigitsValue(s), Pow10(k' - k), T);
    assert InUnits(s, k', k, n) == v * T;
    WithinHalf(g.b, g.S, g.mlo, g.mhi, v, Q, T, P);
  }

  lemma WithinHalf(b: int, S: int, mlo: int, mhi: int, v: int, Q: int, T: int, P: int)
    requires T > 0 && P == Q * T && (b - mlo) * Q < v * S < (b + mhi) * Q
    requires 2 * mlo * P <= S && 2 * mhi * P <= S
    ensures RoundsTo(b * P, S, v * T)
  {
    MulLt((b - mlo) * Q, v * S, T);
    MulLt(v * S, (b + mhi) * Q, T);
    MulAssoc(b - mlo, Q, T);
    MulAssoc(b + mhi, Q, T);
    MulDistributes(b, -mlo, P);
    MulDistributes(b, mhi, P);
    SwapLast(v, S, T);
    MulAssoc(2, mlo, P);
    MulAssoc(2, mhi, P);
  }

  lemma NothingToRound(b: int, S: int, n: int)
    requires 0 < S <= b < 10 * S && n < 0
    ensures RoundsTo(b, S * Pow10(1 - n), 0)
  {
    PowMonotone(10, 2, 1 - n);
    assert Pow10(2) == 100 by { assert Pow(10, 1) == 10; }
    MulLe(100, Pow10(1 - n), S);
  }

  /** The target of a mode: margins m below and m, or 2 m for a power of two, above; closed only in mode 0. */
  function TargetOf(mode: int, even: bool, powerOfTwo: bool, b: int, S: int, m: int): Target {
    Target(b, S, m, if powerOfTwo && mode < 2 then 2 * m else m, mode == 0 && even)
  }

  /**
   * What each mode promises of b / S * 10^k, with margins m and n digits. Modes 0 and 1 give the shortest decimal
   * within the margins; modes 2 and 3 round correctly. Modes 4 and 5 give the shortest decimal if one of at most n
   * digits lies within the margins, and else round; with margins of at most half a unit of the last digit they round
   * correctly either way.
   */
  ghost predicate Promised(mode: int, ndigits: int, even: bool, powerOfTwo: bool, k: int, b: int, S: int, m: int,
                           n: int, s: seq<int>, decpt: int) {
    var g := TargetOf(mode, even, powerOfTwo, b, S, m);
    && (mode <= 1 ==> ShortestFor(g, k, s, decpt - 1))
    && (mode == 2 || mode == 3 ==> RoundedAt(b, S, k, n, s, decpt - 1))
    && (mode >= 4 && (n <= 0 || NoneShorter(g, n + 1)) ==> RoundedAt(b, S, k, n, s, decpt - 1))
    && (mode >= 4 && n >= 1 && !NoneShorter(g, n + 1) ==> ShortestFor(g, k, s, decpt - 1) && |s| <= n)
    && (mode >= 4 && (n <= 0 || 2 * m * Pow10(n - 1) <= S) ==> RoundedAt(b, S, k, n, s, decpt - 1))
    && (s == [] ==> decpt == -ndigits)
  }

  /** What is promised with an exponent estimate that may be one too high, which a quotient below one shows. */
  ghost predicate Estimated(mode: int, ndigits: int, even: bool, powerOfTwo: bool, k: int, b: int, S: int, m: int,
                            ilim: int, ilim1: int, s: seq<int>, decpt: int) {
    if b < S then Promised(mode, ndigits, even, powerOfTwo, k - 1, 10 * b, S, 10 * m, ilim1, s, decpt)
    else Promised(mode, ndigits, even, powerOfTwo, k, b, S, m, ilim, s, decpt)
  }

  lemma WithinIsPromised(mode: int, ndigits: int, even: bool, powerOfTwo: bool, k: int, b: int, S: int, m: int,
                         ilim: int, s: seq<int>, k': int)
    requires mode <= 1 || (4 <= mode <= 5 && ilim >= 1)
    requires 0 < S <= b < 10 * S && 0 < m && (mode <= 1 ==> ilim < 0)
    requires ShortestWithin(TargetOf(mode, even, powerOfTwo, b, S, m), k, ilim, s, k')
    ensures Promised(mode, ndigits, even, powerOfTwo, k, b, S, m, ilim, s, k' + 1)
  {
    var g := TargetOf(mode, even, powerOfTwo, b, S, m);
    if mode >= 4 && 2 * m * Pow10(ilim - 1) <= S && !NoneShorter(g, ilim + 1) {
      NarrowMargins(g, k, s, k', ilim);
    }
  }

  lemma NoneOfNoDigits(g: Target)
    ensures NoneShorter(g, 1)
  {
    forall m: nat ensures SignificantDigits(m, 0) ==> m == 0 {
      if SignificantDigits(m, 0) {
        var c: nat, t: nat :| c < Pow10(0) && Shifted(c, t) == m;
        assert c == 0;
      }
    }
  }
}
