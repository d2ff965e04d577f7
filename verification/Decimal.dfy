/** Decimal digit strings, correct rounding, and acceptance intervals around a scaled number. */
module Decimal {
  import opened Arith

  function Pow10(e: nat): (p: nat)
    ensures p > 0
  {
    Pow(10, e)
  }

  ghost predicate AllDigits(s: seq<int>) {
    forall i :: 0 <= i < |s| ==> 0 <= s[i] <= 9
  }

  /** The integer a digit string denotes, most significant digit first. */
  ghost function DigitsValue(s: seq<int>): int {
    if s == [] then 0 else 10 * DigitsValue(s[..|s| - 1]) + s[|s| - 1]
  }

  lemma DigitsSnoc(s: seq<int>, d: int)
    ensures DigitsValue(s + [d]) == 10 * DigitsValue(s) + d
  {
    assert (s + [d])[..|s|] == s;
  }

  lemma {:induction false} DigitsBounds(s: seq<int>)
    requires AllDigits(s)
    ensures 0 <= DigitsValue(s) < Pow10(|s|)
  {
    if s == [] {
    } else {
      DigitsBounds(s[..|s| - 1]);
    }
  }

  lemma {:induction false} LeadingDigit(s: seq<int>)
    requires s != [] && AllDigits(s) && s[0] >= 1
    ensures DigitsValue(s) >= 1
  {
    if |s| > 1 {
      LeadingDigit(s[..|s| - 1]);
    } else {
      assert s == [] + [s[0]];
      DigitsSnoc([], s[0]);
    }
  }

  /** x is n / d rounded to the nearest integer, a tie going to the even one. */
  ghost predicate RoundsTo(n: int, d: int, x: int) {
    && -d <= 2 * (x * d - n) <= d
    && (2 * (x * d - n) == d || 2 * (x * d - n) == -d ==> x % 2 == 0)
  }

  /** Rounding determines its result. */
  lemma RoundsToUnique(n: int, d: int, x: int, y: int)
    requires d > 0 && RoundsTo(n, d, x) && RoundsTo(n, d, y)
    ensures x == y
  {
    var a, b := x * d - n, y * d - n;
    assert (x - y) * d == a - b by { MulDistributes(x, -y, d); }
    assert (y - x) * d == b - a by { MulDistributes(y, -x, d); }
    if x > y + 1 {
      MulLe(2, x - y, d);
    } else if y > x + 1 {
      MulLe(2, y - x, d);
    }
  }

  /**
   * A number b / S in [1, 10) with the margins mlo / S below and mhi / S above; a closed target
   * also accepts the end points.
   */
  datatype Target = Target(b: int, S: int, mlo: int, mhi: int, closed: bool) {
    ghost predicate Valid() {
      0 < S <= b < 10 * S && mlo > 0 && mhi > 0
    }

    /** m / 10^q lies strictly within the margins. */
    ghost predicate Inside(m: int, q: nat) {
      (b - mlo) * Pow10(q) < m * S < (b + mhi) * Pow10(q)
    }

    /** m / 10^q lies within the margins; a closed target includes the end points. */
    ghost predicate Accepts(m: int, q: nat) {
      if closed then (b - mlo) * Pow10(q) <= m * S <= (b + mhi) * Pow10(q) else Inside(m, q)
    }

    /**
     * Of the two multiples of 10^-q around the number, if both are within the margins, v is not farther than the
     * other, and the even one in a tie strictly within. A nine that ends at the upper margin is rounded up to ten.
     */
    ghost predicate PrefersNearer(v: int, q: nat) {
      var r := b * Pow10(q) - v * S;
      var other := if r >= 0 then v + 1 else v - 1;
      var distance := if r >= 0 then r else -r;
      && (Inside(v, q) && Inside(other, q) ==> 2 * distance < S || (2 * distance == S && v % 2 == 0))
      && (mlo <= mhi && Accepts(v, q) && Accepts(other, q) ==> 2 * distance <= S || (v == 10 && q == 0 && b < 10 * S))
    }
  }

  function Shifted(c: int, t: nat): int {
    c * Pow10(t)
  }

  /** m can be written with at most n significant digits. */
  ghost predicate SignificantDigits(m: int, n: nat) {
    exists c: nat, t: nat :: c < Pow10(n) && Shifted(c, t) == m
  }

  /** No positive decimal number with fewer than n significant digits is accepted. */
  ghost predicate NoneShorter(g: Target, n: nat) {
    forall m: nat, q: nat, j: nat :: m > 0 && j < n && SignificantDigits(m, j) ==> !g.Accepts(m, q)
  }

  lemma CancelLt(a: int, b: int, p: int)
    requires p > 0
    ensures a < b <==> a * p < b * p
    ensures a <= b <==> a * p <= b * p
  {
    if a < b { MulLt(a, b, p); } else { MulLe(b, a, p); }
    if b < a { MulLt(b, a, p); } else { MulLe(a, b, p); }
  }

  /** Acceptance depends only on the number m / 10^q. */
  lemma AcceptsSameNumber(g: Target, m: int, q: nat, m': int, q': nat)
    requires m * Pow10(q') == m' * Pow10(q)
    ensures g.Accepts(m, q) <==> g.Accepts(m', q')
  {
    var P, P' := Pow10(q), Pow10(q');
    var lo, hi := g.b - g.mlo, g.b + g.mhi;
    assert m * g.S * P' == m' * g.S * P by {
      calc {
        m * g.S * P';
        { MulAssoc(g.S, m, P'); }
        g.S * (m * P');
        { MulAssoc(g.S, m', P); }
        m' * g.S * P;
      }
    }
    CancelLt(lo * P, m * g.S, P');
    CancelLt(m * g.S, hi * P, P');
    CancelLt(lo * P', m' * g.S, P);
    CancelLt(m' * g.S, hi * P', P);
    SwapLast(lo, P, P');
    SwapLast(hi, P, P');
  }
}
