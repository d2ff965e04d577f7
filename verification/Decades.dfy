/** Every floating-point number lies in one decade: between a power of ten and the next. */
module Decades {
  import opened Arith
  import opened Floats
  import opened Ratios

  /** A ratio is at least c exactly if an equal one is. */
  lemma SameAtLeast(b: int, S: int, n: int, d: int, c: int)
    requires Same(b, S, n, d)
    ensures b >= c * S <==> n >= c * d
  {
    MulAssoc(c, S, d);
    MulAssoc(c, d, S);
    SwapLast(c, S, d);
    if b >= c * S { MulLe(c * S, b, d); } else { MulLt(b, c * S, d); }
    if n >= c * d { MulLe(c * d, n, S); } else { MulLt(n, c * d, S); }
  }

  /** The quotient for one exponent less is ten times as large. */
  lemma OneLess(f: Format, x: Float, k: int, c: int)
    requires x.q >= f.lowest && f.lowest <= 0
    ensures Numerator(f, x, k) >= c * Denominator(f, k) <==> Numerator(f, x, k - 1) >= 10 * c * Denominator(f, k - 1)
  {
    var n, d := Numerator(f, x, k), Denominator(f, k);
    NextExponent(f, x, k);
    SameAtLeast(10 * n, d, Numerator(f, x, k - 1), Denominator(f, k - 1), 10 * c);
    MulAssoc(10, c, d);
  }

  lemma {:induction false} PowAbove(n: nat)
    ensures Pow(10, n) > n
  {
    if n == 0 {
    } else {
      PowAbove(n - 1);
    }
  }

  lemma Ends(f: Format, x: Float)
    requires x.q >= f.lowest && f.lowest <= 0 && x.M > 0
    ensures Numerator(f, x, Steps(f, x)) < Denominator(f, Steps(f, x))
    ensures var P: int := Pow(2, -f.lowest); Numerator(f, x, -P) >= Denominator(f, -P)
  {
    var s, P: int := Steps(f, x), Pow(2, -f.lowest);
    PowAbove(s);
    PowAbove(P);
    MulLe(1, P, Pow(10, s));
    MulLe(1, s, Pow(10, P));
  }

  /** Going down from an exponent that is not too small leads to the decade. */
  lemma {:induction false} Descend(f: Format, x: Float, k: int) returns (e: int)
    requires x.q >= f.lowest && f.lowest <= 0 && x.M > 0
    requires Numerator(f, x, k) < 10 * Denominator(f, k) && k + Pow(2, -f.lowest) >= 0
    ensures InDecade(f, x, e)
    decreases k + Pow(2, -f.lowest)
  {
    if Numerator(f, x, k) >= Denominator(f, k) {
      e := k;
    } else {
      Ends(f, x);
      OneLess(f, x, k, 1);
      e := Descend(f, x, k - 1);
    }
  }

  lemma HasDecade(f: Format, x: Float) returns (k: int)
    requires x.q >= f.lowest && f.lowest <= 0 && x.M > 0
    ensures InDecade(f, x, k)
  {
    Ends(f, x);
    k := Descend(f, x, Steps(f, x));
  }

  /** Below the decade of a number the quotient is ten or more. */
  lemma {:induction false} Above(f: Format, x: Float, j: int, k: int)
    requires x.q >= f.lowest && f.lowest <= 0 && j < k && Numerator(f, x, k) >= Denominator(f, k)
    ensures Numerator(f, x, j) >= 10 * Denominator(f, j)
    decreases k - j
  {
    OneLess(f, x, k, 1);
    if j == k - 1 {
    } else {
      Above(f, x, j, k - 1);
    }
  }

  /** There is no other decade. */
  lemma OneDecade(f: Format, x: Float, j: int, k: int)
    requires x.q >= f.lowest && f.lowest <= 0 && InDecade(f, x, j) && InDecade(f, x, k)
    ensures j == k
  {
    if j < k { Above(f, x, j, k); } else if k < j { Above(f, x, k, j); }
  }
}
