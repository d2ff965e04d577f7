/** A common factor of numerator, denominator and margins changes nothing in what digit generation promises. */
module Scaling {
  import opened Arith
  import opened Decimal
  import opened Dtoa

  function Times(g: Target, c: int): Target {
    Target(c * g.b, c * g.S, c * g.mlo, c * g.mhi, g.closed)
  }

  lemma FactorOut(c: int, a: int, m: int, P: int)
    ensures (c * a + c * m) * P == (a + m) * P * c
  {
    assert c * a + c * m == (a + m) * c by { MulDistributes(a, m, c); }
    SwapLast(a + m, c, P);
  }

  lemma BoundsScale(g: Target, c: int, v: int, q: nat)
    requires c > 0
    ensures var h := Times(g, c); h.Inside(v, q) <==> g.Inside(v, q)
    ensures var h := Times(g, c); h.Accepts(v, q) <==> g.Accepts(v, q)
  {
    var P := Pow10(q);
    FactorOut(c, g.b, -g.mlo, P);
    FactorOut(c, g.b, g.mhi, P);
    assert c * g.b + c * -g.mlo == c * g.b - c * g.mlo;
    assert v * (c * g.S) == v * g.S * c;
    CancelLt((g.b - g.mlo) * P, v * g.S, c);
    CancelLt(v * g.S, (g.b + g.mhi) * P, c);
  }

  lemma NearerScales(g: Target, c: int, v: int, q: nat)
    requires c > 0
    ensures Times(g, c).PrefersNearer(v, q) <==> g.PrefersNearer(v, q)
  {
    var P := Pow10(q);
    var r := g.b * P - v * g.S;
    BoundsScale(g, c, v, q);
    BoundsScale(g, c, if r >= 0 then v + 1 else v - 1, q);
    RemainderScales(g.b, g.S, c, v, P);
    DistanceScales(r, g.S, c);
    CancelLt(g.mhi, g.mlo, c);
  }

  lemma RemainderScales(b: int, S: int, c: int, v: int, P: int)
    ensures c * b * P - v * (c * S) == (b * P - v * S) * c
  {
    MulDistributes(b * P, -(v * S), c);
    assert c * b * P == b * P * c by { MulAssoc(c, b, P); }
    assert v * (c * S) == v * S * c;
  }

  lemma DistanceScales(r: int, S: int, c: int)
    requires c > 0
    ensures r * c >= 0 <==> r >= 0
    ensures 2 * (r * c) < c * S <==> 2 * r < S
    ensures 2 * (r * c) == c * S <==> 2 * r == S
    ensures 2 * (r * c) <= c * S <==> 2 * r <= S
    ensures 2 * -(r * c) <= c * S <==> 2 * -r <= S
    ensures 2 * -(r * c) < c * S <==> 2 * -r < S
    ensures 2 * -(r * c) == c * S <==> 2 * -r == S
  {
    CancelLt(0, r, c);
    CancelLt(2 * r, S, c);
    CancelLt(-2 * r, S, c);
  }

  lemma NoneShorterScales(g: Target, c: int, n: nat)
    requires c > 0
    ensures NoneShorter(Times(g, c), n) <==> NoneShorter(g, n)
  {
    forall m: nat, q: nat ensures Times(g, c).Accepts(m, q) <==> g.Accepts(m, q) { BoundsScale(g, c, m, q); }
  }

  lemma ShortestScales(g: Target, c: int, k: int, s: seq<int>, k': int)
    requires c > 0
    ensures ShortestFor(Times(g, c), k, s, k') <==> ShortestFor(g, k, s, k')
  {
    if Canonical(s) && k <= k' <= k + 1 {
      BoundsScale(g, c, InUnits(s, k', k, |s|), |s| - 1);
      NearerScales(g, c, InUnits(s, k', k, |s|), |s| - 1);
      NoneShorterScales(g, c, |s|);
    }
  }

  lemma RoundsScales(n: int, d: int, c: int, x: int)
    requires c > 0
    ensures RoundsTo(n * c, d * c, x) <==> RoundsTo(n, d, x)
  {
    var e := 2 * (x * d - n);
    assert 2 * (x * (d * c) - n * c) == e * c by {
      assert x * (d * c) == x * d * c;
      MulDistributes(x * d, -n, c);
    }
    CancelLt(-d, e, c);
    CancelLt(e, d, c);
  }

  lemma RoundedScales(b: int, S: int, c: int, k: int, n: int, s: seq<int>, k': int)
    requires c > 0
    ensures RoundedAt(c * b, c * S, k, n, s, k') <==> RoundedAt(b, S, k, n, s, k')
  {
    if n >= 1 {
      assert c * b * Pow10(n - 1) == b * Pow10(n - 1) * c by { MulAssoc(c, b, Pow10(n - 1)); }
      if Canonical(s) && k <= k' <= k + 1 && |s| <= n {
        RoundsScales(b * Pow10(n - 1), S, c, InUnits(s, k', k, n));
      }
    } else {
      assert c * S * Pow10(1 - n) == S * Pow10(1 - n) * c by { MulAssoc(c, S, Pow10(1 - n)); }
      RoundsScales(b, S * Pow10(1 - n), c, |s|);
    }
  }

  lemma HalfUnitScales(m: int, S: int, c: int, P: int)
    requires c > 0
    ensures 2 * (c * m) * P <= c * S <==> 2 * m * P <= S
  {
    assert 2 * (c * m) * P == 2 * m * P * c by {
      assert 2 * (c * m) == 2 * m * c;
      SwapLast(2 * m, c, P);
    }
    CancelLt(2 * m * P, S, c);
  }

  /** Numerator, denominator and margins times a common factor promise the same digits. */
  lemma PromisedScales(c: int, mode: int, ndigits: int, even: bool, powerOfTwo: bool, k: int, b: int, S: int, m: int,
                       n: int, s: seq<int>, decpt: int)
    requires c > 0
    ensures Promised(mode, ndigits, even, powerOfTwo, k, c * b, c * S, c * m, n, s, decpt) <==>
            Promised(mode, ndigits, even, powerOfTwo, k, b, S, m, n, s, decpt)
  {
    var g := TargetOf(mode, even, powerOfTwo, b, S, m);
    assert TargetOf(mode, even, powerOfTwo, c * b, c * S, c * m) == Times(g, c) by {
      assert c * (2 * m) == 2 * (c * m);
    }
    ShortestScales(g, c, k, s, decpt - 1);
    RoundedScales(b, S, c, k, n, s, decpt - 1);
    if n >= 1 {
      NoneShorterScales(g, c, n + 1);
      HalfUnitScales(m, S, c, Pow10(n - 1));
    }
  }

  lemma TenAndFactor(c: int, v: int)
    ensures 10 * (c * v) == c * (10 * v)
  {}

  lemma EstimatedScales(c: int, mode: int, ndigits: int, even: bool, powerOfTwo: bool, k: int, b: int, S: int, m: int,
                        ilim: int, ilim1: int, s: seq<int>, decpt: int)
    requires c > 0
    ensures Estimated(mode, ndigits, even, powerOfTwo, k, c * b, c * S, c * m, ilim, ilim1, s, decpt) <==>
            Estimated(mode, ndigits, even, powerOfTwo, k, b, S, m, ilim, ilim1, s, decpt)
  {
    CancelLt(b, S, c);
    TenAndFactor(c, b);
    TenAndFactor(c, m);
    PromisedScales(c, mode, ndigits, even, powerOfTwo, k - 1, 10 * b, S, 10 * m, ilim1, s, decpt);
    PromisedScales(c, mode, ndigits, even, powerOfTwo, k, b, S, m, ilim, s, decpt);
  }

  /** What is promised depends only on the ratios of numerator and margin to the denominator. */
  lemma SameRatios(mode: int, ndigits: int, even: bool, powerOfTwo: bool, k: int, b: int, S: int, m: int, b': int,
                   S': int, m': int, n: int, s: seq<int>, decpt: int)
    requires S > 0 && S' > 0 && b * S' == b' * S && m * S' == m' * S
    ensures Promised(mode, ndigits, even, powerOfTwo, k, b, S, m, n, s, decpt) <==>
            Promised(mode, ndigits, even, powerOfTwo, k, b', S', m', n, s, decpt)
  {
    PromisedScales(S', mode, ndigits, even, powerOfTwo, k, b, S, m, n, s, decpt);
    PromisedScales(S, mode, ndigits, even, powerOfTwo, k, b', S', m', n, s, decpt);
    assert S' * b == S * b' && S' * S == S * S' && S' * m == S * m';
  }
}
