/** Why the left-to-right digit loop cannot miss a shorter decimal. */
module Shortest {
  import opened Arith
  import opened Decimal

  /**
   * After e + 1 digits with value D and remainder r, neither D nor D + 1 is within the margins:
   * the digit loop goes on.
   */
  ghost predicate Undecided(g: Target, D: int, r: int, e: nat) {
    && g.b * Pow10(e) == D * g.S + r && 0 <= r < g.S
    && (if g.closed then
          g.mlo * Pow10(e) < r && r + g.mhi * Pow10(e) < g.S
        else
          g.mlo * Pow10(e) <= r && r + g.mhi * Pow10(e) <= g.S)
  }

  /** Being within the margins, in terms of the remainder. */
  lemma AcceptsByRemainder(g: Target, D: int, r: int, e: nat)
    requires g.b * Pow10(e) == D * g.S + r
    ensures g.Accepts(D, e) <==>
            if g.closed then 0 <= r + g.mhi * Pow10(e) && r <= g.mlo * Pow10(e)
            else 0 < r + g.mhi * Pow10(e) && r < g.mlo * Pow10(e)
    ensures g.Accepts(D + 1, e) <==>
            if g.closed then g.S <= r + g.mhi * Pow10(e) && r <= g.S + g.mlo * Pow10(e)
            else g.S < r + g.mhi * Pow10(e) && r < g.S + g.mlo * Pow10(e)
  {
    var P := Pow10(e);
    MulDistributes(g.b, -g.mlo, P);
    MulDistributes(g.b, g.mhi, P);
    MulDistributes(D, 1, g.S);
  }

  lemma InsideByRemainder(g: Target, D: int, r: int, e: nat)
    requires g.b * Pow10(e) == D * g.S + r && 0 <= r < g.S && g.Inside(D, e) && g.Inside(D + 1, e)
    ensures r < g.mlo * Pow10(e) && g.S < r + g.mhi * Pow10(e)
  {
    var P := Pow10(e);
    MulDistributes(g.b, -g.mlo, P);
    MulDistributes(g.b, g.mhi, P);
    MulDistributes(D, 1, g.S);
  }

  /** Picking the nearer of D and D + 1 whenever both are strictly within the margins. */
  lemma NearerByRemainder(g: Target, D: int, r: int, e: nat, up: bool)
    requires g.b * Pow10(e) == D * g.S + r && 0 <= r < g.S
    requires r < g.mlo * Pow10(e) && g.S < r + g.mhi * Pow10(e) ==>
             (up <==> 2 * r > g.S || (2 * r == g.S && D % 2 == 1))
    requires g.closed && g.mlo <= g.mhi && r <= g.mlo * Pow10(e) && g.S <= r + g.mhi * Pow10(e) ==>
             if up then 2 * r >= g.S || (D == 9 && e == 0) else 2 * r <= g.S
    ensures g.PrefersNearer(D + (if up then 1 else 0), e)
  {
    assert (D + 1) * g.S == D * g.S + g.S by { MulDistributes(D, 1, g.S); }
    if g.Inside(D, e) && g.Inside(D + 1, e) { InsideByRemainder(g, D, r, e); }
    AcceptsByRemainder(g, D, r, e);
    assert D == 9 && e == 0 && up ==> g.b < 10 * g.S by { assert Pow10(0) == 1; }
  }

  /** No multiple of 10^-e is accepted while the loop is undecided at position e. */
  lemma NoneOnGrid(g: Target, D: int, r: int, e: nat, G: int)
    requires Undecided(g, D, r, e)
    ensures !g.Accepts(G, e)
  {
    var P := Pow10(e);
    assert (g.b - g.mlo) * P == g.b * P - g.mlo * P by { MulDistributes(g.b, -g.mlo, P); }
    assert (g.b + g.mhi) * P == g.b * P + g.mhi * P by { MulDistributes(g.b, g.mhi, P); }
    if G <= D {
      MulLe(G, D, g.S);
    } else {
      assert (D + 1) * g.S <= G * g.S by { MulLe(D + 1, G, g.S); }
      assert (D + 1) * g.S == D * g.S + g.S;
    }
  }

  /** No number below one is accepted while the loop is undecided at position e. */
  lemma NoneBelowOne(g: Target, D: int, r: int, e: nat, m: int, q: nat)
    requires g.Valid() && Undecided(g, D, r, e) && m < Pow10(q)
    ensures !g.Accepts(m, q)
  {
    if g.Accepts(m, q) {
      LowerMarginBelowOne(g.b - g.mlo, g.S, m, Pow10(q));
      RemainderTooSmall(g.b, g.mlo, g.S, D, r, Pow10(e));
    }
  }

  lemma LowerMarginBelowOne(low: int, S: int, m: int, Q: int)
    requires S > 0 && Q > 0 && m < Q && low * Q <= m * S
    ensures low < S
  {
    MulLt(m, Q, S);
    if low >= S { MulLe(S, low, Q); }
  }

  /** If the lower margin reaches below one, the remainder after whole units is below the margin. */
  lemma RemainderTooSmall(b: int, mlo: int, S: int, D: int, r: int, P: int)
    requires 0 < S <= b && P > 0 && b - mlo < S && b * P == D * S + r && 0 <= r < S
    ensures r < mlo * P
  {
    MulLt(b - mlo, S, P);
    MulDistributes(b, -mlo, P);
    MulLe(S, b, P);
    QuotientAtLeast(S, D, r, P);
    MulLe(P, D, S);
  }

  lemma QuotientAtLeast(S: int, D: int, r: int, P: int)
    requires 0 < S && S * P <= D * S + r && 0 <= r < S
    ensures D >= P
  {
    if D <= P - 1 {
      MulLe(D, P - 1, S);
      MulDistributes(P, -1, S);
    }
  }

  lemma SameNumberOnGrid(c: int, t: nat, e: nat, q: nat)
    requires q <= t + e
    ensures Shifted(c, t) * Pow10(e) == Shifted(c, t + e - q) * Pow10(q)
  {
    PowAdd(10, t, e);
    PowAdd(10, t + e - q, q);
    MulAssoc(c, Pow10(t), Pow10(e));
    MulAssoc(c, Pow10(t + e - q), Pow10(q));
  }

  lemma SmallShifted(c: int, t: nat, n: nat, q: nat)
    requires c < Pow10(n) && n + t <= q
    ensures Shifted(c, t) < Pow10(q)
  {
    MulLt(c, Pow10(n), Pow10(t));
    PowAdd(10, n, t);
    PowMonotone(10, n + t, q);
  }

  /** Undecided after e + 1 digits: no decimal of e + 1 or fewer significant digits is accepted. */
  lemma UndecidedMeansNoneShorter(g: Target, D: int, r: int, e: nat)
    requires g.Valid() && Undecided(g, D, r, e)
    ensures NoneShorter(g, e + 2)
  {
    forall m: nat, q: nat, j: nat | m > 0 && j < e + 2 && SignificantDigits(m, j)
      ensures !g.Accepts(m, q)
    {
      var c: nat, t: nat :| c < Pow10(j) && Shifted(c, t) == m;
      PowMonotone(10, j, e + 1);
      if q <= t + e {
        var G := Shifted(c, t + e - q);
        SameNumberOnGrid(c, t, e, q);
        AcceptsSameNumber(g, m, q, G, e);
        NoneOnGrid(g, D, r, e, G);
      } else {
        SmallShifted(c, t, e + 1, q);
        NoneBelowOne(g, D, r, e, m, q);
      }
    }
  }
}
