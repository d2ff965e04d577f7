/** The digit loops of the double-to-string conversion, on multiple-precision integers. */
module BigDigits {
  import opened Arith
  import opened BigOps
  import opened Bignum
  import opened Decimal
  import opened Shortest
  import Dtoa

  /** The divisor has at least four bits set below its four leading zero bits. */
  ghost predicate Normalised(S: Bigint)
    reads S, S.x
  {
    S.Positive() && 10 <= S.x[S.wds - 1] < 0x1000
  }

  /** A number below ten times the divisor has no more words than the divisor. */
  lemma FitsWords(b: seq<int>, s: seq<int>)
    requires AllWords(b) && AllWords(s) && s != [] && s[|s| - 1] < 0x1000 && Val(b) < 10 * Val(s)
    requires |b| >= 2 ==> b[|b| - 1] != 0
    ensures |b| <= |s|
  {
    if |b| > |s| {
      var P := Pow(WORD, |s| - 1);
      TopWord(s);
      MulLe(s[|s| - 1] + 1, 0x1000, P);
      ValBounds(b[..|b| - 1]);
      MulLe(1, b[|b| - 1], Pow(WORD, |b| - 1));
      PowMonotone(WORD, |s|, |b| - 1);
    }
  }

  /** Valid, with room for a second word even when it has none. */
  ghost predicate Roomy(b: Bigint)
    reads b, b.x
  {
    b.Valid() && b.x.Length >= 2
  }

  /** One digit: the quotient, with b left as the remainder. */
  method NextDigit(b: Bigint, S: Bigint, ghost b0: int, ghost s: seq<int>) returns (q: int)
    requires Apart(b, S) && b.Valid() && Normalised(S) && S.Value() <= b0 && Dtoa.Generated(b0, S.Value(), s, b.Value())
    modifies b`wds, b.x
    ensures b.Valid() && 0 <= b.Value() < S.Value()
    ensures q == old(b.Value()) / S.Value() && b.Value() == old(b.Value()) % S.Value()
    ensures Dtoa.Leading(s + [q]) && b0 * Pow10(|s|) == DigitsValue(s + [q]) * S.Value() + b.Value()
  {
    FitsWords(b.x[..b.wds], S.x[..S.wds]);
    ghost var B, D := b.Value(), S.Value();
    q := Quorem(b, S);
    DivModUnique(B, D, q, b.Value());
    Dtoa.GeneratesNext(b0, D, s, B);
  }

  /** The digits of the quotient, one at a time, until there are ilim of them. */
  method Digits(b: Bigint, S: Bigint, ilim: int) returns (s: seq<int>)
    requires Apart(b, S) && Roomy(b) && Normalised(S) && S.Value() <= b.Value() < 10 * S.Value() && ilim >= 1
    modifies b, b.x
    ensures Roomy(b) && Apart(b, S) && 0 <= b.Value() < S.Value() && |s| == ilim && Dtoa.Leading(s)
    ensures b.x == old(b.x) || fresh(b.x)
    ensures old(b.Value()) * Pow10(ilim - 1) == DigitsValue(s) * S.Value() + b.Value()
  {
    ghost var b0, D, x0 := b.Value(), S.Value(), b.x;
    var i := 1;
    s := [];
    while true
      invariant 1 <= i <= ilim && |s| == i - 1 && Roomy(b) && Apart(b, S) && (b.x == x0 || fresh(b.x))
      invariant Normalised(S) && S.Value() == D && Dtoa.Generated(b0, D, s, b.Value())
      decreases ilim - i
    {
      var q := NextDigit(b, S, b0, s);
      s := s + [q];
      if i >= ilim { break; }
      Dtoa.NextPosition(b0, D, s, b.Value());
      MultAdd(b, 10, 0);
      i := i + 1;
    }
  }

  /** Round off the last digit, comparing twice the remainder with the divisor. */
  method RoundLast(b: Bigint, S: Bigint, s: seq<int>, k: int, ghost b0: int) returns (s': seq<int>, k': int)
    requires Apart(b, S) && Roomy(b) && Normalised(S) && 0 <= b.Value() < S.Value() && s != [] && Dtoa.Leading(s)
    requires b0 * Pow10(|s| - 1) == DigitsValue(s) * S.Value() + b.Value()
    ensures Dtoa.RoundedTo(b0, S.Value(), k, |s|, s', k')
  {
    Dtoa.NearestByRemainder(b0 * Pow10(|s| - 1), S.Value(), DigitsValue(s), b.Value());
    Dtoa.LastDigitParity(s);
    var dig := s[|s| - 1];
    var twice := LShift(b, 1);
    assert Pow(2, 1) == 2;
    var j := Cmp(twice, S);
    if j > 0 || (j == 0 && dig % 2 == 1) {
      s', k' := Dtoa.RoundOff(s, k);
    } else {
      s' := Dtoa.StripZeros(s);
      k' := k;
    }
  }

  /** Fixed-length mode on multiple-precision integers: the quotient rounded to ilim digits, ties to even. */
  method FixedMode(b: Bigint, S: Bigint, k: int, ilim: int) returns (s': seq<int>, k': int)
    requires Apart(b, S) && Roomy(b) && Normalised(S) && S.Value() <= b.Value() < 10 * S.Value() && ilim >= 1
    modifies b, b.x
    ensures Dtoa.RoundedTo(old(b.Value()), old(S.Value()), k, ilim, s', k')
  {
    ghost var b0 := b.Value();
    var s := Digits(b, S, ilim);
    s', k' := RoundLast(b, S, s, k, b0);
  }

  lemma PositiveValue(b: Bigint)
    requires b.Valid() && b.Value() > 0
    ensures b.Positive()
  {
    if b.wds == 1 && b.x[0] == 0 {
      ValTrim(b.x[..1], 0);
    }
  }

  lemma AboveZero(S: Bigint)
    requires S.Positive()
    ensures S.Value() > 0
  {
    TopWord(S.x[..S.wds]);
    MulLe(1, S.x[S.wds - 1], Pow(WORD, S.wds - 1));
  }

  lemma ZeroIsShort(b: Bigint)
    requires b.Valid() && b.Value() == 0
    ensures b.wds <= 1
  {
    if b.wds >= 2 {
      TopWord(b.x[..b.wds]);
      MulLe(1, b.x[b.wds - 1], Pow(WORD, b.wds - 1));
    }
  }

  /** The sum of the remainder and the upper margin against the divisor, by their difference. */
  method AgainstDelta(b: Bigint, S: Bigint, mhi: Bigint) returns (j1: int)
    requires b.Valid() && S.Valid() && mhi.Valid() && 0 <= b.Value() < S.Value() && 0 < mhi.Value()
    ensures j1 > 0 <==> b.Value() + mhi.Value() > S.Value()
    ensures j1 == 0 ==> b.Value() + mhi.Value() == S.Value()
    ensures j1 < 0 && b.Value() + mhi.Value() == S.Value() ==> b.Value() == 0
  {
    PositiveValue(mhi);
    var delta, sign := Diff(S, mhi);
    if sign { return 1; }
    j1 := Cmp(b, delta);
    if b.Value() == 0 { ZeroIsShort(b); }
  }

  /**
   * The stopping tests on the remainder left in b. When nothing remains and the upper margin is the divisor, the zero
   * of no words compares below the zero of one: the digit is then kept, which the margins justify as well.
   */
  method Choose(closed: bool, b: Bigint, S: Bigint, mlo: Bigint, mhi: Bigint, dig: int) returns (c: Dtoa.Choice)
    requires Roomy(b) && S.Positive() && mlo.Valid() && mhi.Valid()
    requires 0 <= b.Value() < S.Value() && 0 < mlo.Value() && 0 < mhi.Value()
    ensures c == Dtoa.Continue <==>
            if closed then mlo.Value() < b.Value() && b.Value() + mhi.Value() < S.Value()
            else mlo.Value() <= b.Value() && b.Value() + mhi.Value() <= S.Value()
    ensures c.Stop? ==> Dtoa.Justified(closed, S.Value(), mlo.Value(), mhi.Value(), dig, b.Value(), c.up)
  {
    PositiveValue(mlo);
    var j := Cmp(b, mlo);
    var j1 := AgainstDelta(b, S, mhi);
    if j1 == 0 && closed {
      if dig == 9 {
        return Dtoa.Stop(true);
      }
      return Dtoa.Stop(j > 0);
    }
    if j < 0 || (j == 0 && closed) {
      if j1 > 0 {
        var twice := LShift(b, 1);
        assert Pow(2, 1) == 2;
        j1 := Cmp(twice, S);
        return Dtoa.Stop(j1 > 0 || (j1 == 0 && dig % 2 == 1));
      }
      return Dtoa.Stop(false);
    }
    return if j1 > 0 then Dtoa.Stop(true) else Dtoa.Continue;
  }

  /** The four numbers of the loop share no words, except that the two margins may be the same number. */
  ghost predicate Numbers(b: Bigint, S: Bigint, mlo: Bigint, mhi: Bigint)
    reads b, b.x, S, S.x, mlo, mlo.x, mhi, mhi.x
  {
    && Apart(b, S) && Apart(b, mlo) && Apart(b, mhi) && Apart(S, mlo) && Apart(S, mhi)
    && (mlo == mhi || Apart(mlo, mhi))
    && Roomy(b) && Normalised(S) && mlo.Valid() && mhi.Valid()
  }

  /** Multiply the margins by ten; the same number is multiplied once. */
  method GrowMargins(mlo: Bigint, mhi: Bigint)
    requires mlo.Valid() && mhi.Valid() && (mlo == mhi || Apart(mlo, mhi))
    modifies mlo, mlo.x, mhi, mhi.x
    ensures mlo.Valid() && mhi.Valid() && (mlo == mhi || Apart(mlo, mhi))
    ensures mlo.x == old(mlo.x) || fresh(mlo.x)
    ensures mhi.x == old(mhi.x) || fresh(mhi.x)
    ensures mlo.Value() == 10 * old(mlo.Value()) && mhi.Value() == 10 * old(mhi.Value())
  {
    if mlo == mhi {
      MultAdd(mhi, 10, 0);
    } else {
      MultAdd(mlo, 10, 0);
      MultAdd(mhi, 10, 0);
    }
  }

  /** Go on to the next position: the remainder and the margins times ten. */
  method Advance(b: Bigint, S: Bigint, mlo: Bigint, mhi: Bigint)
    requires Numbers(b, S, mlo, mhi)
    modifies b, b.x, mlo, mlo.x, mhi, mhi.x
    ensures Numbers(b, S, mlo, mhi) && S.Value() == old(S.Value())
    ensures b.x == old(b.x) || fresh(b.x)
    ensures mlo.x == old(mlo.x) || fresh(mlo.x)
    ensures mhi.x == old(mhi.x) || fresh(mhi.x)
    ensures b.Value() == 10 * old(b.Value()) && mlo.Value() == 10 * old(mlo.Value())
            && mhi.Value() == 10 * old(mhi.Value())
  {
    MultAdd(b, 10, 0);
    GrowMargins(mlo, mhi);
  }

  /** The digit, with b left as the remainder and the margins as they are. */
  method DigitOf(b: Bigint, S: Bigint, mlo: Bigint, mhi: Bigint, ghost g: Target, ghost s: seq<int>) returns (dig: int)
    requires Numbers(b, S, mlo, mhi) && S.Value() == g.S && g.Valid() && Dtoa.Generated(g.b, g.S, s, b.Value())
    modifies b`wds, b.x
    ensures Numbers(b, S, mlo, mhi) && S.Value() == g.S
    ensures mlo.Value() == old(mlo.Value()) && mhi.Value() == old(mhi.Value())
    ensures dig == old(b.Value()) / g.S && b.Value() == old(b.Value()) % g.S
  {
    dig := NextDigit(b, S, g.b, s);
  }

  /** The state after a digit that does not end the string. */
  ghost predicate GoesOn(g: Target, s: seq<int>, r: int, mlo: int, mhi: int) {
    && s != [] && mlo <= r < g.S && 0 <= r && g.b * Pow10(|s| - 1) == DigitsValue(s) * g.S + r
    && Dtoa.Scanning(g, s, 10 * r, 10 * mlo, 10 * mhi)
  }

  lemma AfterDigit(g: Target, s: seq<int>, b: int, mlo: int, mhi: int, dig: int, r: int)
    requires Dtoa.Scanning(g, s, b, mlo, mhi) && dig == b / g.S && r == b % g.S
    requires if g.closed then mlo < r && r + mhi < g.S else mlo <= r && r + mhi <= g.S
    ensures GoesOn(g, s + [dig], r, mlo, mhi)
  {
    Dtoa.ScanningContinues(g, s, b, mlo, mhi);
  }

  /** One position: the digit, with b left as the remainder, and whether to stop at it. */
  method Position(b: Bigint, S: Bigint, mlo: Bigint, mhi: Bigint, ghost g: Target, closed: bool, ghost s: seq<int>)
      returns (dig: int, c: Dtoa.Choice)
    requires Numbers(b, S, mlo, mhi) && S.Value() == g.S && g.Valid() && Dtoa.Generated(g.b, g.S, s, b.Value())
    requires 0 < mlo.Value() && 0 < mhi.Value()
    modifies b`wds, b.x
    ensures Numbers(b, S, mlo, mhi) && S.Value() == g.S
    ensures mlo.Value() == old(mlo.Value()) && mhi.Value() == old(mhi.Value())
    ensures dig == old(b.Value()) / g.S && b.Value() == old(b.Value()) % g.S
    ensures c == Dtoa.Continue <==>
            if closed then mlo.Value() < b.Value() && b.Value() + mhi.Value() < g.S
            else mlo.Value() <= b.Value() && b.Value() + mhi.Value() <= g.S
    ensures c.Stop? ==> Dtoa.Justified(closed, g.S, mlo.Value(), mhi.Value(), dig, b.Value(), c.up)
  {
    dig := DigitOf(b, S, mlo, mhi, g, s);
    c := Choose(closed, b, S, mlo, mhi, dig);
  }

  /** One position in the state of the loop. */
  method Scan(b: Bigint, S: Bigint, mlo: Bigint, mhi: Bigint, ghost g: Target, closed: bool, ghost s: seq<int>)
      returns (dig: int, c: Dtoa.Choice)
    requires Numbers(b, S, mlo, mhi) && S.Value() == g.S && closed == g.closed
    requires Dtoa.Scanning(g, s, b.Value(), mlo.Value(), mhi.Value())
    modifies b`wds, b.x
    ensures Numbers(b, S, mlo, mhi) && S.Value() == g.S
    ensures mlo.Value() == old(mlo.Value()) && mhi.Value() == old(mhi.Value()) && dig == old(b.Value()) / g.S
    ensures c.Stop? ==> Dtoa.Justified(closed, g.S, mlo.Value(), mhi.Value(), dig, old(b.Value()) % g.S, c.up)
    ensures c == Dtoa.Continue ==> GoesOn(g, s + [dig], b.Value(), mlo.Value(), mhi.Value())
  {
    ghost var B, L, H := b.Value(), mlo.Value(), mhi.Value();
    dig, c := Position(b, S, mlo, mhi, g, closed, s);
    if c == Dtoa.Continue { AfterDigit(g, s, B, L, H, dig, b.Value()); }
  }

  /** After a digit that does not end the string: round at the limit, or go on to the next position. */
  method GoOn(b: Bigint, S: Bigint, mlo: Bigint, mhi: Bigint, k: int, ilim: int, s: seq<int>, ghost g: Target)
      returns (done: bool, s': seq<int>, k': int)
    requires Numbers(b, S, mlo, mhi) && S.Value() == g.S && (ilim >= 1 ==> |s| <= ilim)
    requires GoesOn(g, s, b.Value(), mlo.Value(), mhi.Value())
    modifies b, b.x, mlo, mlo.x, mhi, mhi.x
    ensures b.x == old(b.x) || fresh(b.x)
    ensures mlo.x == old(mlo.x) || fresh(mlo.x)
    ensures mhi.x == old(mhi.x) || fresh(mhi.x)
    ensures done ==> Dtoa.ShortestWithin(g, k, ilim, s', k')
    ensures !done ==> Numbers(b, S, mlo, mhi) && S.Value() == g.S && s' == s && (ilim >= 1 ==> |s| < ilim)
    ensures !done ==> Dtoa.Scanning(g, s, b.Value(), mlo.Value(), mhi.Value())
    ensures !done ==> old(mlo.Value()) < mlo.Value() < 10 * g.S
  {
    if |s| == ilim {
      s', k' := RoundLast(b, S, s, k, g.b);
      return true, s', k';
    }
    Advance(b, S, mlo, mhi);
    return false, s, k;
  }

  /** One turn of the loop: the result, or the digits so far with the numbers ready for the next position. */
  method Turn(b: Bigint, S: Bigint, mlo: Bigint, mhi: Bigint, closed: bool, k: int, ilim: int, s: seq<int>,
              ghost g: Target)
      returns (done: bool, s': seq<int>, k': int)
    requires Numbers(b, S, mlo, mhi) && S.Value() == g.S && closed == g.closed && (ilim >= 1 ==> |s| < ilim)
    requires Dtoa.Scanning(g, s, b.Value(), mlo.Value(), mhi.Value())
    modifies b, b.x, mlo, mlo.x, mhi, mhi.x
    ensures b.x == old(b.x) || fresh(b.x)
    ensures mlo.x == old(mlo.x) || fresh(mlo.x)
    ensures mhi.x == old(mhi.x) || fresh(mhi.x)
    ensures done ==> Dtoa.ShortestWithin(g, k, ilim, s', k')
    ensures !done ==> Numbers(b, S, mlo, mhi) && S.Value() == g.S && (ilim >= 1 ==> |s'| < ilim)
    ensures !done ==> Dtoa.Scanning(g, s', b.Value(), mlo.Value(), mhi.Value())
    ensures !done ==> |s'| == |s| + 1 && old(mlo.Value()) < mlo.Value() < 10 * g.S
  {
    ghost var B, L, H := b.Value(), mlo.Value(), mhi.Value();
    var dig, c := Scan(b, S, mlo, mhi, g, closed, s);
    if c.Stop? {
      s', k' := Dtoa.StopWithin(g, k, s, B, L, H, dig, c.up, ilim);
      return true, s', k';
    }
    done, s', k' := GoOn(b, S, mlo, mhi, k, ilim, s + [dig], g);
  }

  /** Left-to-right mode on multiple-precision integers. */
  method ShortestMode(b: Bigint, S: Bigint, mlo: Bigint, mhi: Bigint, closed: bool, k: int, ilim: int)
      returns (s': seq<int>, k': int)
    requires Numbers(b, S, mlo, mhi)
    requires S.Value() <= b.Value() < 10 * S.Value() && mlo.Value() > 0 && mhi.Value() > 0
    modifies b, b.x, mlo, mlo.x, mhi, mhi.x
    ensures var g := old(Target(b.Value(), S.Value(), mlo.Value(), mhi.Value(), closed));
            Dtoa.ShortestWithin(g, k, ilim, s', k')
  {
    ghost var g := Target(b.Value(), S.Value(), mlo.Value(), mhi.Value(), closed);
    ghost var x0, xl, xh := b.x, mlo.x, mhi.x;
    AboveZero(S);
    Dtoa.ScanningStarts(g);
    s' := [];
    while true
      invariant Numbers(b, S, mlo, mhi) && S.Value() == g.S && (ilim >= 1 ==> |s'| < ilim)
      invariant (b.x == x0 || fresh(b.x)) && (mlo.x == xl || fresh(mlo.x)) && (mhi.x == xh || fresh(mhi.x))
      invariant Dtoa.Scanning(g, s', b.Value(), mlo.Value(), mhi.Value())
      decreases 10 * g.S - mlo.Value()
    {
      var done;
      done, s', k' := Turn(b, S, mlo, mhi, closed, k, ilim, s', g);
      if done { return; }
    }
  }
}
