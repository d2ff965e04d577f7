/** Digit generation in every mode on multiple-precision integers, from the scaled quotient on. */
module BigGenerate {
  import opened Arith
  import opened BigDigits
  import opened BigOps
  import opened Bignum
  import opened Decimal
  import opened Dtoa

  /** The remainder and the margin, if there is one, share no words with each other or the divisor. */
  ghost predicate Scaled(b: Bigint, S: Bigint, mhi: Bigint, leftright: bool)
    reads b, b.x, S, S.x, mhi, mhi.x
  {
    && Apart(b, S) && Roomy(b) && Normalised(S)
    && (leftright ==> Apart(b, mhi) && Apart(S, mhi) && mhi.Positive())
  }

  method GrowMargin(m: Bigint)
    requires m.Positive()
    modifies m, m.x
    ensures m.Positive() && (m.x == old(m.x) || fresh(m.x)) && m.Value() == 10 * old(m.Value())
  {
    AboveZero(m);
    MultAdd(m, 10, 0);
    PositiveValue(m);
  }

  /** Correct the estimate of the exponent when it was one too high. */
  method FixEstimate(b: Bigint, S: Bigint, mhi: Bigint, leftright: bool, kCheck: bool, k0: int, ilim0: int, ilim1: int)
      returns (k: int, ilim: int)
    requires Scaled(b, S, mhi, leftright)
    modifies b, b.x, mhi, mhi.x
    ensures Scaled(b, S, mhi, leftright) && S.Value() == old(S.Value())
    ensures b.x == old(b.x) || fresh(b.x)
    ensures mhi.x == old(mhi.x) || fresh(mhi.x)
    ensures var fix := kCheck && old(b.Value() < S.Value());
            && k == (if fix then k0 - 1 else k0) && ilim == (if fix then ilim1 else ilim0)
            && b.Value() == (if fix then 10 else 1) * old(b.Value())
            && (leftright ==> mhi.Value() == (if fix then 10 else 1) * old(mhi.Value()))
  {
    k, ilim := k0, ilim0;
    if kCheck {
      var j := Cmp(b, S);
      AboveZero(S);
      if j < 0 {
        k := k - 1;
        MultAdd(b, 10, 0);
        if leftright {
          GrowMargin(mhi);
        }
        ilim := ilim1;
      }
    }
  }

  /** Nothing but rounding at or above the first digit is left. */
  method NoDigits(ndigits: int, S: Bigint, k: int, b: Bigint, ilim: int) returns (s: seq<int>, decpt: int)
    requires Apart(b, S) && b.Valid() && Normalised(S) && S.Value() <= b.Value() < 10 * S.Value() && ilim <= 0
    modifies S, S.x
    ensures RoundedAt(old(b.Value()), old(S.Value()), k, ilim, s, decpt - 1) && (s == [] ==> decpt == -ndigits)
  {
    ghost var B, D := b.Value(), S.Value();
    AboveZero(S);
    assert Pow10(1) == 10;
    if ilim < 0 {
      NothingToRound(B, D, ilim);
      return [], -1 - ndigits + 1;
    }
    MultAdd(S, 5, 0);
    PositiveValue(S);
    var j := Cmp(b, S);
    if j <= 0 {
      return [], -1 - ndigits + 1;
    }
    return [1], k + 1 + 1;
  }

  lemma ShiftTwice(a: nat, b: nat, v: int)
    ensures Pow(2, b) * (Pow(2, a) * v) == Pow(2, a + b) * v
  {
    PowAdd(2, b, a);
    MulAssoc(Pow(2, b), Pow(2, a), v);
  }

  /** For a number of single precision the margins are wider by the difference of the precisions. */
  function Wider(single: bool): nat {
    if single then 29 else 0
  }

  /** Shift a number, unless by nothing. */
  method ShiftUnlessZero(b: Bigint, k: nat) returns (c: Bigint)
    requires b.Positive()
    ensures c == b || (fresh(c) && fresh(c.x))
    ensures c.Positive() && c.Value() == Pow(2, k) * b.Value() && (c.x.Length >= 2 || c == b)
  {
    c := b;
    if k > 0 {
      c := LShift(b, k);
    }
  }

  /** The scaled margin, wider for single precision. */
  method ScaledMargin(mhi: Bigint, m2: nat, single: bool) returns (m: Bigint)
    requires mhi.Positive()
    ensures m == mhi || (fresh(m) && fresh(m.x))
    ensures m.Positive() && m.Value() == Pow(2, m2 + Wider(single)) * mhi.Value()
  {
    m := ShiftUnlessZero(mhi, m2);
    if single {
      ShiftTwice(m2, 29, mhi.Value());
      m := ShiftUnlessZero(m, 29);
    }
  }

  /** The margins: the scaled one, and twice that above for a power of two. */
  method Margins(mhi: Bigint, m2: nat, single: bool, twice: bool) returns (lo: Bigint, hi: Bigint)
    requires mhi.Positive()
    ensures (lo == mhi || (fresh(lo) && fresh(lo.x))) && (hi == lo || (fresh(hi) && fresh(hi.x) && Apart(lo, hi)))
    ensures lo.Positive() && hi.Positive()
    ensures lo.Value() == Pow(2, m2 + Wider(single)) * mhi.Value()
            && hi.Value() == (if twice then 2 else 1) * lo.Value()
  {
    lo := ScaledMargin(mhi, m2, single);
    hi := lo;
    if twice {
      hi := LShift(lo, 1);
      assert Pow(2, 1) == 2;
    }
  }

  /** Digits from left to right, in the modes that look at the margins. */
  method LeftRightMode(mode: int, ndigits: int, even: bool, powerOfTwo: bool, k: int, b: Bigint, S: Bigint, mhi: Bigint,
                       m2: nat, single: bool, ilim: int) returns (s: seq<int>, decpt: int)
    requires mode <= 1 || (4 <= mode <= 5 && ilim >= 1)
    requires Scaled(b, S, mhi, true) && S.Value() <= b.Value() < 10 * S.Value() && (mode <= 1 ==> ilim < 0)
    modifies b, b.x, mhi, mhi.x
    ensures Promised(mode, ndigits, even, powerOfTwo, k, old(b.Value()), old(S.Value()),
                     old(Pow(2, m2 + Wider(single)) * mhi.Value()), ilim, s, decpt)
  {
    ghost var B, D, m := b.Value(), S.Value(), Pow(2, m2 + Wider(single)) * mhi.Value();
    var lo, hi := Margins(mhi, m2, single, powerOfTwo && mode < 2);
    AboveZero(lo);
    AboveZero(hi);
    AboveZero(S);
    var k';
    s, k' := ShortestMode(b, S, lo, hi, mode == 0 && even, k, ilim);
    WithinIsPromised(mode, ndigits, even, powerOfTwo, k, B, D, m, ilim, s, k');
    decpt := k' + 1;
  }

  /** The digits of a quotient from one to ten, in the requested mode. */
  method InMode(mode: int, ndigits: int, even: bool, powerOfTwo: bool, k: int, b: Bigint, S: Bigint, mhi: Bigint,
                m2: nat, single: bool, ilim: int) returns (s: seq<int>, decpt: int)
    requires 0 <= mode <= 5 && Scaled(b, S, mhi, mode != 2 && mode != 3) && S.Value() <= b.Value() < 10 * S.Value()
    requires mode <= 1 ==> ilim < 0
    requires mode == 2 || mode == 4 ==> ilim >= 1
    modifies b, b.x, S, S.x, mhi, mhi.x
    ensures Promised(mode, ndigits, even, powerOfTwo, k, old(b.Value()), old(S.Value()),
                     if mode == 2 || mode == 3 then 0 else old(Pow(2, m2 + Wider(single)) * mhi.Value()), ilim, s,
                     decpt)
  {
    if ilim <= 0 && mode > 2 {
      s, decpt := NoDigits(ndigits, S, k, b, ilim);
    } else if mode != 2 && mode != 3 {
      s, decpt := LeftRightMode(mode, ndigits, even, powerOfTwo, k, b, S, mhi, m2, single, ilim);
    } else {
      var k';
      s, k' := FixedMode(b, S, k, ilim);
      decpt := k' + 1;
    }
  }

  lemma SwapTen(p: int, v: int)
    ensures p * (10 * v) == 10 * (p * v)
  {}

  /**
   * Digit generation from the scaled quotient b / S on: correct the exponent estimate, then generate digits in the
   * requested mode. In the modes with margins they are mhi times a power of two.
   */
  method Generate(mode: int, ndigits: int, even: bool, powerOfTwo: bool, kCheck: bool, k0: int,
                  b: Bigint, S: Bigint, mhi: Bigint, m2: nat, single: bool, ilim0: int, ilim1: int)
      returns (s: seq<int>, decpt: int)
    requires 0 <= mode <= 5 && Scaled(b, S, mhi, mode != 2 && mode != 3) && b.Value() < 10 * S.Value()
    requires if kCheck then S.Value() <= 10 * b.Value() else S.Value() <= b.Value()
    requires mode <= 2 || mode == 4 ==> ilim0 == ilim1
    requires mode <= 1 ==> ilim0 < 0
    requires mode == 2 || mode == 4 ==> ilim0 >= 1
    requires mode == 3 || mode == 5 ==> ilim0 == ndigits + k0 + 1 && ilim1 == ilim0 - 1
    modifies b, b.x, S, S.x, mhi, mhi.x
    ensures var b0, D := old(b.Value()), old(S.Value());
            var m0 := if mode == 2 || mode == 3 then 0 else old(Pow(2, m2 + Wider(single)) * mhi.Value());
            Estimated(mode, ndigits, even, powerOfTwo, k0, b0, D, m0, ilim0, ilim1, s, decpt)
  {
    var leftright := mode != 2 && mode != 3;
    if leftright { SwapTen(Pow(2, m2 + Wider(single)), mhi.Value()); }
    var k, ilim := FixEstimate(b, S, mhi, leftright, kCheck, k0, ilim0, ilim1);
    s, decpt := InMode(mode, ndigits, even, powerOfTwo, k, b, S, mhi, m2, single, ilim);
  }
}
