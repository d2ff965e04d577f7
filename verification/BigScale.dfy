/** The scaling before digit generation: a common shift leaves the divisor four leading zero bits. */
module BigScale {
  import opened Arith
  import opened BigDigits
  import opened BigOps
  import opened Bignum
  import opened Decimal
  import opened Dtoa
  import opened Scaling
  import opened BigGenerate

  /** Shift a word by j more bits if it is below a limit. */
  method Halve(ghost x: nat, k: nat, y: nat, j: nat, factor: nat, limit: nat) returns (k': nat, y': nat)
    requires y == x * Pow(2, k) && factor == Pow(2, j)
    ensures y' == x * Pow(2, k') && k <= k' <= k + j && y' == if y < limit then y * factor else y
  {
    if y >= limit {
      return k, y;
    }
    PowAdd(2, k, j);
    MulAssoc(x, Pow(2, k), factor);
    return k + j, y * factor;
  }

  /** The number of leading zero bits of a 32-bit word, by halving. */
  method Hi0Bits(x: nat) returns (k: nat)
    requires x < 0x1_0000_0000
    ensures x == 0 <==> k == 32
    ensures x > 0 ==> k < 32 && Pow(2, 31 - k) <= x < Pow(2, 32 - k)
  {
    PowersOfTwo();
    var y;
    k, y := Halve(x, 0, x, 16, 0x1_0000, 0x1_0000);
    k, y := Halve(x, k, y, 8, 0x100, 0x100_0000);
    k, y := Halve(x, k, y, 4, 0x10, 0x1000_0000);
    k, y := Halve(x, k, y, 2, 4, 0x4000_0000);
    if y < 0x4000_0000 {
      return 32;
    }
    k, y := Halve(x, k, y, 1, 2, 0x8000_0000);
    BitsLeft(x, k, y);
  }

  lemma BitsLeft(x: nat, k: nat, y: int)
    requires k < 32 && y == x * Pow(2, k) && Pow(2, 31) <= y < Pow(2, 32)
    ensures Pow(2, 31 - k) <= x < Pow(2, 32 - k)
  {
    PowAdd(2, 31 - k, k);
    PowAdd(2, 32 - k, k);
    CancelLt(Pow(2, 31 - k), x, Pow(2, k));
    CancelLt(x, Pow(2, 32 - k), Pow(2, k));
  }

  /** t has exactly n bits. */
  ghost predicate BitLength(t: int, n: nat) {
    n > 0 && Pow(2, n - 1) <= t < Pow(2, n)
  }

  /** The bits to shift besides s2, so that a top word of n bits comes to have four leading zero bits. */
  method ShiftFor(top: nat, five: bool, s2: nat) returns (i: nat, ghost n: nat)
    requires 0 < top < WORD && (!five ==> top == 1)
    ensures BitLength(top, n) && n <= 16 && (n + s2 + i) % 16 == 12
  {
    PowersOfTwo();
    var bits := 1;
    if five {
      var zeros := Hi0Bits(top);
      if zeros < 16 { PowMonotone(2, 16, 31 - zeros); }
      bits := 32 - zeros;
    }
    n := bits;
    i := (bits + s2) % 16;
    if i != 0 {
      i := 16 - i;
    }
    if i > 4 {
      i := i - 4;
    } else if i < 4 {
      i := i + 28;
    } else {
      i := 0;
    }
  }

  /** A number whose top word has n bits has the bits of the lower words besides. */
  lemma NumberBits(s: seq<int>, n: nat)
    requires s != [] && AllWords(s) && BitLength(s[|s| - 1], n)
    ensures BitLength(Val(s), n + 16 * (|s| - 1))
  {
    var t, m := s[|s| - 1], |s| - 1;
    var P := Pow(WORD, m);
    TopWord(s);
    WordPower(m);
    PowAdd(2, n - 1, 16 * m);
    PowAdd(2, n, 16 * m);
    MulLe(Pow(2, n - 1), t, P);
    MulLe(t + 1, Pow(2, n), P);
  }

  lemma Between(lo: int, v: int, hi: int, c: int)
    requires lo <= v < hi && c > 0
    ensures lo * c <= c * v < hi * c
  {
    MulLe(lo, v, c);
    MulLt(v, hi, c);
  }

  lemma ShiftedBits(v: int, n: nat, k: nat)
    requires BitLength(v, n)
    ensures BitLength(Pow(2, k) * v, n + k)
  {
    PowAdd(2, n - 1, k);
    PowAdd(2, n, k);
    Between(Pow(2, n - 1), v, Pow(2, n), Pow(2, k));
  }

  /** With twelve bits more than whole words, the top word has the twelve. */
  lemma TwelveBits(c: seq<int>, q: nat)
    requires c != [] && AllWords(c) && c[|c| - 1] > 0 && BitLength(Val(c), 16 * q + 12)
    ensures 0x800 <= c[|c| - 1] < 0x1000
  {
    var u, p, P := c[|c| - 1], |c| - 1, Pow(WORD, q);
    PowersOfTwo();
    TopWord(c);
    WordPower(q);
    PowAdd(2, 11, 16 * q);
    PowAdd(2, 12, 16 * q);
    if p < q {
      PowMonotone(WORD, p + 1, q);
      MulLe(u + 1, WORD, Pow(WORD, p));
    } else if p > q {
      PowMonotone(WORD, q + 1, p);
      MulLe(1, u, Pow(WORD, p));
    } else {
      CancelLt(u, 0x1000, P);
      CancelLt(0x800, u + 1, P);
    }
  }

  lemma NormalisedByShift(s: seq<int>, c: seq<int>, n: nat, k: nat)
    requires s != [] && AllWords(s) && BitLength(s[|s| - 1], n) && (n + k) % 16 == 12
    requires c != [] && AllWords(c) && c[|c| - 1] > 0 && Val(c) == Pow(2, k) * Val(s)
    ensures 0x800 <= c[|c| - 1] < 0x1000
  {
    NumberBits(s, n);
    ShiftedBits(Val(s), n + 16 * (|s| - 1), k);
    TwelveBits(c, |s| - 1 + (n + k) / 16);
  }

  method ScaleDivisor(S: Bigint, five: bool, s2: nat) returns (S': Bigint, i: nat)
    requires S.Positive() && (!five ==> S.x[S.wds - 1] == 1)
    ensures S' == S || (fresh(S') && fresh(S'.x))
    ensures Normalised(S') && S'.Value() == Pow(2, s2 + i) * S.Value()
  {
    ghost var n;
    i, n := ShiftFor(S.x[S.wds - 1], five, s2);
    S' := ShiftUnlessZero(S, s2 + i);
    NormalisedByShift(S.x[..S.wds], S'.x[..S'.wds], n, s2 + i);
  }

  /** Shift numerator and denominator by the same further bits, so that the divisor has four leading zero bits. */
  method Scale(b: Bigint, S: Bigint, five: bool, b2: nat, m2: nat, s2: nat)
      returns (b': Bigint, S': Bigint, m2': nat, ghost i: nat)
    requires Apart(b, S) && Roomy(b) && b.Positive() && S.Positive() && (!five ==> S.x[S.wds - 1] == 1)
    ensures (b' == b || (fresh(b') && fresh(b'.x))) && (S' == S || (fresh(S') && fresh(S'.x)))
    ensures Apart(b', S') && Roomy(b') && Normalised(S') && m2' == m2 + i
    ensures b'.Value() == Pow(2, b2 + i) * b.Value() && S'.Value() == Pow(2, s2 + i) * S.Value()
  {
    var j;
    S', j := ScaleDivisor(S, five, s2);
    b' := ShiftUnlessZero(b, b2 + j);
    m2', i := m2 + j, j;
  }

  lemma CommonShift(p: nat, i: nat, v: int)
    ensures Pow(2, p + i) * v == Pow(2, i) * (Pow(2, p) * v)
  {
    PowAdd(2, i, p);
    MulAssoc(Pow(2, i), Pow(2, p), v);
  }

  /**
   * The digits of the quotient of b times 2^b2 and S times 2^s2, with margins of mhi times 2^m2, in the requested mode.
   * The shift that prepares the divisor for the division step shows in none of them.
   */
  method Digits(mode: int, ndigits: int, even: bool, powerOfTwo: bool, kCheck: bool, k0: int, b: Bigint, S: Bigint,
                mhi: Bigint, five: bool, b2: nat, m2: nat, s2: nat, single: bool, ilim0: int, ilim1: int)
      returns (s: seq<int>, decpt: int)
    requires 0 <= mode <= 5 && Apart(b, S) && Roomy(b) && b.Positive() && S.Positive()
             && (!five ==> S.x[S.wds - 1] == 1)
    requires mode != 2 && mode != 3 ==> Apart(b, mhi) && Apart(S, mhi) && mhi.Positive()
    requires Pow(2, b2) * b.Value() < 10 * (Pow(2, s2) * S.Value())
    requires Pow(2, s2) * S.Value() <= (if kCheck then 10 else 1) * (Pow(2, b2) * b.Value())
    requires mode <= 2 || mode == 4 ==> ilim0 == ilim1
    requires mode <= 1 ==> ilim0 < 0
    requires mode == 2 || mode == 4 ==> ilim0 >= 1
    requires mode == 3 || mode == 5 ==> ilim0 == ndigits + k0 + 1 && ilim1 == ilim0 - 1
    modifies b, b.x, S, S.x, mhi, mhi.x
    ensures var b0, D := old(Pow(2, b2) * b.Value()), old(Pow(2, s2) * S.Value());
            var m0 := if mode == 2 || mode == 3 then 0 else old(Pow(2, m2 + Wider(single)) * mhi.Value());
            Estimated(mode, ndigits, even, powerOfTwo, k0, b0, D, m0, ilim0, ilim1, s, decpt)
  {
    ghost var b0, D := Pow(2, b2) * b.Value(), Pow(2, s2) * S.Value();
    ghost var m0 := if mode == 2 || mode == 3 then 0 else Pow(2, m2 + Wider(single)) * mhi.Value();
    var b', S', m2';
    ghost var i;
    b', S', m2', i := Scale(b, S, five, b2, m2, s2);
    ghost var c := Pow(2, i);
    CommonShift(b2, i, b.Value());
    CommonShift(s2, i, S.Value());
    if mode != 2 && mode != 3 { CommonShift(m2 + Wider(single), i, mhi.Value()); }
    FactorKeepsRange(c, b0, D, kCheck);
    s, decpt := Generate(mode, ndigits, even, powerOfTwo, kCheck, k0, b', S', mhi, m2', single, ilim0, ilim1);
    EstimatedScales(c, mode, ndigits, even, powerOfTwo, k0, b0, D, m0, ilim0, ilim1, s, decpt);
  }

  lemma FactorKeepsRange(c: int, b: int, D: int, kCheck: bool)
    requires c > 0 && b < 10 * D && D <= (if kCheck then 10 else 1) * b
    ensures c * b < 10 * (c * D) && c * D <= (if kCheck then 10 else 1) * (c * b)
  {
    TenAndFactor(c, D);
    TenAndFactor(c, b);
    CancelLt(b, 10 * D, c);
    CancelLt(D, 10 * b, c);
    CancelLt(D, b, c);
  }
}
