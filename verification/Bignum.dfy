/** Multiple-precision integers of 16-bit words and the division step of the digit generator. */
module Bignum {
  import opened Arith

  const WORD: int := 0x1_0000

  ghost predicate AllWords(s: seq<int>) {
    forall i :: 0 <= i < |s| ==> 0 <= s[i] < WORD
  }

  /** The number denoted by a little-endian sequence of words. */
  ghost function Val(s: seq<int>): int {
    if s == [] then 0 else Val(s[..|s| - 1]) + s[|s| - 1] * Pow(WORD, |s| - 1)
  }

  lemma {:induction false} ValBounds(s: seq<int>)
    requires AllWords(s)
    ensures 0 <= Val(s) < Pow(WORD, |s|)
  {
    if s == [] {
      assert Val(s) == 0 && Pow(WORD, 0) == 1;
    } else {
      var n := |s| - 1;
      ValBounds(s[..n]);
      MulLe(0, s[n], Pow(WORD, n));
      MulLe(s[n] + 1, WORD, Pow(WORD, n));
      assert (s[n] + 1) * Pow(WORD, n) == s[n] * Pow(WORD, n) + Pow(WORD, n);
    }
  }

  lemma ValSnoc(s: seq<int>, n: nat)
    requires n < |s|
    ensures Val(s[..n + 1]) == Val(s[..n]) + s[n] * Pow(WORD, n)
  {
    assert s[..n + 1][..n] == s[..n];
  }

  /** High zero words do not change the value. */
  lemma {:induction false} ValTrim(s: seq<int>, n: nat)
    requires n <= |s|
    requires forall i :: n <= i < |s| ==> s[i] == 0
    ensures Val(s) == Val(s[..n])
    decreases |s|
  {
    if n < |s| {
      ValTrim(s[..|s| - 1], n);
      assert s[..|s| - 1][..n] == s[..n];
    } else {
      assert s[..n] == s;
    }
  }

  /** A larger top word, or equal tops and larger lower words, is a larger number. */
  lemma {:induction false} ValCompare(s: seq<int>, t: seq<int>, k: nat)
    requires |s| == |t| && k < |s| && AllWords(s) && AllWords(t)
    requires s[k] < t[k] && forall i :: k < i < |s| ==> s[i] == t[i]
    ensures Val(s) < Val(t)
    decreases |s|
  {
    var n := |s| - 1;
    if k < n {
      ValCompare(s[..n], t[..n], k);
    } else {
      ValBounds(s[..n]);
      ValBounds(t[..n]);
      MulLe(s[n] + 1, t[n], Pow(WORD, n));
      assert (s[n] + 1) * Pow(WORD, n) == s[n] * Pow(WORD, n) + Pow(WORD, n);
    }
  }

  lemma ShorterIsSmaller(s: seq<int>, t: seq<int>)
    requires AllWords(s) && AllWords(t) && |s| < |t| && t[|t| - 1] > 0
    ensures Val(s) < Val(t)
  {
    var n := |t| - 1;
    ValBounds(s);
    ValBounds(t[..n]);
    PowMonotone(WORD, |s|, n);
    MulLe(1, t[n], Pow(WORD, n));
  }

  class Bigint {
    var x: array<int>
    var wds: nat

    constructor (x: array<int>, wds: nat)
      ensures this.x == x && this.wds == wds
    {
      this.x := x;
      this.wds := wds;
    }

    /** Words are 16-bit; the top word of a number of several words is not zero, and no words denote zero. */
    ghost predicate Valid()
      reads this, x
    {
      && wds <= x.Length
      && AllWords(x[..])
      && (wds >= 2 ==> x[wds - 1] != 0)
      && (wds == 0 ==> x.Length > 0 && x[0] == 0)
    }

    ghost function Value(): int
      reads this, x
      requires Valid()
    {
      Val(x[..wds])
    }

    /** Valid, of at least one word, and not zero. */
    ghost predicate Positive()
      reads this, x
    {
      Valid() && wds >= 1 && x[wds - 1] != 0
    }
  }

  /** Different numbers with different words. */
  ghost predicate Apart(b: Bigint, S: Bigint)
    reads b, S
  {
    b != S && b.x != S.x
  }

  lemma ShorterNumber(a: Bigint, b: Bigint)
    requires a.Valid() && b.Valid() && a.wds < b.wds
    ensures a.Value() < b.Value() || TwoZeros(a, b)
  {
    if b.x[b.wds - 1] != 0 {
      ShorterIsSmaller(a.x[..a.wds], b.x[..b.wds]);
    } else {
      ValTrim(b.x[..1], 0);
    }
  }

  /** Zero with one word and zero with none have the same value. */
  ghost predicate TwoZeros(a: Bigint, b: Bigint)
    requires a.Valid() && b.Valid()
    reads a, a.x, b, b.x
  {
    a.Value() == 0 == b.Value() && a.wds != b.wds
  }

  /**
   * Compare two numbers, of which one has a word at least. The sign of the result is their order, except that zero
   * with no words comes before zero with one.
   */
  method Cmp(a: Bigint, b: Bigint) returns (r: int)
    requires a.Valid() && b.Valid() && (a.wds > 0 || b.wds > 0)
    ensures !TwoZeros(a, b) ==> (r < 0 <==> a.Value() < b.Value()) && (r == 0 <==> a.Value() == b.Value())
    ensures TwoZeros(a, b) ==> r == a.wds - b.wds
  {
    r := a.wds - b.wds;
    if r != 0 {
      if r < 0 {
        ShorterNumber(a, b);
      } else {
        ShorterNumber(b, a);
      }
      return;
    }
    var n := b.wds;
    var k := n;
    while true
      invariant 0 < k <= n
      invariant forall i :: k <= i < n ==> a.x[i] == b.x[i]
      decreases k
    {
      k := k - 1;
      if a.x[k] != b.x[k] {
        if a.x[k] < b.x[k] {
          ValCompare(a.x[..n], b.x[..n], k);
          return -1;
        } else {
          ValCompare(b.x[..n], a.x[..n], k);
          return 1;
        }
      }
      if k == 0 { break; }
    }
    assert a.x[..n] == b.x[..n];
    r := 0;
  }

  /**
   * What the multiply-and-subtract loop keeps: after i words, the words written and the pending
   * borrow and carry account for the i low words of b less q times those of s.
   */
  ghost predicate Subtracted(b0: seq<int>, b: seq<int>, s: seq<int>, i: nat, q: int, pending: int)
    requires i <= |b0| && i <= |b| && i <= |s|
  {
    Val(b[..i]) + Pow(WORD, i) * pending == Val(b0[..i]) - q * Val(s[..i])
  }

  lemma WordSplit(bw: int, product: int, carry: int, borrow: int)
    ensures var ys := product + carry;
            var y := bw - ys % WORD + borrow;
            y % WORD + WORD * (y / WORD - ys / WORD) == bw - product + (borrow - carry)
  {}

  lemma WordIdentity(P: int, nw: int, pending': int, bw: int, q: int, sw: int, pending: int)
    requires nw + WORD * pending' == bw - q * sw + pending
    ensures nw * P + WORD * P * pending' == bw * P - q * (sw * P) + P * pending
  {
    calc {
      nw * P + WORD * P * pending';
      (nw + WORD * pending') * P;
      (bw - q * sw + pending) * P;
      bw * P - q * sw * P + pending * P;
    }
    assert q * sw * P == q * (sw * P);
  }

  lemma SubtractStep(b0: seq<int>, b: seq<int>, s: seq<int>, i: nat, q: int, pending: int, w: int, pending': int)
    requires i < |b0| == |b| && i < |s|
    requires Subtracted(b0, b, s, i, q, pending)
    requires w + WORD * pending' == b0[i] - q * s[i] + pending
    ensures Subtracted(b0, b[i := w], s, i + 1, q, pending')
  {
    var b' := b[i := w];
    assert b'[..i] == b[..i];
    ValSnoc(b', i);
    ValSnoc(b0, i);
    ValSnoc(s, i);
    var P := Pow(WORD, i);
    WordIdentity(P, w, pending', b0[i], q, s[i], pending);
    assert q * (Val(s[..i]) + s[i] * P) == q * Val(s[..i]) + q * (s[i] * P);
    assert Pow(WORD, i + 1) == WORD * P;
  }

  lemma NoMultipleLeft(P: int, v: int, e: int, total: int)
    requires 0 <= v < P && 0 <= total < P && v + P * e == total
    ensures e == 0
  {
    if e > 0 {
      MulLe(1, e, P);
    } else if e < 0 {
      MulLe(e, -1, P);
    }
  }

  /** Carry and borrow cancel at the last word when the subtraction does not go below zero. */
  lemma CarryAndBorrowCancel(b0: seq<int>, b: seq<int>, s: seq<int>, n: nat, q: int, pending: int)
    requires n <= |b0| && n <= |b| && n <= |s| && AllWords(b0) && AllWords(b) && AllWords(s) && q >= 0
    requires Subtracted(b0, b, s, n, q, pending) && q * Val(s[..n]) <= Val(b0[..n])
    ensures pending == 0 && Val(b[..n]) == Val(b0[..n]) - q * Val(s[..n])
  {
    ValBounds(b[..n]);
    ValBounds(b0[..n]);
    ValBounds(s[..n]);
    MulLe(0, Val(s[..n]), q);
    NoMultipleLeft(Pow(WORD, n), Val(b[..n]), pending, Val(b0[..n]) - q * Val(s[..n]));
  }

  /** The inner loop of the division step, over the lowest n words of b and s. */
  method SubtractWords(b: array<int>, s: array<int>, n: nat, q: nat) returns (ghost pending: int)
    requires b != s && 0 < n <= b.Length && n <= s.Length
    requires AllWords(b[..])
    modifies b
    ensures AllWords(b[..]) && b[n..] == old(b[n..])
    ensures Subtracted(old(b[..]), b[..], s[..], n, q, pending)
  {
    ghost var b0, s0 := b[..], s[..];
    var borrow, carry, i := 0, 0, 0;
    while true
      invariant 0 <= i < n && s[..] == s0
      invariant AllWords(b[..]) && b[i..] == b0[i..]
      invariant Subtracted(b0, b[..], s0, i, q, borrow - carry)
      decreases n - i
    {
      pending := borrow - carry;
      ghost var before := b[..];
      WordSplit(b[i], s[i] * q, carry, borrow);
      var ys := s[i] * q + carry;
      carry := ys / WORD;
      var y := b[i] - ys % WORD + borrow;
      borrow := y / WORD;
      b[i] := y % WORD;
      SubtractStep(b0, before, s0, i, q, pending, y % WORD, borrow - carry);
      assert b[..] == before[i := y % WORD];
      i := i + 1;
      if i == n { break; }
    }
    pending := borrow - carry;
  }

  /** Subtract q times the lowest n words of s from those of b, when the result is not negative. */
  method SubtractMultiple(b: array<int>, s: array<int>, n: nat, q: nat)
    requires b != s && 0 < n <= b.Length && n <= s.Length
    requires AllWords(b[..]) && AllWords(s[..])
    requires q * Val(s[..n]) <= Val(b[..n])
    modifies b
    ensures AllWords(b[..]) && b[n..] == old(b[n..])
    ensures Val(b[..n]) == old(Val(b[..n])) - q * Val(s[..n])
  {
    ghost var b0 := b[..];
    assert b0[..n] == b[..n] && s[..][..n] == s[..n];
    ghost var pending := SubtractWords(b, s, n, q);
    assert b[..][..n] == b[..n];
    CarryAndBorrowCancel(b0, b[..], s[..], n, q, pending);
  }

  lemma EstimateLow(P: int, bt: int, st: int, q: int, B: int, S: int)
    requires P > 0 && bt * P <= B && 0 <= S < (st + 1) * P && 0 <= q * (st + 1) <= bt && 0 <= q
    ensures q * S <= B
  {
    MulLe(S, (st + 1) * P, q);
    MulLe(q * (st + 1), bt, P);
    assert (st + 1) * P * q == q * (st + 1) * P;
  }

  lemma EstimateHigh(P: int, bt: int, st: int, q: int, B: int, S: int)
    requires P > 0 && B < (bt + 1) * P && st * P <= S && bt < (q + 1) * (st + 1) && 0 <= q < st
    ensures B < (q + 2) * S
  {
    assert (q + 1) * (st + 1) == q * st + q + st + 1 && (q + 2) * st == q * st + 2 * st;
    MulLe(bt + 1, (q + 2) * st, P);
    MulLe(st * P, S, q + 2);
    assert (q + 2) * st * P == st * P * (q + 2);
  }

  lemma EstimateBounds(P: int, bt: int, st: int, B: int, S: int)
    requires P > 0 && bt >= 0 && st >= 10 && B < 10 * S
    requires bt * P <= B < (bt + 1) * P && st * P <= S < (st + 1) * P
    ensures var q := bt / (st + 1); 0 <= q <= 9 && q * S <= B < (q + 2) * S
  {
    var q := bt / (st + 1);
    QuotientBounds(bt, st + 1);
    assert S > 0 by { MulLe(1, st, P); }
    assert q * S <= B by { EstimateLow(P, bt, st, q, B, S); }
    if q >= 10 { MulLe(10, q, S); }
    assert B < (q + 2) * S by { EstimateHigh(P, bt, st, q, B, S); }
  }

  lemma QuotientBounds(n: nat, d: int)
    requires d > 0
    ensures 0 <= n / d && n / d * d <= n < (n / d + 1) * d
  {
    MulDistributes(n / d, 1, d);
    assert n == d * (n / d) + n % d;
  }

  lemma TopWord(s: seq<int>)
    requires s != [] && AllWords(s)
    ensures s[|s| - 1] * Pow(WORD, |s| - 1) <= Val(s) < (s[|s| - 1] + 1) * Pow(WORD, |s| - 1)
  {
    ValBounds(s[..|s| - 1]);
    var t, P := s[|s| - 1], Pow(WORD, |s| - 1);
    assert (t + 1) * P == t * P + P;
  }

  /** The estimate from the top words never exceeds the quotient and is short of it by at most one. */
  lemma EstimateShortByAtMostOne(b: seq<int>, s: seq<int>)
    requires AllWords(b) && AllWords(s) && |b| == |s| > 0
    requires s[|s| - 1] >= 10 && Val(b) < 10 * Val(s)
    ensures var q := b[|s| - 1] / (s[|s| - 1] + 1);
            0 <= q <= 9 && q * Val(s) <= Val(b) < (q + 2) * Val(s)
  {
    TopWord(b);
    TopWord(s);
    EstimateBounds(Pow(WORD, |s| - 1), b[|s| - 1], s[|s| - 1], Val(b), Val(s));
  }

  /** Drop the zero words from index n downward, as the source does when the word at n is zero. */
  method Trim(b: Bigint, n: nat)
    requires b.wds == n + 1 <= b.x.Length && AllWords(b.x[..]) && b.x[n] == 0
    modifies b`wds
    ensures b.Valid() && b.wds <= n
    ensures b.Value() == Val(b.x[..n + 1])
  {
    var m, e := n, n - 1;
    while e > 0 && b.x[e] == 0
      invariant -1 <= e < n && m == (if n == 0 then 0 else e + 1)
      invariant forall i :: m <= i <= n ==> b.x[i] == 0
    {
      m := m - 1;
      e := e - 1;
    }
    b.wds := m;
    assert b.x[..n + 1][..m] == b.x[..m];
    ValTrim(b.x[..n + 1], m);
  }

  /** Subtract and, when the top word has become zero, trim. */
  method SubtractAndTrim(b: Bigint, S: Bigint, q: nat)
    requires b != S && b.x != S.x && b.Valid() && S.Positive() && b.wds == S.wds
    requires q * S.Value() <= b.Value()
    modifies b`wds, b.x
    ensures b.Valid() && b.wds <= old(b.wds)
    ensures b.Value() == old(b.Value()) - q * S.Value()
  {
    var n := S.wds - 1;
    SubtractMultiple(b.x, S.x, n + 1, q);
    if b.x[n] == 0 {
      Trim(b, n);
    }
  }

  /** The correction of the estimate: subtract S once more when it still fits. */
  method Correct(b: Bigint, S: Bigint) returns (extra: int)
    requires b != S && b.x != S.x && b.Valid() && S.Positive() && b.wds <= S.wds
    requires b.Value() < 2 * S.Value()
    modifies b`wds, b.x
    ensures b.Valid() && b.wds <= old(b.wds)
    ensures old(b.Value()) == extra * S.Value() + b.Value() && 0 <= b.Value() < S.Value()
    ensures 0 <= extra <= 1
  {
    ValBounds(b.x[..b.wds]);
    var c := Cmp(b, S);
    extra := 0;
    if c >= 0 {
      if b.wds < S.wds { ShorterIsSmaller(b.x[..b.wds], S.x[..S.wds]); }
      extra := 1;
      SubtractAndTrim(b, S, 1);
    }
  }

  lemma LessThanTwice(B: int, D: int, q: int, r: int)
    requires B < (q + 2) * D && r == B - q * D
    ensures r < 2 * D
  {
    assert (q + 2) * D == q * D + 2 * D;
  }

  lemma QuotientOf(B: int, D: int, q: int, r: int, extra: int, r': int)
    requires B < 10 * D && 0 < D && 0 <= q && r == B - q * D && r == extra * D + r' && 0 <= r' && 0 <= extra
    ensures B == (q + extra) * D + r' && q + extra <= 9
  {
    assert (q + extra) * D == q * D + extra * D;
    if q + extra >= 10 { MulLe(10, q + extra, D); }
  }

  /** Subtract the estimate of the quotient from the top words times S. */
  method SubtractEstimate(b: Bigint, S: Bigint) returns (q: int)
    requires b != S && b.x != S.x && b.Valid() && S.Positive() && b.wds == S.wds
    requires S.x[S.wds - 1] >= 10 && b.Value() < 10 * S.Value()
    modifies b`wds, b.x
    ensures b.Valid() && b.wds <= old(b.wds) && 0 <= q <= 9
    ensures b.Value() == old(b.Value()) - q * S.Value() && b.Value() < 2 * S.Value()
  {
    var n := S.wds;
    ghost var B, D := b.Value(), S.Value();
    q := b.x[n - 1] / (S.x[n - 1] + 1);
    EstimateShortByAtMostOne(b.x[..n], S.x[..n]);
    if q != 0 {
      SubtractAndTrim(b, S, q);
    }
    LessThanTwice(B, D, q, b.Value());
  }

  /**
   * Divide b by S in place: the result is the quotient and b becomes the remainder.
   * S is normalised by the caller so that its top word is at least 10.
   */
  method Quorem(b: Bigint, S: Bigint) returns (q: int)
    requires b != S && b.x != S.x && b.Valid() && S.Valid()
    requires S.wds >= 1 && S.x[S.wds - 1] >= 10
    requires b.wds <= S.wds && b.Value() < 10 * S.Value()
    modifies b`wds, b.x
    ensures b.Valid() && b.wds <= old(b.wds)
    ensures old(b.Value()) == q * S.Value() + b.Value() && 0 <= b.Value() < S.Value()
    ensures 0 <= q <= 9
  {
    if b.wds < S.wds {
      ValBounds(b.x[..b.wds]);
      ShorterIsSmaller(b.x[..b.wds], S.x[..S.wds]);
      return 0;
    }
    ghost var B := b.Value();
    q := SubtractEstimate(b, S);
    ghost var r := b.Value();
    var extra := Correct(b, S);
    QuotientOf(B, S.Value(), q, r, extra, b.Value());
    q := q + extra;
  }
}
