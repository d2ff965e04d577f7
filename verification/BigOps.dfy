/** Operations on multiple-precision integers: multiplication by a word, subtraction and the left shift. */
module BigOps {
  import opened Arith
  import opened Bignum

  /** After i words, the words written and the carry account for m times the i low words of x0, plus a. */
  ghost predicate Multiplied(x0: seq<int>, x: seq<int>, i: nat, m: int, a: int, carry: int)
    requires i <= |x0| && i <= |x|
  {
    Val(x[..i]) + Pow(WORD, i) * carry == m * Val(x0[..i]) + a && 0 <= carry < WORD
  }

  lemma MultiplyStep(x0: seq<int>, x: seq<int>, i: nat, m: int, a: int, carry: int)
    requires i < |x0| == |x| && Multiplied(x0, x, i, m, a, carry) && 0 <= x0[i] < WORD && 0 < m < WORD
    ensures var y := x0[i] * m + carry; Multiplied(x0, x[i := y % WORD], i + 1, m, a, y / WORD)
  {
    var y := x0[i] * m + carry;
    var x', P := x[i := y % WORD], Pow(WORD, i);
    assert x'[..i] == x[..i];
    ValSnoc(x', i);
    ValSnoc(x0, i);
    WordTimes(Val(x[..i]), Val(x0[..i]), P, y % WORD, y / WORD, x0[i], m, a, carry);
    CarrySmall(x0[i], m, carry);
    assert Pow(WORD, i + 1) == WORD * P;
  }

  lemma WordTimes(V: int, V0: int, P: int, w: int, c: int, xw: int, m: int, a: int, carry: int)
    requires V + P * carry == m * V0 + a && w + WORD * c == xw * m + carry
    ensures V + w * P + WORD * P * c == m * (V0 + xw * P) + a
  {
    calc {
      V + w * P + WORD * P * c;
      V + (w + WORD * c) * P;
      V + (xw * m + carry) * P;
      { MulDistributes(xw * m, carry, P); }
      V + P * carry + xw * m * P;
      m * V0 + a + xw * m * P;
      { assert xw * m * P == m * (xw * P); MulDistributes(V0, xw * P, m); }
      m * (V0 + xw * P) + a;
    }
  }

  lemma CarrySmall(w: int, m: int, carry: int)
    requires 0 <= w < WORD && 0 < m < WORD && 0 <= carry < WORD
    ensures 0 <= (w * m + carry) / WORD < WORD
  {
    MulLe(w, WORD - 1, m);
    MulLe(0, w, m);
  }

  /** Multiply the words of x by a small number and add another, leaving the last carry. */
  method MultiplyWords(x: array<int>, n: nat, m: int, a: int) returns (carry: int)
    requires 0 < n <= x.Length && AllWords(x[..]) && 0 < m < WORD && 0 <= a < WORD
    modifies x
    ensures AllWords(x[..]) && Multiplied(old(x[..n]), x[..n], n, m, a, carry)
    ensures carry == 0 && old(x[n - 1]) != 0 ==> x[n - 1] != 0
  {
    ghost var x0 := x[..n];
    var i := 0;
    carry := a;
    while true
      invariant 0 <= i < n && AllWords(x[..]) && x[i..n] == x0[i..] && Multiplied(x0, x[..n], i, m, a, carry)
      decreases n - i
    {
      ghost var before := x[..n];
      assert x[i] == x0[i];
      MultiplyStep(x0, before, i, m, a, carry);
      var y := x[i] * m + carry;
      carry := y / WORD;
      x[i] := y % WORD;
      assert x[..n] == before[i := y % WORD];
      i := i + 1;
      if i >= n {
        if x0[i - 1] != 0 { MulLe(1, x0[i - 1], m); }
        break;
      }
    }
  }

  /** Append a word, in a larger array when there is no room. */
  method AppendWord(b: Bigint, w: int)
    requires b.wds <= b.x.Length && AllWords(b.x[..]) && 0 < w < WORD
    modifies b, b.x
    ensures b.Valid() && b.wds == old(b.wds) + 1
    ensures b.x == old(b.x) || (fresh(b.x) && b.x.Length > old(b.x.Length))
    ensures b.x[..b.wds] == old(b.x[..b.wds]) + [w]
  {
    if b.wds >= b.x.Length {
      var x1 := new int[2 * b.x.Length + 1];
      forall i | 0 <= i < x1.Length { x1[i] := if i < b.wds then b.x[i] else 0; }
      assert x1[..b.wds] == b.x[..b.wds];
      b.x := x1;
    }
    b.x[b.wds] := w;
    b.wds := b.wds + 1;
  }

  lemma MultipliedValue(x0: seq<int>, x: seq<int>, m: int, a: int, carry: int)
    requires |x| == |x0| && Multiplied(x0, x, |x|, m, a, carry)
    ensures Val(if carry == 0 then x else x + [carry]) == m * Val(x0) + a
  {
    assert x[..|x|] == x && x0[..|x|] == x0;
    if carry != 0 {
      assert (x + [carry])[..|x|] == x;
    }
  }

  /** Multiply b by a small number and add another. A number of no words has no place for the addend. */
  method MultAdd(b: Bigint, m: int, a: int)
    requires b.Valid() && 0 < m < WORD && 0 <= a < WORD
    modifies b, b.x
    ensures b.x == old(b.x) || (fresh(b.x) && b.x.Length > old(b.x.Length))
    ensures old(b.wds) > 0 || a == 0 ==> b.Valid() && b.Value() == m * old(b.Value()) + a
    ensures old(b.wds) == 0 ==> b.wds == 0 && b.x[0] == a
  {
    if b.wds == 0 {
      b.x[0] := b.x[0] * m + a;
      return;
    }
    ghost var x0, n := b.x[..b.wds], b.wds;
    var carry := MultiplyWords(b.x, b.wds, m, a);
    MultipliedValue(x0, b.x[..n], m, a, carry);
    if carry != 0 {
      AppendWord(b, carry);
    }
  }

  /** A ghost of s with zero words above it. */
  ghost function Padded(s: seq<int>, n: nat): seq<int>
    requires |s| <= n
  {
    seq(n, i => if 0 <= i < |s| then s[i] else 0)
  }

  lemma PaddedValue(s: seq<int>, n: nat)
    requires |s| <= n
    ensures Val(Padded(s, n)) == Val(s)
  {
    ValTrim(Padded(s, n), |s|);
    assert Padded(s, n)[..|s|] == s;
  }

  /** One word of the subtraction, given the difference of the two words. */
  method SubtractWord(ghost xa: seq<int>, ghost pad: seq<int>, c: array<int>, i: nat, d: int, borrow: int)
      returns (borrow': int)
    requires i < |pad| && i < |xa| == c.Length && AllWords(c[..])
    requires d == xa[i] - pad[i] && Subtracted(xa, c[..], pad, i, 1, borrow)
    modifies c
    ensures AllWords(c[..]) && Subtracted(xa, c[..], pad, i + 1, 1, borrow')
  {
    var y := d + borrow;
    borrow' := y / WORD;
    SubtractStep(xa, c[..], pad, i, 1, borrow, y % WORD, borrow');
    ghost var c' := c[..][i := y % WORD];
    c[i] := y % WORD;
    assert c[..] == c';
  }

  /** The words that both numbers have, and the first in any case. */
  method SubtractCommon(a: array<int>, b: array<int>, nb: nat, c: array<int>, ghost pad: seq<int>)
      returns (i: nat, borrow: int)
    requires 0 < |pad| <= a.Length && nb <= |pad| && 0 < b.Length && nb <= b.Length
    requires forall j :: 0 <= j < |pad| && (j < nb || j == 0) ==> pad[j] == b[j]
    requires c != a && c != b && c.Length == a.Length && AllWords(c[..])
    modifies c
    ensures nb <= i <= |pad| && AllWords(c[..]) && Subtracted(a[..], c[..], pad, i, 1, borrow)
  {
    borrow, i := 0, 0;
    while true
      invariant 0 <= i < |pad| && (i == 0 || i < nb) && AllWords(c[..]) && Subtracted(a[..], c[..], pad, i, 1, borrow)
      decreases |pad| - i
    {
      borrow := SubtractWord(a[..], pad, c, i, a[i] - b[i], borrow);
      i := i + 1;
      if i >= nb { break; }
    }
  }

  /** The words that only the larger number has. */
  method SubtractBorrow(a: array<int>, n: nat, c: array<int>, ghost pad: seq<int>, i0: nat, borrow0: int)
      returns (ghost borrow: int)
    requires i0 <= n == |pad| <= a.Length && (forall j :: i0 <= j < n ==> pad[j] == 0)
    requires c != a && c.Length == a.Length && AllWords(c[..]) && Subtracted(a[..], c[..], pad, i0, 1, borrow0)
    modifies c
    ensures AllWords(c[..]) && Subtracted(a[..], c[..], pad, n, 1, borrow)
  {
    var i, borrow' := i0, borrow0;
    while i < n
      invariant i0 <= i <= n && AllWords(c[..]) && Subtracted(a[..], c[..], pad, i, 1, borrow')
    {
      borrow' := SubtractWord(a[..], pad, c, i, a[i], borrow');
      i := i + 1;
    }
    borrow := borrow';
  }

  /** Subtract the words of b from those of a, into c. Where b has no more words the borrow goes on alone. */
  method SubtractInto(a: Bigint, b: Bigint, c: array<int>)
    requires a.Valid() && b.Valid() && 0 < a.wds && b.wds <= a.wds && b.Value() <= a.Value()
    requires c != a.x && c != b.x && c.Length == a.x.Length && AllWords(c[..])
    modifies c
    ensures AllWords(c[..]) && Val(c[..a.wds]) == a.Value() - b.Value()
  {
    ghost var n, xa, pad := a.wds, a.x[..], Padded(b.x[..b.wds], a.wds);
    PaddedValue(b.x[..b.wds], n);
    var i, borrow := SubtractCommon(a.x, b.x, b.wds, c, pad);
    ghost var last := SubtractBorrow(a.x, a.wds, c, pad, i, borrow);
    assert xa[..n] == a.x[..n] && pad[..n] == pad && c[..][..n] == c[..n];
    CarryAndBorrowCancel(xa, c[..], pad, n, 1, last);
  }

  /** Drop the high zero words of a number that is not zero. */
  method TopNonZero(c: array<int>, n: nat) returns (m: nat)
    requires 0 < n <= c.Length && Val(c[..n]) > 0
    ensures 0 < m <= n && c[m - 1] != 0 && Val(c[..m]) == Val(c[..n])
  {
    m := n;
    while c[m - 1] == 0
      invariant 0 < m <= n && Val(c[..m]) == Val(c[..n])
      decreases m
    {
      assert c[..m][..m - 1] == c[..m - 1];
      ValTrim(c[..m], m - 1);
      m := m - 1;
    }
  }

  /**
   * The difference of two numbers, in a new number, and whether the second is the larger. Zero with one word and zero
   * with none may not be compared: they count as different.
   */
  method Diff(a: Bigint, b: Bigint) returns (c: Bigint, sign: bool)
    requires a.Valid() && b.Valid() && (a.wds > 0 || b.wds > 0) && !TwoZeros(a, b)
    ensures fresh(c) && fresh(c.x) && c.Valid() && c.wds > 0
    ensures c.Value() == (if sign then b.Value() - a.Value() else a.Value() - b.Value())
    ensures sign <==> a.Value() < b.Value()
  {
    var i := Cmp(a, b);
    if i == 0 {
      var x := new int[1](_ => 0);
      c := new Bigint(x, 1);
      ValTrim(c.x[..1], 0);
      return c, false;
    }
    sign := i < 0;
    if sign {
      c := Difference(b, a);
    } else {
      c := Difference(a, b);
    }
  }

  /** The difference of a number and a smaller one. */
  method Difference(a: Bigint, b: Bigint) returns (c: Bigint)
    requires a.Valid() && b.Valid() && b.Value() < a.Value()
    ensures fresh(c) && fresh(c.x) && c.Valid() && c.wds > 0 && c.Value() == a.Value() - b.Value()
  {
    ValBounds(b.x[..b.wds]);
    if a.wds < b.wds { ShorterNumber(a, b); }
    var x := new int[a.x.Length](_ => 0);
    SubtractInto(a, b, x);
    var m := TopNonZero(x, a.wds);
    c := new Bigint(x, m);
  }

  /** The size of the array that the shift allocates: the old one, doubled until it holds n1 words. */
  function Capacity(size: nat, n1: nat): (c: nat)
    requires size > 0
    ensures c >= n1 && c >= size
    decreases n1 - size
  {
    if n1 > size then Capacity(2 * size, n1) else size
  }

  /** Shifting a word by k bits, the low bits filled with those carried in, is multiplying and adding. */
  lemma ShiftWord(x: nat, M: nat, R: nat, z: nat)
    requires M * R == WORD && z < M && x < WORD
    ensures x * M % WORD + z == (x * M + z) % WORD && x / R == (x * M + z) / WORD && x / R < M
  {
    var q, r := x / R, x % R;
    assert x == q * R + r by { assert x == R * q + r; }
    MulDistributes(q * R, r, M);
    assert q * R * M == q * WORD by { MulAssoc(q, R, M); }
    MulLe(r + 1, R, M);
    assert (r + 1) * M == r * M + M;
    MulLe(0, r, M);
    DivModUnique(x * M, WORD, q, r * M);
    DivModUnique(x * M + z, WORD, q, r * M + z);
    if q >= M { MulLe(M, q, R); }
  }

  lemma {:induction false} WordPower(n: nat)
    ensures Pow(WORD, n) == Pow(2, 16 * n)
  {
    if n == 0 {
    } else {
      WordPower(n - 1);
      PowAdd(2, 16, 16 * (n - 1));
      assert Pow(2, 8) == 256 && Pow(2, 16) == WORD by { PowAdd(2, 8, 8); }
    }
  }

  /** Low zero words multiply by a power of the word. */
  lemma {:induction false} ValAbove(s: seq<int>, n: nat)
    requires n <= |s| && forall i :: 0 <= i < n ==> s[i] == 0
    ensures Val(s) == Pow(WORD, n) * Val(s[n..])
    decreases |s|
  {
    if n == |s| {
      ValTrim(s, 0);
      assert s[..0] == [] == s[n..];
    } else {
      var m := |s| - 1;
      ValAbove(s[..m], n);
      assert s[..m][n..] == s[n..][..m - n];
      PowAdd(WORD, n, m - n);
      AboveStep(Pow(WORD, n), Pow(WORD, m - n), Val(s[..m][n..]), s[m]);
    }
  }

  lemma AboveStep(P: int, Q: int, v: int, w: int)
    ensures P * v + w * (P * Q) == P * (v + w * Q)
  {
    assert w * (P * Q) == P * (w * Q);
    MulDistributes(v, w * Q, P);
  }

  lemma PowerSplit(k: nat)
    ensures Pow(2, k) == Pow(WORD, k / 16) * Pow(2, k % 16)
  {
    WordPower(k / 16);
    PowAdd(2, 16 * (k / 16), k % 16);
  }

  lemma BitsOfWord(bits: nat)
    requires bits < 16
    ensures Pow(2, bits) * Pow(2, 16 - bits) == WORD && 0 < Pow(2, bits) < WORD
  {
    PowAdd(2, bits, 16 - bits);
    WordPower(1);
    PowMonotone(2, bits, 15);
    assert Pow(2, 16) == 2 * Pow(2, 15);
  }

  /** Shift one word, filling its low bits with those shifted out of the one below. */
  method ShiftOne(ghost x0: seq<int>, xw: int, c: array<int>, n: nat, i: nat, M: nat, R: nat, z: nat) returns (z': nat)
    requires i < |x0| && n + |x0| <= c.Length && x0[i] == xw && 0 <= xw < WORD && AllWords(c[..])
    requires M * R == WORD && 0 < M < WORD && R > 0 && z < M && Multiplied(x0, c[n..n + |x0|], i, M, 0, z)
    modifies c
    ensures AllWords(c[..]) && c[..n] == old(c[..n]) && z' < M && Multiplied(x0, c[n..n + |x0|], i + 1, M, 0, z')
    ensures z' == 0 && xw != 0 ==> c[n + i] != 0
  {
    ghost var before := c[n..n + |x0|];
    ShiftWord(xw, M, R, z);
    MultiplyStep(x0, before, i, M, 0, z);
    if xw != 0 { MulLe(1, xw, M); }
    // The low bits of the shifted word are zero, so filling them in is adding.
    var w := xw * M % WORD + z;
    c[n + i] := w;
    z' := xw / R;
    assert c[n..n + |x0|] == before[i := w];
  }

  /** Shift the words of x by some bits into c from index n on, leaving the bits shifted out. */
  method ShiftBits(x: array<int>, m: nat, c: array<int>, n: nat, bits: nat) returns (z: int)
    requires 0 < m <= x.Length && n + m <= c.Length && 0 < bits < 16 && c != x && AllWords(x[..]) && AllWords(c[..])
    modifies c
    ensures AllWords(c[..]) && c[..n] == old(c[..n])
    ensures Multiplied(x[..m], c[n..n + m], m, Pow(2, bits), 0, z)
    ensures z == 0 && x[m - 1] != 0 ==> c[n + m - 1] != 0
  {
    var M, R := Pow(2, bits), Pow(2, 16 - bits);
    BitsOfWord(bits);
    ghost var x0 := x[..m];
    var i := 0;
    z := 0;
    while true
      invariant 0 <= i < m && AllWords(c[..]) && c[..n] == old(c[..n]) && 0 <= z < M
      invariant Multiplied(x0, c[n..n + m], i, M, 0, z)
      decreases m - i
    {
      z := ShiftOne(x0, x[i], c, n, i, M, R, z);
      i := i + 1;
      if i >= m { break; }
    }
  }

  /** Copy the words of x into c from index n on. */
  method CopyWords(x: array<int>, m: nat, c: array<int>, n: nat)
    requires 0 < m <= x.Length && n + m <= c.Length && c != x && AllWords(x[..]) && AllWords(c[..])
    modifies c
    ensures AllWords(c[..]) && c[..n] == old(c[..n]) && c[n..n + m] == x[..m]
  {
    var i := 0;
    while true
      invariant 0 <= i < m && AllWords(c[..]) && c[..n] == old(c[..n]) && c[n..n + i] == x[..i]
      decreases m - i
    {
      c[n + i] := x[i];
      i := i + 1;
      if i >= m { break; }
    }
  }

  /** The words of x shifted by n words and some bits are in c, and z holds the bits shifted out. */
  ghost predicate ShiftedWords(x: seq<int>, c: seq<int>, n: nat, M: int, z: int) {
    && n + |x| <= |c| && (forall i :: 0 <= i < n ==> c[i] == 0)
    && Multiplied(x, c[n..n + |x|], |x|, M, 0, z)
    && (z != 0 ==> n + |x| < |c| && c[n + |x|] == z)
    && (z == 0 && x != [] && x[|x| - 1] != 0 ==> c[n + |x| - 1] != 0)
  }

  lemma ShiftedValue(x: seq<int>, c: seq<int>, n: nat, M: int, z: int)
    requires ShiftedWords(x, c, n, M, z)
    ensures Val(c[..n + |x| + (if z == 0 then 0 else 1)]) == Pow(WORD, n) * (M * Val(x))
  {
    var words := c[n..n + |x|];
    MultipliedValue(x, words, M, 0, z);
    AboveWords(c, n, if z == 0 then words else words + [z], M * Val(x));
  }

  lemma AboveWords(c: seq<int>, n: nat, d: seq<int>, v: int)
    requires n + |d| <= |c| && c[n..n + |d|] == d && Val(d) == v && forall i :: 0 <= i < n ==> c[i] == 0
    ensures Val(c[..n + |d|]) == Pow(WORD, n) * v
  {
    assert c[..n + |d|][n..] == d;
    ValAbove(c[..n + |d|], n);
  }

  lemma NothingShifted(c: seq<int>, n: nat, M: int, z: int)
    requires ShiftedWords([0], c, n, M, z) && 0 <= c[n] < WORD
    ensures z == 0 && c[n] == 0 && Val(c[..n]) == 0
  {
    var w := c[n];
    assert c[n..n + 1] == [w] && [w][..1] == [w] && [0][..1] == [0] && Pow(WORD, 1) == WORD;
    assert [0][..0] == [] == [w][..0];
    assert Val([0]) == 0 && Val([w]) == w;
    ValTrim(c[..n], 0);
  }

  /** Shift the words of x by k bits into c, which holds zeros. */
  method ShiftWords(x: array<int>, m: nat, c: array<int>, k: nat) returns (z: int)
    requires 0 < m <= x.Length && c != x && AllWords(x[..]) && AllWords(c[..])
    requires forall i :: 0 <= i < c.Length ==> c[i] == 0
    requires c.Length >= k / 16 + m && (k % 16 != 0 ==> c.Length > k / 16 + m)
    modifies c
    ensures AllWords(c[..]) && ShiftedWords(x[..m], c[..], k / 16, Pow(2, k % 16), z)
  {
    var n := k / 16;
    ghost var low := c[..n];
    if k % 16 != 0 {
      z := ShiftBits(x, m, c, n, k % 16);
      ghost var words := c[n..n + m];
      c[n + m] := z;
      assert c[..n] == low && c[..][n..n + m] == c[n..n + m] == words;
    } else {
      CopyWords(x, m, c, n);
      assert c[..n] == low && c[..][n..n + m] == c[n..n + m] == x[..m];
      z := 0;
    }
    forall i | 0 <= i < n ensures c[i] == 0 { assert low[i] == c[..n][i]; }
  }

  /** The size for the shifted number. */
  method Grown(size: nat, n1: nat) returns (i: nat)
    requires size > 0
    ensures i == Capacity(size, n1)
  {
    i := size;
    while n1 > i
      invariant 0 < i && Capacity(i, n1) == Capacity(size, n1)
    {
      i := 2 * i;
    }
  }

  /** The words of a valid number. */
  ghost predicate Number(c: seq<int>, wds: nat) {
    && wds <= |c| && AllWords(c)
    && (wds >= 2 ==> c[wds - 1] != 0)
    && (wds == 0 ==> |c| > 0 && c[0] == 0)
  }

  /** The first wds words of c are those of x shifted left by k bits. */
  ghost predicate ShiftOf(x: seq<int>, c: seq<int>, wds: nat, k: nat) {
    && wds <= |c| && AllWords(c) && Val(c[..wds]) == Pow(2, k) * Val(x)
    && (x != [] && x[|x| - 1] != 0 ==> 0 < wds && c[wds - 1] != 0)
    && ((|x| >= 2 ==> x[|x| - 1] != 0) && k < 16 ==> Number(c, wds))
  }

  lemma ShiftOfWords(x: seq<int>, c: seq<int>, wds: nat, k: nat, z: int)
    requires wds == k / 16 + |x| + (if z == 0 then 0 else 1) && x != []
    requires ShiftedWords(x, c, k / 16, Pow(2, k % 16), z) && AllWords(c)
    ensures ShiftOf(x, c, wds, k)
  {
    ShiftedValue(x, c, k / 16, Pow(2, k % 16), z);
    PowerSplit(k);
    MulAssoc(Pow(WORD, k / 16), Pow(2, k % 16), Val(x));
  }

  lemma ShiftOfNothing(c: seq<int>, k: nat, z: int)
    requires ShiftedWords([0], c, k / 16, Pow(2, k % 16), z) && AllWords(c)
    ensures z == 0 && ShiftOf([], c, k / 16, k)
  {
    NothingShifted(c, k / 16, Pow(2, k % 16), z);
  }

  method ShiftArray(b: Bigint, k: nat) returns (x: array<int>, wds: nat)
    requires b.Valid() && (b.wds == 0 && k % 16 != 0 ==> Capacity(b.x.Length, k / 16 + 1) > k / 16 + 1)
    ensures fresh(x) && x.Length > b.wds && ShiftOf(b.x[..b.wds], x[..], wds, k)
  {
    var n1 := k / 16 + b.wds + 1;
    var size := Grown(b.x.Length, n1);
    x := new int[size](_ => 0);
    var m := if b.wds == 0 then 1 else b.wds;
    var z := ShiftWords(b.x, m, x, k);
    if z != 0 { n1 := n1 + 1; }
    wds := n1 - 1;
    if b.wds == 0 {
      assert b.x[..1] == [0] && b.x[..b.wds] == [];
      ShiftOfNothing(x[..], k, z);
    } else {
      ShiftOfWords(b.x[..b.wds], x[..], wds, k, z);
    }
  }

  /**
   * Shift left by k bits, into a new number. A number of no words still has one word shifted, so there must be room for
   * that word and the bits shifted out of it.
   */
  method LShift(b: Bigint, k: nat) returns (c: Bigint)
    requires b.Valid() && (b.wds == 0 && k % 16 != 0 ==> Capacity(b.x.Length, k / 16 + 1) > k / 16 + 1)
    ensures fresh(c) && fresh(c.x) && c.wds <= c.x.Length && b.wds < c.x.Length && AllWords(c.x[..])
    ensures Val(c.x[..c.wds]) == Pow(2, k) * b.Value()
    ensures b.Positive() ==> c.Positive()
    ensures k < 16 ==> c.Valid()
  {
    var x, wds := ShiftArray(b, k);
    ghost var words := x[..];
    c := new Bigint(x, wds);
    assert c.x[..] == words && c.x[..wds] == words[..wds];
  }
}
