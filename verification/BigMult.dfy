/** Products of multiple-precision integers and multiplication by powers of five. */
module BigMult {
  import opened Arith
  import opened BigOps
  import opened Bignum

  /** The lower words and the upper ones. */
  lemma {:induction false} ValSplit(s: seq<int>, n: nat)
    requires n <= |s|
    ensures Val(s) == Val(s[..n]) + Pow(WORD, n) * Val(s[n..])
    decreases |s|
  {
    if n == |s| {
      assert s[..n] == s && s[n..] == [];
    } else {
      var m := |s| - 1;
      ValSplit(s[..m], n);
      assert s[..m][..n] == s[..n] && s[..m][n..] == s[n..][..m - n];
      PowAdd(WORD, n, m - n);
      AboveStep(Pow(WORD, n), Pow(WORD, m - n), Val(s[n..][..m - n]), s[m]);
    }
  }

  /** After i words, the words written and the carry account for those of w0 and y times those of a. */
  ghost predicate Added(a: seq<int>, w0: seq<int>, w: seq<int>, i: nat, y: int, carry: int)
    requires i <= |a| && i <= |w0| && i <= |w|
  {
    Val(w[..i]) + Pow(WORD, i) * carry == Val(w0[..i]) + y * Val(a[..i]) && 0 <= carry < WORD
  }

  lemma AddStep(a: seq<int>, w0: seq<int>, w: seq<int>, i: nat, y: int, carry: int)
    requires i < |a| && i < |w0| == |w| && Added(a, w0, w, i, y, carry)
    requires 0 <= a[i] < WORD && 0 <= y < WORD && 0 <= w0[i] < WORD
    ensures var z := a[i] * y + w0[i] + carry; Added(a, w0, w[i := z % WORD], i + 1, y, z / WORD)
  {
    var z := a[i] * y + w0[i] + carry;
    var w', P := w[i := z % WORD], Pow(WORD, i);
    assert w'[..i] == w[..i];
    ValSnoc(w', i);
    ValSnoc(w0, i);
    ValSnoc(a, i);
    WordAdds(Val(w[..i]), Val(w0[..i]), Val(a[..i]), P, z % WORD, z / WORD, a[i], w0[i], y, carry);
    SumSmall(a[i], y, w0[i], carry);
    assert Pow(WORD, i + 1) == WORD * P;
  }

  lemma WordAdds(V: int, V0: int, A: int, P: int, w: int, c: int, aw: int, xw: int, y: int, carry: int)
    requires V + P * carry == V0 + y * A && w + WORD * c == aw * y + xw + carry
    ensures V + w * P + WORD * P * c == V0 + xw * P + y * (A + aw * P)
  {
    calc {
      V + w * P + WORD * P * c;
      V + (w + WORD * c) * P;
      V + (aw * y + xw + carry) * P;
      { MulDistributes(aw * y + xw, carry, P); MulDistributes(aw * y, xw, P); }
      V0 + y * A + xw * P + aw * y * P;
      { assert aw * y * P == y * (aw * P); MulDistributes(A, aw * P, y); }
      V0 + xw * P + y * (A + aw * P);
    }
  }

  lemma SumSmall(aw: int, y: int, xw: int, carry: int)
    requires 0 <= aw < WORD && 0 <= y < WORD && 0 <= xw < WORD && 0 <= carry < WORD
    ensures 0 <= (aw * y + xw + carry) / WORD < WORD
  {
    MulLe(aw, WORD - 1, y);
    MulLe(0, aw, y);
  }

  method AddWord(ghost a0: seq<int>, ghost w0: seq<int>, aw: int, y: int, c: array<int>, n: nat, j: nat, carry: int)
      returns (carry': int)
    requires j < |a0| == |w0| && n + |w0| <= c.Length && AllWords(c[..]) && 0 <= aw < WORD && 0 <= y < WORD
             && a0[j] == aw
    requires c[n + j..n + |w0|] == w0[j..] && Added(a0, w0, c[n..n + |w0|], j, y, carry)
    modifies c
    ensures AllWords(c[..]) && c[..n] == old(c[..n]) && c[n + |w0|..] == old(c[n + |w0|..])
    ensures c[n + j + 1..n + |w0|] == w0[j + 1..] && Added(a0, w0, c[n..n + |w0|], j + 1, y, carry')
  {
    ghost var before := c[n..n + |w0|];
    assert c[n + j] == c[n + j..n + |w0|][0] == w0[j];
    AddStep(a0, w0, before, j, y, carry);
    var z := aw * y + c[n + j] + carry;
    carry' := z / WORD;
    c[n + j] := z % WORD;
    assert c[n..n + |w0|] == before[j := z % WORD];
  }

  /** Add y times the words of a to those of c from index n on. */
  method AddWords(a: array<int>, wa: nat, y: int, c: array<int>, n: nat) returns (carry: int)
    requires 0 < wa <= a.Length && n + wa <= c.Length && a != c && AllWords(a[..]) && AllWords(c[..]) && 0 <= y < WORD
    modifies c
    ensures AllWords(c[..]) && c[..n] == old(c[..n]) && c[n + wa..] == old(c[n + wa..])
    ensures Added(a[..wa], old(c[n..n + wa]), c[n..n + wa], wa, y, carry)
  {
    ghost var w0, a0 := c[n..n + wa], a[..wa];
    var j := 0;
    carry := 0;
    while true
      invariant 0 <= j < wa && AllWords(c[..]) && c[..n] == old(c[..n]) && c[n + wa..] == old(c[n + wa..])
      invariant c[n + j..n + wa] == w0[j..] && Added(a0, w0, c[n..n + wa], j, y, carry)
      decreases wa - j
    {
      carry := AddWord(a0, w0, a[j], y, c, n, j, carry);
      j := j + 1;
      if j >= wa { break; }
    }
  }

  /** The same with the last carry behind them. */
  method AddMultiple(a: array<int>, wa: nat, y: int, c: array<int>, n: nat)
    requires 0 < wa <= a.Length && n + wa < c.Length && a != c && AllWords(a[..]) && AllWords(c[..]) && 0 <= y < WORD
    modifies c
    ensures AllWords(c[..]) && c[..n] == old(c[..n]) && c[n + wa + 1..] == old(c[n + wa + 1..])
    ensures Val(c[n..n + wa + 1]) == old(Val(c[n..n + wa])) + y * Val(a[..wa])
  {
    ghost var w0, rest := c[n..n + wa], c[n + wa + 1..];
    var carry := AddWords(a, wa, y, c, n);
    ghost var w := c[n..n + wa];
    AddedValue(a[..wa], w0, w, y, carry);
    assert c[n + wa + 1..] == c[n + wa..][1..] == rest;
    c[n + wa] := carry;
    assert c[n..n + wa + 1] == w + [carry];
  }

  lemma AddedValue(a: seq<int>, w0: seq<int>, w: seq<int>, y: int, carry: int)
    requires |a| == |w0| == |w| && Added(a, w0, w, |w|, y, carry)
    ensures Val(w + [carry]) == Val(w0) + y * Val(a)
  {
    var n, d := |w|, w + [carry];
    assert a[..n] == a && w0[..n] == w0 && w[..n] == w;
    assert Val(d) == Val(w) + carry * Pow(WORD, n) by {
      assert d[..n] == w && d[..n + 1] == d;
      ValSnoc(d, n);
    }
  }

  lemma Concatenated(low: seq<int>, w: seq<int>)
    ensures Val(low + w) == Val(low) + Pow(WORD, |low|) * Val(w)
  {
    ValSplit(low + w, |low|);
    assert (low + w)[..|low|] == low && (low + w)[|low|..] == w;
  }

  /** What is added to the middle words counts as often as the words below allow. */
  lemma MiddleAdded(low: seq<int>, w: seq<int>, w': seq<int>, high: seq<int>, d: int)
    requires |w| == |w'| && Val(w') == Val(w) + d
    ensures Val(low + (w' + high)) == Val(low + (w + high)) + Pow(WORD, |low|) * d
  {
    Concatenated(low, w + high);
    Concatenated(w, high);
    Concatenated(low, w' + high);
    Concatenated(w', high);
    SumAdded(Val(low), Pow(WORD, |low|), Val(w + high), Val(w' + high), d);
  }

  lemma SumAdded(low: int, P: int, v: int, v': int, d: int)
    requires v' == v + d
    ensures low + P * v' == low + P * v + P * d
  {
    MulDistributes(v, d, P);
  }

  lemma Parts(c: seq<int>, low: seq<int>, w: seq<int>, high: seq<int>)
    requires |c| == |low| + |w| + |high| && c[..|low|] == low && c[|low|..|low| + |w|] == w && c[|low| + |w|..] == high
    ensures c == low + (w + high)
  {
  }

  lemma RowAdded(c: seq<int>, c': seq<int>, n: nat, m: nat, d: int)
    requires n <= m <= |c| == |c'| && c'[..n] == c[..n] && c'[m..] == c[m..] && Val(c'[n..m]) == Val(c[n..m]) + d
    ensures Val(c') == Val(c) + Pow(WORD, n) * d
  {
    var low, w, w', high := c[..n], c[n..m], c'[n..m], c[m..];
    Parts(c, low, w, high);
    Parts(c', low, w', high);
    MiddleAdded(low, w, w', high, d);
  }

  /** One row of the multiplication. */
  method AddRow(a: array<int>, wa: nat, y: int, c: array<int>, n: nat)
    requires 0 < wa <= a.Length && n + wa < c.Length && a != c && AllWords(a[..]) && AllWords(c[..]) && 0 <= y < WORD
    requires forall j :: n + wa <= j < c.Length ==> c[j] == 0
    modifies c
    ensures AllWords(c[..]) && (forall j :: n + wa < j < c.Length ==> c[j] == 0)
    ensures Val(c[..]) == old(Val(c[..])) + Pow(WORD, n) * (y * Val(a[..wa]))
  {
    ghost var c0, m := c[..], n + wa + 1;
    assert c0[n..m][..wa] == c0[n..n + wa];
    ValTrim(c0[n..m], wa);
    AddMultiple(a, wa, y, c, n);
    assert c[..][n..m] == c[n..m] && c[..][..n] == c[..n] && c[..][m..] == c[m..];
    RowAdded(c0, c[..], n, m, y * Val(a[..wa]));
    forall j | n + wa < j < c.Length ensures c[j] == 0 { assert c[m..][j - m] == c0[m..][j - m]; }
  }

  lemma ProductSum(A: int, B: int, B': int, y: int, P: int)
    requires B' == B + y * P
    ensures A * B + P * (y * A) == A * B'
  {
    MulDistributes(B, y * P, A);
    assert P * (y * A) == A * (y * P);
  }

  /** The words of the product of a number and a shorter one, into zeros. */
  method MultiplyInto(a: array<int>, wa: nat, b: array<int>, wb: nat, c: array<int>)
    requires wb <= wa <= a.Length && wb <= b.Length && wa + wb <= c.Length && c != a && c != b
    requires AllWords(a[..]) && AllWords(b[..]) && (forall j :: 0 <= j < c.Length ==> c[j] == 0)
    modifies c
    ensures AllWords(c[..]) && (forall j :: wa + wb <= j < c.Length ==> c[j] == 0)
    ensures Val(c[..]) == Val(a[..wa]) * Val(b[..wb])
  {
    ghost var A, B := Val(a[..wa]), 0;
    ValTrim(c[..], 0);
    var i := 0;
    while i < wb
      invariant 0 <= i <= wb && AllWords(c[..]) && (forall j :: wa + i <= j < c.Length ==> c[j] == 0)
      invariant B == Val(b[..i]) && Val(c[..]) == A * B
    {
      var y := b[i];
      if y != 0 {
        AddRow(a, wa, y, c, i);
      }
      assert b[..wb][..i] == b[..i] && b[..wb][..i + 1] == b[..i + 1];
      ValSnoc(b[..wb], i);
      ProductSum(A, B, Val(b[..i + 1]), y, Pow(WORD, i));
      B := Val(b[..i + 1]);
      i := i + 1;
    }
  }

  /** Drop the high zero words, down to none. */
  method TrimZeros(c: array<int>, n: nat) returns (m: nat)
    requires n <= c.Length && forall j :: n <= j < c.Length ==> c[j] == 0
    ensures m <= n && (m > 0 ==> c[m - 1] != 0) && Val(c[..m]) == Val(c[..])
    ensures m == 0 && c.Length > 0 ==> c[0] == 0
  {
    m := n;
    while m > 0 && c[m - 1] == 0
      invariant m <= n && forall j :: m <= j < c.Length ==> c[j] == 0
    {
      m := m - 1;
    }
    assert c[..][..m] == c[..m];
    ValTrim(c[..], m);
  }

  /** The product of a number and one of no more words, in a new number. */
  method MultLonger(a: Bigint, b: Bigint) returns (c: Bigint)
    requires a.Valid() && b.Valid() && b.wds <= a.wds
    ensures fresh(c) && fresh(c.x) && c.Valid() && c.Value() == a.Value() * b.Value() && c.x.Length >= a.x.Length
  {
    var wc := a.wds + b.wds;
    var x := new int[if wc > a.x.Length then 2 * a.x.Length else a.x.Length](_ => 0);
    MultiplyInto(a.x, a.wds, b.x, b.wds, x);
    wc := TrimZeros(x, wc);
    c := new Bigint(x, wc);
  }

  /** The product of two numbers. */
  method Mult(a: Bigint, b: Bigint) returns (c: Bigint)
    requires a.Valid() && b.Valid()
    ensures fresh(c) && fresh(c.x) && c.Valid() && c.Value() == a.Value() * b.Value()
    ensures c.x.Length >= (if a.wds < b.wds then b.x.Length else a.x.Length)
  {
    if a.wds < b.wds {
      c := MultLonger(b, a);
    } else {
      c := MultLonger(a, b);
    }
  }

  /** A number of one word. */
  method FromInt(i: int) returns (b: Bigint)
    requires 0 <= i < WORD
    ensures fresh(b) && fresh(b.x) && b.Valid() && b.Value() == i && b.x.Length == 2 && b.wds == 1 && b.x[0] == i
  {
    var x := new int[2](_ => 0);
    x[0] := i;
    b := new Bigint(x, 1);
    assert b.x[..1] == [i] && [i][..0] == [] && [i][..1] == [i];
    ValSnoc([i], 0);
  }

  /** 625 squared i times: five to the power 4, 8, 16 and so on. */
  function Fifth(i: nat): (p: nat)
    ensures p > 0
  {
    if i == 0 then 625 else Square(Fifth(i - 1))
  }

  function Square(p: nat): (q: nat)
    ensures p > 0 ==> q > 0
  {
    p * p
  }

  /** A positive number with room for two words. */
  ghost predicate Ample(b: Bigint)
    reads b, b.x
  {
    b.Valid() && b.Value() > 0 && b.x.Length >= 2
  }

  ghost predicate Holds(b: Bigint, v: int)
    reads b, b.x
  {
    Ample(b) && b.Value() == v
  }

  /** The powers of five made so far, which are kept and never changed. */
  class Powers {
    var list: seq<Bigint>
    ghost var repr: set<object>

    ghost predicate Valid()
      reads this, repr
    {
      forall i :: 0 <= i < |list| ==> list[i] in repr && list[i].x in repr && Holds(list[i], Fifth(i))
    }

    /** The number b is none of them. */
    ghost predicate Foreign(b: Bigint)
      reads this, b
    {
      b !in repr && b.x !in repr && b != this as object
    }

    constructor ()
      ensures Valid() && list == [] && repr == {}
    {
      list, repr := [], {};
    }

    /** The i-th power, made from the one before when first asked for. */
    method Get(i: nat) returns (p: Bigint)
      requires Valid() && i <= |list|
      modifies this
      ensures Valid() && i < |list| && p == list[i] && old(repr) <= repr && fresh(repr - old(repr))
    {
      if i == |list| {
        if i == 0 {
          p := FromInt(625);
        } else {
          var q := list[i - 1];
          p := Mult(q, q);
        }
        assert Holds(p, Fifth(i));
        list, repr := list + [p], repr + {p, p.x};
      }
      p := list[i];
    }
  }

  lemma {:induction false} PowSquare(p: nat, m: nat)
    ensures Pow(Square(p), m) == Pow(p, 2 * m)
  {
    if m == 0 {
    } else {
      PowSquare(p, m - 1);
      assert Pow(p, 2 * m) == p * (p * Pow(p, 2 * m - 2));
      MulAssoc(p, p, Pow(p, 2 * m - 2));
    }
  }

  lemma OddExponent(v: int, p: nat, h: nat)
    ensures v * p * Pow(Square(p), h) == v * Pow(p, 2 * h + 1)
  {
    PowSquare(p, h);
    var q := Pow(p, 2 * h);
    assert Pow(p, 2 * h + 1) == p * q;
    MulAssoc(v, p, q);
  }

  /** The number times what is left of the power is the total. */
  ghost predicate Left(r: Bigint, p: nat, n: nat, total: int)
    reads r, r.x
  {
    Ample(r) && r.Value() * Pow(p, n) == total
  }

  lemma NothingLeft(r: Bigint, p: nat, total: int)
    requires Left(r, p, 0, total)
    ensures Holds(r, total)
  {
    assert Pow(p, 0) == 1;
  }

  /** Multiply for an odd exponent; with the square of the factor the exponent is halved. */
  method HalveExponent(r: Bigint, p5: Bigint, ghost p: nat, n: nat, ghost total: int) returns (r': Bigint)
    requires Left(r, p, n, total) && Holds(p5, p)
    ensures Left(r', Square(p), n / 2, total)
    ensures r' == r || (fresh(r') && fresh(r'.x))
  {
    r' := r;
    if n % 2 == 1 {
      OddExponent(r.Value(), p, n / 2);
      MulLe(1, p, r.Value());
      r' := Mult(r, p5);
    } else {
      PowSquare(p, n / 2);
    }
  }

  /** One turn of the multiplication by a power of 625. */
  method FifthTurn(p: Powers, r: Bigint, i: nat, n: nat, ghost total: int) returns (r': Bigint)
    requires p.Valid() && p.Foreign(r) && i <= |p.list| && Left(r, Fifth(i), n, total)
    modifies p
    ensures p.Valid() && p.Foreign(r') && i < |p.list| && Left(r', Fifth(i + 1), n / 2, total)
    ensures old(p.repr) <= p.repr && fresh(p.repr - old(p.repr))
    ensures r' == r || (fresh(r') && fresh(r'.x))
  {
    var p5 := p.Get(i);
    r' := HalveExponent(r, p5, Fifth(i), n, total);
  }

  /** Multiply by a power of 625, by repeated squaring. */
  method MultiplyFifths(p: Powers, b: Bigint, k: nat) returns (r: Bigint)
    requires p.Valid() && p.Foreign(b) && Ample(b) && k > 0
    modifies p
    ensures p.Valid() && p.Foreign(r) && Holds(r, b.Value() * Pow(625, k))
    ensures r == b || (fresh(r) && fresh(r.x))
    ensures old(p.repr) <= p.repr && fresh(p.repr - old(p.repr))
  {
    ghost var total := b.Value() * Pow(625, k);
    var n, i := k, 0;
    r := b;
    while true
      invariant n > 0 && i <= |p.list| && p.Valid() && p.Foreign(r) && Left(r, Fifth(i), n, total)
      invariant r == b || (fresh(r) && fresh(r.x))
      invariant old(p.repr) <= p.repr && fresh(p.repr - old(p.repr))
      decreases n
    {
      r := FifthTurn(p, r, i, n, total);
      n := n / 2;
      i := i + 1;
      if n == 0 { break; }
    }
    NothingLeft(r, Fifth(i), total);
  }

  lemma {:induction false} FourthPower(m: nat)
    ensures Pow(625, m) == Pow(5, 4 * m)
  {
    if m == 0 {
    } else {
      FourthPower(m - 1);
      PowAdd(5, 4, 4 * (m - 1));
      SmallFives();
    }
  }

  lemma SmallFives()
    ensures Pow(5, 0) == 1 && Pow(5, 1) == 5 && Pow(5, 2) == 25 && Pow(5, 3) == 125 && Pow(5, 4) == 625
  {
  }

  lemma FivesSplit(v: int, k: nat)
    ensures Pow(5, k % 4) * v * Pow(625, k / 4) == Pow(5, k) * v
  {
    FourthPower(k / 4);
    PowAdd(5, k % 4, 4 * (k / 4));
    SwapLast(Pow(5, k % 4), v, Pow(625, k / 4));
  }

  /** Multiply by five to the power k modulo 4. */
  method FewFives(b: Bigint, i: nat)
    requires Ample(b) && i < 4
    modifies b, b.x
    ensures Holds(b, Pow(5, i) * old(b.Value())) && (b.x == old(b.x) || fresh(b.x))
  {
    SmallFives();
    if i != 0 {
      ghost var v := b.Value();
      MultAdd(b, [5, 25, 125][i - 1], 0);
    }
  }

  /** Multiply by a power of five. */
  method Pow5Mult(p: Powers, b: Bigint, k: nat) returns (r: Bigint)
    requires p.Valid() && p.Foreign(b) && Ample(b)
    modifies p, b, b.x
    ensures p.Valid() && p.Foreign(r) && Holds(r, Pow(5, k) * old(b.Value()))
    ensures r == b || (fresh(r) && fresh(r.x))
    ensures b.x == old(b.x) || fresh(b.x)
    ensures old(p.repr) <= p.repr && fresh(p.repr - old(p.repr))
  {
    FivesSplit(b.Value(), k);
    FewFives(b, k % 4);
    r := b;
    if k / 4 > 0 {
      r := MultiplyFifths(p, b, k / 4);
    }
  }

  /** A negative exponent shifted right stays negative, so the loop over its bits never comes to an end. */
  lemma NegativeNeverZero(k: int, n: nat)
    requires k < 0
    ensures k / Pow(2, n) < 0
  {
    var P := Pow(2, n);
    assert k == P * (k / P) + k % P;
  }
}
