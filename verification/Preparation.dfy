/** Numerator, denominator and margin before digit generation: the powers of two and five they are multiplied by. */
module Preparation {
  import opened Arith
  import opened BigMult
  import opened Bignum

  datatype Exponents = Exponents(b2: int, b5: int, m2: int, m5: int, s2: int, s5: int)

  /** The quotient of the powers is 2^e / 10^k. */
  ghost predicate Balanced(x: Exponents, e: int, k: int) {
    x.b2 - x.s2 == e - k && x.b5 - x.s5 == -k
  }

  /** The margin has so many factors less than the numerator. */
  ghost predicate MarginLess(x: Exponents, two: int, five: int) {
    x.b2 - x.m2 == two && x.b5 - x.m5 == five
  }

  /** The exponents for f 2^e / 10^k, where j is -e; those of the margin are those of the numerator. */
  method Initial(j: int, k: int) returns (x: Exponents)
    ensures Balanced(x, -j, k) && MarginLess(x, 0, 0)
    ensures x.b2 >= 0 && x.s2 >= 0 && x.s5 >= 0 && x.b5 == if k < 0 then -k else 0
  {
    var b2, s2, b5, s5;
    if j >= 0 {
      b2, s2 := 0, j;
    } else {
      b2, s2 := -j, 0;
    }
    if k >= 0 {
      b5, s5, s2 := 0, k, s2 + k;
    } else {
      b2, b5, s5 := b2 - k, -k, 0;
    }
    x := Exponents(b2, b5, b2, b5, s2, s5);
  }

  /** For a limit of ilim digits the margin has ilim factors two and ilim - 1 factors five less. */
  method Limited(x: Exponents, ilim: int) returns (y: Exponents, i: int)
    requires x.b5 >= 0 && x.m5 == x.b5 && x.s5 >= 0
    ensures y.b2 == x.b2 && y.s2 == x.s2 && y.b5 - y.s5 == x.b5 - x.s5 && y.b5 - y.m5 == ilim - 1
    ensures x.m2 - y.m2 == ilim - i && i == (if ilim < 0 then 0 else ilim)
    ensures 0 <= y.m5 && x.b5 <= y.b5 && x.s5 <= y.s5 && (ilim <= 0 ==> y.b5 == x.b5)
  {
    var j := ilim - 1;
    y := x;
    if x.m5 >= j {
      y := y.(m5 := x.m5 - j);
    } else {
      j := j - x.m5;
      y := y.(s5 := x.s5 + j, b5 := x.b5 + j, m5 := 0);
    }
    i := ilim;
    if i < 0 {
      y := y.(m2 := y.m2 - i);
      i := 0;
    }
  }

  /** Divide common factors two out. */
  method Reduce(x: Exponents) returns (y: Exponents)
    requires x.m2 >= 0 && x.s2 >= 0
    ensures y.b5 == x.b5 && y.m5 == x.m5 && y.s5 == x.s5 && 0 <= y.m2 && 0 <= y.s2
    ensures y.b2 - y.s2 == x.b2 - x.s2 && y.b2 - y.m2 == x.b2 - x.m2
    ensures x.m2 <= x.b2 ==> 0 <= y.b2
  {
    y := x;
    if x.m2 > 0 && x.s2 > 0 {
      var i := if x.m2 < x.s2 then x.m2 else x.s2;
      y := y.(b2 := x.b2 - i, m2 := x.m2 - i, s2 := x.s2 - i);
    }
  }

  /**
   * All exponents for a mode. In modes 0 and 1 the margin has i factors two less than the numerator, which is where
   * it comes to half a unit in the last place.
   */
  method Compute(j: int, k: int, mode: int, i: int, ilim: int) returns (x: Exponents)
    requires 0 <= mode <= 5 && i >= 0
    ensures Balanced(x, -j, k) && 0 <= x.b5 && 0 <= x.m5 && 0 <= x.s5 && 0 <= x.m2 && 0 <= x.s2
    ensures mode <= 1 ==> MarginLess(x, i, 0)
    ensures mode == 2 || mode == 3 ==> MarginLess(x, 0, 0)
    ensures mode >= 4 ==> MarginLess(x, ilim, ilim - 1)
    ensures mode <= 3 || ilim >= 0 ==> 0 <= x.b2
    ensures mode >= 4 && ilim <= 0 ==> x.b5 == if k < 0 then -k else 0
  {
    x := Initial(j, k);
    if mode != 2 && mode != 3 {
      var n := i;
      if mode >= 2 {
        x, n := Limited(x, ilim);
      }
      x := x.(b2 := x.b2 + n, s2 := x.s2 + n);
    }
    x := Reduce(x);
  }

  lemma FivesTogether(a: nat, c: nat, v: int)
    ensures Pow(5, c) * (Pow(5, a) * v) == Pow(5, a + c) * v
  {
    PowAdd(5, c, a);
    MulAssoc(Pow(5, c), Pow(5, a), v);
  }

  /** A power of five in a new number. */
  method FivePower(p: Powers, n: nat) returns (r: Bigint)
    requires p.Valid()
    modifies p
    ensures p.Valid() && p.Foreign(r) && Holds(r, Pow(5, n)) && fresh(r) && fresh(r.x)
    ensures n == 0 ==> r.wds == 1 && r.x[0] == 1
    ensures old(p.repr) <= p.repr && fresh(p.repr - old(p.repr))
  {
    assert Pow(5, 0) == 1;
    r := FromInt(1);
    if n > 0 {
      r := Pow5Mult(p, r, n);
    }
  }

  /** The product of the margin's power and the numerator, unless the power is one. */
  method TimesMargin(b: Bigint, mhi: Bigint, m5: nat) returns (c: Bigint)
    requires Ample(b) && Holds(mhi, Pow(5, m5)) && Apart(b, mhi)
    ensures (c == b || (fresh(c) && fresh(c.x))) && Holds(c, Pow(5, m5) * b.Value()) && Apart(c, mhi)
  {
    assert Pow(5, 0) == 1;
    c := b;
    if m5 > 0 {
      MulLe(1, mhi.Value(), b.Value());
      c := Mult(mhi, b);
    }
  }

  /** Multiply by a power of five, if any. */
  method NumeratorAlone(p: Powers, b: Bigint, b5: nat) returns (b': Bigint)
    requires p.Valid() && p.Foreign(b) && Ample(b)
    modifies p, b, b.x
    ensures p.Valid() && p.Foreign(b') && Holds(b', Pow(5, b5) * old(b.Value()))
    ensures (b' == b || (fresh(b') && fresh(b'.x))) && (b.x == old(b.x) || fresh(b.x))
    ensures old(p.repr) <= p.repr && fresh(p.repr - old(p.repr))
  {
    assert Pow(5, 0) == 1;
    b' := b;
    if b5 > 0 {
      b' := Pow5Mult(p, b, b5);
    }
  }

  /** The powers of five of the margin and of the numerator, which has at least as many. */
  method MarginAndNumerator(p: Powers, b: Bigint, b5: nat, m5: nat) returns (b': Bigint, mhi: Bigint)
    requires p.Valid() && p.Foreign(b) && Ample(b) && m5 <= b5
    modifies p, b, b.x
    ensures p.Valid() && Holds(b', Pow(5, b5) * old(b.Value())) && Holds(mhi, Pow(5, m5)) && Apart(b', mhi)
    ensures (b' == b || (fresh(b') && fresh(b'.x))) && fresh(mhi) && fresh(mhi.x) && (b.x == old(b.x) || fresh(b.x))
    ensures p.Foreign(b') && p.Foreign(mhi)
    ensures old(p.repr) <= p.repr && fresh(p.repr - old(p.repr))
  {
    FivesTogether(m5, b5 - m5, b.Value());
    mhi := FivePower(p, m5);
    var c := TimesMargin(b, mhi, m5);
    b' := NumeratorAlone(p, c, b5 - m5);
  }

  /** The numbers that digit generation starts with. Without digits from left to right there is no margin. */
  method Prepare(p: Powers, b: Bigint, x: Exponents, leftright: bool) returns (b': Bigint, S: Bigint, mhi: Bigint)
    requires p.Valid() && p.Foreign(b) && Ample(b) && x.b5 >= 0 && x.m5 >= 0 && x.s5 >= 0
    requires leftright && x.b5 > 0 ==> x.m5 <= x.b5
    modifies p, b, b.x
    ensures p.Valid() && Holds(b', Pow(5, x.b5) * old(b.Value())) && Holds(S, Pow(5, x.s5)) && Apart(b', S)
    ensures x.s5 == 0 ==> S.wds == 1 && S.x[0] == 1
    ensures leftright ==> Holds(mhi, Pow(5, if x.b5 > 0 then x.m5 else 0)) && Apart(b', mhi) && Apart(S, mhi)
    ensures (b' == b || (fresh(b') && fresh(b'.x))) && (b.x == old(b.x) || fresh(b.x))
    ensures fresh(S) && fresh(S.x) && fresh(mhi) && fresh(mhi.x) && p.Foreign(b') && p.Foreign(S) && p.Foreign(mhi)
  {
    if leftright {
      b', mhi := MarginAndNumerator(p, b, x.b5, if x.b5 > 0 then x.m5 else 0);
      S := FivePower(p, x.s5);
    } else {
      b' := NumeratorAlone(p, b, x.b5);
      S := FivePower(p, x.s5);
      mhi := S;
    }
  }
}
