/** Powers and a few facts of non-linear arithmetic shared by the other modules. */
module Arith {

  function Pow(base: nat, e: nat): (p: nat)
    ensures base > 0 ==> p > 0
  {
    if e == 0 then 1 else base * Pow(base, e - 1)
  }

  lemma {:induction false} PowAdd(base: nat, a: nat, b: nat)
    ensures Pow(base, a + b) == Pow(base, a) * Pow(base, b)
  {
    if a == 0 {
    } else {
      PowAdd(base, a - 1, b);
      assert Pow(base, a + b) == base * Pow(base, a - 1 + b);
      MulAssoc(base, Pow(base, a - 1), Pow(base, b));
    }
  }

  lemma {:induction false} PowMonotone(base: nat, a: nat, b: nat)
    requires base >= 1 && a <= b
    ensures Pow(base, a) <= Pow(base, b)
  {
    PowAdd(base, b - a, a);
    MulLe(1, Pow(base, b - a), Pow(base, a));
  }

  lemma MulAssoc(a: int, b: int, c: int)
    ensures a * b * c == a * (b * c)
  {}

  lemma MulDistributes(a: int, b: int, c: int)
    ensures (a + b) * c == a * c + b * c
  {}

  lemma MulLe(a: int, b: int, c: int)
    requires a <= b && 0 <= c
    ensures a * c <= b * c
  {}

  lemma MulLt(a: int, b: int, c: int)
    requires a < b && 0 < c
    ensures a * c < b * c
  {}

  /** A quotient and a remainder below the divisor are the ones of division. */
  lemma DivModUnique(n: int, d: int, q: int, r: int)
    requires d > 0 && 0 <= r < d && n == q * d + r
    ensures q == n / d && r == n % d
  {
    var q', r' := n / d, n % d;
    assert n == q' * d + r' by { assert n == d * q' + r'; }
    assert (q - q') * d == r' - r;
    assert (q' - q) * d == r - r';
    if q > q' {
      MulLe(1, q - q', d);
    } else if q < q' {
      MulLe(1, q' - q, d);
    }
  }

  lemma SwapLast(a: int, b: int, c: int)
    ensures a * b * c == a * c * b
  {
    MulAssoc(a, b, c);
    MulAssoc(a, c, b);
  }

  /** A power of a base, or one for a negative exponent. */
  function Part(base: nat, e: int): (p: nat)
    ensures base > 0 ==> p > 0
  {
    if e >= 0 then Pow(base, e) else 1
  }

  lemma PowProduct(base: nat, a: nat, b: nat, p: nat, q: nat)
    requires Pow(base, a) == p && Pow(base, b) == q
    ensures Pow(base, a + b) == p * q
  {
    PowAdd(base, a, b);
  }

  lemma PowersOfTwo()
    ensures Pow(2, 0) == 1 && Pow(2, 1) == 2 && Pow(2, 2) == 4 && Pow(2, 4) == 0x10 && Pow(2, 8) == 0x100
    ensures Pow(2, 11) == 0x800 && Pow(2, 12) == 0x1000 && Pow(2, 16) == 0x1_0000
    ensures Pow(2, 31) == 0x8000_0000 && Pow(2, 32) == 0x1_0000_0000
  {
    PowProduct(2, 1, 1, 2, 2);
    PowProduct(2, 2, 2, 4, 4);
    PowProduct(2, 4, 4, 0x10, 0x10);
    PowProduct(2, 8, 8, 0x100, 0x100);
    PowProduct(2, 16, 16, 0x1_0000, 0x1_0000);
    PowProduct(2, 8, 4, 0x100, 0x10);
    assert Pow(2, 12) == 2 * Pow(2, 11) && Pow(2, 32) == 2 * Pow(2, 31);
  }

  lemma {:induction false} TenIsTwoFives(n: nat)
    ensures Pow(10, n) == Pow(2, n) * Pow(5, n)
  {
    if n == 0 {
    } else {
      TenIsTwoFives(n - 1);
      var a, c := Pow(2, n - 1), Pow(5, n - 1);
      assert 2 * a * (5 * c) == 10 * (a * c);
    }
  }
}
