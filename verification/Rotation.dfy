/** The number theory behind exchanging two adjacent blocks by cycles. */
module Rotation {
  import opened Arith

  /** Greatest common divisor, by Euclid's recursion. */
  ghost function Gcd(a: nat, b: nat): (g: nat)
    ensures a > 0 || b > 0 ==> g > 0
    decreases b
  {
    if b == 0 then a else Gcd(b, a % b)
  }

  lemma {:induction false} GcdDivides(a: nat, b: nat) returns (x: nat, y: nat)
    requires a > 0 || b > 0
    ensures a == x * Gcd(a, b) && b == y * Gcd(a, b)
    decreases b
  {
    var g := Gcd(a, b);
    if b == 0 {
      x, y := 1, 0;
    } else {
      var x', y' := GcdDivides(b, a % b);
      x, y := a / b * x' + y', x';
      MulDistributes(a / b * x', y', g);
      MulAssoc(a / b, x', g);
    }
  }

  lemma {:induction false} Bezout(a: nat, b: nat) returns (u: int, v: int)
    ensures u * a + v * b == Gcd(a, b)
    decreases b
  {
    if b == 0 {
      u, v := 1, 0;
    } else {
      var u', v' := Bezout(b, a % b);
      var q := a / b;
      u, v := v', u' - v' * q;
      calc {
        u * a + v * b;
        { MulDistributes(u', -(v' * q), b); }
        v' * a + u' * b - v' * q * b;
        { MulAssoc(v', q, b); MulDistributes(a, -(q * b), v'); }
        u' * b + v' * (a - q * b);
        { assert a == b * q + a % b; }
        u' * b + v' * (a % b);
      }
    }
  }

  /** Every common divisor divides the greatest one. */
  lemma GcdIsGreatest(a: nat, b: nat, d: nat, i: nat, j: nat)
    requires a == i * d && b == j * d && a > 0
    ensures d <= Gcd(a, b)
  {
    var u, v := Bezout(a, b);
    var m := u * i + v * j;
    assert Gcd(a, b) == m * d by {
      MulAssoc(u, i, d);
      MulAssoc(v, j, d);
      MulDistributes(u * i, v * j, d);
    }
    if m <= 0 { MulLe(m, 0, d); } else { MulLe(1, m, d); }
  }

  /**
   * Two blocks of lengths A and B, their greatest common divisor g, A == g x, B == g y, and
   * u (x + y) + w y == 1.
   */
  datatype Blocks = Blocks(A: int, B: int, g: int, x: int, y: int, u: int, w: int) {
    ghost predicate Valid() {
      && A > 0 && B > 0 && g > 0 && x > 0 && y > 0
      && A == x * g && B == y * g && u * (x + y) + w * y == 1
    }
    ghost function N(): int { A + B }
    ghost function Len(): int { x + y }
  }

  lemma MakeBlocks(A: nat, B: nat) returns (k: Blocks)
    requires A > 0 && B > 0
    ensures k.Valid() && k.A == A && k.B == B && k.g == Gcd(A, B)
  {
    var g := Gcd(A, B);
    var x, y := GcdDivides(A, B);
    var u, v := Bezout(A, B);
    assert x > 0 && y > 0;
    assert u * x + v * y == 1 by {
      MulAssoc(u, x, g);
      MulAssoc(v, y, g);
      MulDistributes(u * x, v * y, g);
      var m := u * x + v * y;
      assert m * g == 1 * g;
      if m < 1 { MulLt(m, 1, g); } else if m > 1 { MulLt(1, m, g); }
    }
    assert u * (x + y) + (v - u) * y == u * x + v * y by {
      MulDistributes(v, -u, y);
      MulDistributes(x, y, u);
    }
    k := Blocks(A, B, g, x, y, u, v - u);
  }

  /**
   * The position reached from c after t steps; a step subtracts A from a position in the second
   * block and adds B to one in the first.
   */
  ghost function Orbit(k: Blocks, c: int, t: nat): (p: int)
    requires k.Valid() && 0 <= c < k.N()
    ensures 0 <= p < k.N()
  {
    if t == 0 then c
    else
      var p := Orbit(k, c, t - 1);
      if p >= k.A then p - k.A else p + k.B
  }

  lemma ModIs(n: int, d: int, q: int, r: int)
    requires 0 <= r < d && n == q * d + r
    ensures n % d == r
  {
    DivModUnique(n, d, q, r);
  }

  /** A step is an advance by B, cyclically. */
  lemma {:induction false} OrbitIs(k: Blocks, c: int, t: nat)
    requires k.Valid() && 0 <= c < k.N()
    ensures Orbit(k, c, t) == (c + t * k.B) % k.N()
  {
    if t == 0 {
      ModIs(c, k.N(), 0, c);
    } else {
      OrbitIs(k, c, t - 1);
      MulDistributes(t, -1, k.B);
      StepIsAdvance(k, c + (t - 1) * k.B, Orbit(k, c, t - 1));
    }
  }

  lemma StepIsAdvance(k: Blocks, n: int, p: int)
    requires k.Valid() && p == n % k.N()
    ensures (n + k.B) % k.N() == if p >= k.A then p - k.A else p + k.B
  {
    var q := n / k.N();
    assert n == k.N() * q + p;
    MulDistributes(q, 1, k.N());
    if p >= k.A {
      ModIs(n + k.B, k.N(), q + 1, p - k.A);
    } else {
      ModIs(n + k.B, k.N(), q, p + k.B);
    }
  }

  lemma CycleSpan(k: Blocks)
    requires k.Valid()
    ensures k.Len() * k.g == k.N() && k.Len() * k.B == k.y * k.N()
  {
    MulDistributes(k.x, k.y, k.g);
    MulAssoc(k.Len(), k.y, k.g);
    MulAssoc(k.y, k.Len(), k.g);
  }

  /** A cycle closes after Len steps. */
  lemma OrbitCloses(k: Blocks, c: int)
    requires k.Valid() && 0 <= c < k.N()
    ensures Orbit(k, c, k.Len()) == c
  {
    CycleSpan(k);
    OrbitIs(k, c, k.Len());
    ModIs(c + k.Len() * k.B, k.N(), k.y, c);
  }

  lemma CancelFactor(a: int, b: int, g: int)
    requires g > 0 && a * g == b * g
    ensures a == b
  {
    if a < b { MulLt(a, b, g); } else if b < a { MulLt(b, a, g); }
  }

  /** Only multiples of the cycle length advance by a multiple of N. */
  lemma AdvanceIsMultiple(k: Blocks, d: int, m: int) returns (z: int)
    requires k.Valid() && d * k.B == m * k.N()
    ensures d == z * k.Len()
  {
    assert d * k.y == m * k.Len() by {
      CycleSpan(k);
      MulAssoc(d, k.y, k.g);
      MulAssoc(m, k.Len(), k.g);
      CancelFactor(d * k.y, m * k.Len(), k.g);
    }
    z := d * k.u + k.w * m;
    calc {
      d;
      d * (k.u * k.Len() + k.w * k.y);
      { MulDistributes(k.u * k.Len(), k.w * k.y, d); }
      d * (k.u * k.Len()) + d * (k.w * k.y);
      { MulAssoc(d, k.u, k.Len()); MulAssoc(k.w, d, k.y); MulAssoc(d, k.w, k.y); }
      d * k.u * k.Len() + k.w * (d * k.y);
      { MulAssoc(k.w, m, k.Len()); }
      d * k.u * k.Len() + k.w * m * k.Len();
      { MulDistributes(d * k.u, k.w * m, k.Len()); }
      z * k.Len();
    }
  }

  lemma SameResidue(n: int, n': int, d: int) returns (m: int)
    requires d > 0 && n % d == n' % d
    ensures n' - n == m * d
  {
    m := n' / d - n / d;
    assert n == d * (n / d) + n % d && n' == d * (n' / d) + n' % d;
    MulDistributes(n' / d, -(n / d), d);
  }

  /** A cycle meets each position at most once before it closes. */
  lemma OrbitDistinct(k: Blocks, c: int, s: nat, t: nat)
    requires k.Valid() && 0 <= c < k.N() && s < t < k.Len()
    ensures Orbit(k, c, s) != Orbit(k, c, t)
  {
    OrbitIs(k, c, s);
    OrbitIs(k, c, t);
    if Orbit(k, c, s) == Orbit(k, c, t) {
      var m := SameResidue(c + s * k.B, c + t * k.B, k.N());
      MulDistributes(t, -s, k.B);
      var z := AdvanceIsMultiple(k, t - s, m);
      if z <= 0 { MulLe(z, 0, k.Len()); } else { MulLe(1, z, k.Len()); }
    }
  }

  lemma ResidueShift(p: int, s: int, m: int, g: int)
    requires g > 0 && s == m * g
    ensures (p + s) % g == p % g && (p - s) % g == p % g
  {
    var r := p / g;
    assert p == g * r + p % g;
    MulDistributes(r, m, g);
    MulDistributes(r, -m, g);
    ModIs(p + s, g, r + m, p % g);
    ModIs(p - s, g, r - m, p % g);
  }

  /** A cycle stays in one residue class modulo g. */
  lemma {:induction false} OrbitResidue(k: Blocks, c: int, t: nat)
    requires k.Valid() && 0 <= c < k.N()
    ensures Orbit(k, c, t) % k.g == c % k.g
  {
    if t == 0 {
    } else {
      OrbitResidue(k, c, t - 1);
      ResidueShift(Orbit(k, c, t - 1), k.A, k.x, k.g);
      ResidueShift(Orbit(k, c, t - 1), k.B, k.y, k.g);
    }
  }

  /** m w steps advance by m g, up to a multiple of N. */
  lemma AdvanceBy(k: Blocks, m: int)
    requires k.Valid()
    ensures m * k.w * k.B == m * k.g - m * k.u * k.N()
  {
    CycleSpan(k);
    calc {
      m * k.w * k.B;
      { MulAssoc(m * k.w, k.y, k.g); }
      m * k.w * k.y * k.g;
      { MulAssoc(m, k.w, k.y); }
      m * (k.w * k.y) * k.g;
      { MulDistributes(1, -(k.u * k.Len()), m); }
      (m - m * (k.u * k.Len())) * k.g;
      { MulDistributes(m, -(m * (k.u * k.Len())), k.g); }
      m * k.g - m * (k.u * k.Len()) * k.g;
      { MulAssoc(m, k.u, k.Len()); MulAssoc(m * k.u, k.Len(), k.g); }
      m * k.g - m * k.u * k.N();
    }
  }

  /** A cycle reaches every position of its residue class. */
  lemma OrbitCovers(k: Blocks, c: int, p: int) returns (t: nat)
    requires k.Valid() && 0 <= c < k.N() && 0 <= p < k.N() && p % k.g == c % k.g
    ensures t < k.Len() && Orbit(k, c, t) == p
  {
    CycleSpan(k);
    var m := SameResidue(c, p, k.g);
    var t0 := m * k.w;
    AdvanceBy(k, m);
    t := t0 % k.Len();
    var z := t0 / k.Len();
    assert t * k.B == t0 * k.B - z * k.y * k.N() by {
      assert t0 == k.Len() * z + t;
      MulDistributes(t, z * k.Len(), k.B);
      MulAssoc(z, k.Len(), k.B);
      MulAssoc(z, k.y, k.N());
    }
    var q := -(m * k.u) - z * k.y;
    assert c + t * k.B == q * k.N() + p by {
      MulDistributes(-(m * k.u), -(z * k.y), k.N());
    }
    OrbitIs(k, c, t);
    ModIs(c + t * k.B, k.N(), q, p);
  }
}
