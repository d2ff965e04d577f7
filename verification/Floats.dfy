/** Binary floating-point numbers: which decimals are read as one of them. */
module Floats {
  import opened Arith

  /** A format: numbers M * 2^q with M below 2^precision and q at least lowest. */
  datatype Format = Format(precision: nat, lowest: int)

  const DOUBLE: Format := Format(53, -1074)
  const SINGLE: Format := Format(24, -149)

  datatype Float = Float(M: int, q: int)

  /** The least M of full precision. */
  function Hidden(f: Format): nat
    requires f.precision >= 1
  {
    Pow(2, f.precision - 1)
  }

  /** M has the full precision, except for the lowest exponent. */
  ghost predicate Finite(f: Format, x: Float) {
    && f.precision >= 2 && x.q >= f.lowest && 0 <= x.M < Pow(2, f.precision)
    && (x.M >= Pow(2, f.precision - 1) || x.q == f.lowest)
  }

  /** A unit of M, as a multiple of 2^lowest. */
  function Unit(f: Format, x: Float): (u: nat)
    requires x.q >= f.lowest
    ensures u > 0
  {
    Pow(2, x.q - f.lowest)
  }

  /** The number as a multiple of 2^lowest. */
  ghost function Steps(f: Format, x: Float): int
    requires x.q >= f.lowest
  {
    x.M * Unit(f, x)
  }

  function Distance(a: int): int {
    if a >= 0 then a else -a
  }

  /** Of all numbers of the format x is the nearest to A / B times 2^lowest, alone or in a tie if ties count. */
  ghost predicate Nearest(f: Format, A: int, B: int, x: Float, ties: bool)
    requires Finite(f, x)
  {
    forall y :: Finite(f, y) && Steps(f, y) != Steps(f, x) ==> Nearer(A, B, Steps(f, x), Steps(f, y), ties)
  }

  ghost predicate Nearer(A: int, B: int, n: int, m: int, ties: bool) {
    Distance(A - n * B) < Distance(A - m * B) || (Distance(A - n * B) == Distance(A - m * B) && ties)
  }

  /** The gap below a number is half a unit if M is the least of full precision, and a unit otherwise. */
  ghost predicate HalfGap(f: Format, x: Float) {
    f.precision >= 2 && x.M == Pow(2, f.precision - 1) && x.q > f.lowest
  }

  /** A / B times 2^lowest lies within half the gaps around x; halfway only if ties count. */
  ghost predicate Within(f: Format, A: int, B: int, x: Float, ties: bool)
    requires Finite(f, x)
  {
    var n, u := Steps(f, x), Unit(f, x);
    var low := if HalfGap(f, x) then u else 2 * u;
    && (4 * n - low) * B <= 4 * A <= (4 * n + 2 * u) * B
    && (4 * A == (4 * n - low) * B || 4 * A == (4 * n + 2 * u) * B ==> ties)
  }

  /** The next number. */
  lemma Successor(f: Format, x: Float) returns (y: Float)
    requires Finite(f, x)
    ensures Finite(f, y) && Steps(f, y) == Steps(f, x) + Unit(f, x)
  {
    var p := f.precision;
    assert Pow(2, p) == 2 * Pow(2, p - 1);
    MulDistributes(x.M, 1, Unit(f, x));
    if x.M + 1 < Pow(2, p) {
      y := Float(x.M + 1, x.q);
    } else {
      y := Float(Pow(2, p - 1), x.q + 1);
      assert Unit(f, y) == 2 * Unit(f, x);
      MulAssoc(Pow(2, p - 1), 2, Unit(f, x));
    }
  }

  /** The number before, in half units. */
  lemma Predecessor(f: Format, x: Float) returns (y: Float)
    requires Finite(f, x) && x.M > 0
    ensures Finite(f, y) && 2 * Steps(f, y) == 2 * Steps(f, x) - (if HalfGap(f, x) then Unit(f, x) else 2 * Unit(f, x))
  {
    var p := f.precision;
    assert Pow(2, p) == 2 * Pow(2, p - 1) && Pow(2, p - 1) == 2 * Pow(2, p - 2);
    if HalfGap(f, x) {
      y := Float(Pow(2, p) - 1, x.q - 1);
      assert Unit(f, x) == 2 * Unit(f, y);
      MulAssoc(Pow(2, p - 1), 2, Unit(f, y));
      MulDistributes(Pow(2, p), -1, Unit(f, y));
    } else {
      y := Float(x.M - 1, x.q);
      MulDistributes(x.M, -1, Unit(f, x));
    }
  }

  /** Nothing lies between a number and its neighbours. */
  ghost predicate Outside(f: Format, x: Float, m: int)
    requires x.q >= f.lowest
  {
    m >= Steps(f, x) + Unit(f, x) || 2 * m <= 2 * Steps(f, x) - (if HalfGap(f, x) then Unit(f, x) else 2 * Unit(f, x))
  }

  lemma Neighbours(f: Format, x: Float, y: Float)
    requires Finite(f, x) && Finite(f, y) && Steps(f, y) != Steps(f, x)
    ensures Outside(f, x, Steps(f, y))
  {
    if y.q >= x.q {
      PowAdd(2, y.q - x.q, x.q - f.lowest);
      MulAssoc(y.M, Pow(2, y.q - x.q), Unit(f, x));
      OnTheGrid(f, x, y.M * Pow(2, y.q - x.q));
    } else {
      PowAdd(2, x.q - y.q, y.q - f.lowest);
      FinerGrid(x.M, Unit(f, x), Pow(2, f.precision), y.M, Unit(f, y), Pow(2, x.q - y.q));
    }
  }

  lemma OnTheGrid(f: Format, x: Float, k: int)
    requires x.q >= f.lowest && k * Unit(f, x) != Steps(f, x)
    ensures Outside(f, x, k * Unit(f, x))
  {
    var u := Unit(f, x);
    MulDistributes(x.M, 1, u);
    MulDistributes(x.M, -1, u);
    if k > x.M {
      MulLe(x.M + 1, k, u);
    } else if k < x.M {
      MulLe(k, x.M - 1, u);
    }
  }

  /** A number of a smaller unit lies below 2^precision such units. */
  lemma FinerGrid(M: int, u: int, P: int, m: int, v: int, c: int)
    requires 0 < v && c >= 2 && u == c * v && 0 <= m < P && 2 * M >= P
    ensures 2 * (m * v) <= 2 * (M * u) - (if 2 * M == P then u else 2 * u)
  {
    MulLe(2, c, v);
    MulLe(m, P - 1, v);
    MulLe(2 * v, u, P - 1);
    assert 2 * (m * v) <= (P - 1) * u by { assert (P - 1) * (2 * v) == 2 * ((P - 1) * v); }
    MulDistributes(P, -1, u);
    assert 2 * (M * u) == 2 * M * u by { MulAssoc(2, M, u); }
    if 2 * M > P {
      MulLe(P + 1, 2 * M, u);
      MulDistributes(P, 1, u);
    }
  }

  lemma Ends(n: int, u: int, low: int, B: int)
    ensures (4 * n - low) * B == 4 * (n * B) - low * B && (4 * n + 2 * u) * B == 4 * (n * B) + 2 * (u * B)
  {
    MulDistributes(4 * n, -low, B);
    MulDistributes(4 * n, 2 * u, B);
    MulAssoc(4, n, B);
    MulAssoc(2, u, B);
  }

  /** Within half the gaps, a number not before the neighbours is not nearer; N, M, U and L are multiples of B. */
  lemma WithinIsNearer(A: int, N: int, M: int, U: int, L: int, even: bool)
    requires U > 0 && L > 0 && 4 * N - L <= 4 * A <= 4 * N + 2 * U
    requires 4 * A == 4 * N - L || 4 * A == 4 * N + 2 * U ==> even
    requires M >= N + U || 2 * M <= 2 * N - L
    ensures Distance(A - N) < Distance(A - M) || (Distance(A - N) == Distance(A - M) && even)
  {
  }

  lemma Multiples(n: int, m: int, u: int, low: int, B: int)
    requires B > 0 && u > 0 && low > 0
    ensures u * B > 0 && low * B > 0
    ensures m >= n + u ==> m * B >= n * B + u * B
    ensures m == n + u ==> m * B == n * B + u * B
    ensures 2 * m <= 2 * n - low ==> 2 * (m * B) <= 2 * (n * B) - low * B
    ensures 2 * m == 2 * n - low ==> 2 * (m * B) == 2 * (n * B) - low * B
  {
    MulLe(1, u, B);
    MulLe(1, low, B);
    MulDistributes(n, u, B);
    MulAssoc(2, m, B);
    MulAssoc(2, n, B);
    MulDistributes(2 * n, -low, B);
    if m >= n + u { MulLe(n + u, m, B); }
    if 2 * m <= 2 * n - low { MulLe(2 * m, 2 * n - low, B); }
  }

  /** x is the nearest number exactly when the decimal lies within half the gaps around x. */
  lemma NearestExactly(f: Format, A: int, B: int, x: Float, ties: bool)
    requires Finite(f, x) && x.M > 0 && B > 0
    ensures Nearest(f, A, B, x, ties) <==> Within(f, A, B, x, ties)
  {
    var n, u := Steps(f, x), Unit(f, x);
    var low := if HalfGap(f, x) then u else 2 * u;
    Ends(n, u, low, B);
    if Nearest(f, A, B, x, ties) {
      var up := Successor(f, x);
      var down := Predecessor(f, x);
      Multiples(n, Steps(f, up), u, low, B);
      Multiples(n, Steps(f, down), u, low, B);
      assert Nearer(A, B, n, Steps(f, up), ties) && Nearer(A, B, n, Steps(f, down), ties);
    }
    if Within(f, A, B, x, ties) {
      forall y | Finite(f, y) && Steps(f, y) != n ensures Nearer(A, B, n, Steps(f, y), ties) {
        Neighbours(f, x, y);
        Multiples(n, Steps(f, y), u, low, B);
        WithinIsNearer(A, n * B, Steps(f, y) * B, u * B, low * B, ties);
      }
    }
  }
}
