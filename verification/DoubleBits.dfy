/** The significand and exponent of a double, taken from its two 32-bit words. */
module DoubleBits {
  import opened Arith
  import opened BigMult
  import opened BigOps
  import opened Bignum
  import opened BigScale
  import opened Decimal
  import opened Floats

  const HALF: int := 0x1_0000_0000

  /** The number that a double with a clear sign bit denotes. */
  function FloatOf(word0: int, word1: int): Float
  {
    var de, z := word0 / 0x10_0000, word0 % 0x10_0000;
    if de == 0 then Float(z * HALF + word1, -1074) else Float((z + 0x10_0000) * HALF + word1, de - 1075)
  }

  /** Neither zero nor infinite nor not a number, with a clear sign bit. */
  predicate Ordinary(word0: int, word1: int) {
    0 <= word0 < 0x7ff0_0000 && 0 <= word1 < HALF && (word0 > 0 || word1 > 0)
  }

  lemma PrecisionPowers()
    ensures Pow(2, 52) == 0x10_0000_0000_0000 && Pow(2, 53) == 0x20_0000_0000_0000
  {
    PowersOfTwo();
    PowProduct(2, 16, 4, 0x1_0000, 0x10);
    PowProduct(2, 20, 32, 0x10_0000, HALF);
    assert Pow(2, 53) == 2 * Pow(2, 52);
  }

  lemma FloatOfIsFinite(word0: int, word1: int)
    requires Ordinary(word0, word1)
    ensures Finite(DOUBLE, FloatOf(word0, word1)) && FloatOf(word0, word1).M > 0
  {
    PrecisionPowers();
  }

  lemma NotTwice(y: nat, z: nat, factor: nat)
    requires y == z * factor && factor > 0 && y % (factor * factor) != 0
    ensures z % factor != 0
  {
    if z % factor == 0 {
      var c := z / factor;
      assert z == c * factor;
      MulAssoc(c, factor, factor);
      Arith.DivModUnique(y, factor * factor, c, 0);
    }
  }

  /** Drop j bits if they are zero. */
  method Drop(ghost x: nat, k: nat, y: nat, j: nat, factor: nat, ghost square: nat) returns (k': nat, y': nat)
    requires x == y * Pow(2, k) && factor == Pow(2, j) && factor > 0 && square == factor * factor && y % square != 0
    ensures x == y' * Pow(2, k') && k' <= k + j && y' % factor != 0
  {
    if y % factor != 0 {
      return k, y;
    }
    PowAdd(2, k, j);
    assert y == y / factor * factor;
    SwapLast(y / factor, factor, Pow(2, k));
    MulAssoc(y / factor, Pow(2, k), factor);
    NotTwice(y, y / factor, factor);
    return k + j, y / factor;
  }

  method DropBytes(x: nat) returns (k: nat, y: nat)
    requires 0 < x < HALF
    ensures x == y * Pow(2, k) && k <= 24 && y % 0x100 != 0
  {
    PowersOfTwo();
    k, y := Drop(x, 0, x, 16, 0x1_0000, HALF);
    k, y := Drop(x, k, y, 8, 0x100, 0x1_0000);
  }

  method DropRest(ghost x: nat, k0: nat, y0: nat) returns (k: nat, y: nat)
    requires x == y0 * Pow(2, k0) && y0 % 0x100 != 0
    ensures x == y * Pow(2, k) && k <= k0 + 7 && y % 2 == 1
  {
    PowersOfTwo();
    k, y := Drop(x, k0, y0, 4, 0x10, 0x100);
    k, y := Drop(x, k, y, 2, 4, 0x10);
    k, y := Drop(x, k, y, 1, 2, 4);
  }

  /** The number of trailing zero bits of a word, and the word without them. */
  method Lo0Bits(x: nat) returns (k: nat, y: nat)
    requires 0 < x < HALF
    ensures x == y * Pow(2, k) && y % 2 == 1 && k < 32
  {
    if x % 8 != 0 {
      assert Pow(2, 0) == 1 && Pow(2, 1) == 2 && Pow(2, 2) == 4;
      if x % 2 == 1 { return 0, x; }
      if x % 4 != 0 { return 1, x / 2; }
      return 2, x / 4;
    }
    k, y := DropBytes(x);
    k, y := DropRest(x, k, y);
  }

  /** Multiplying by one factor of a word splits into the bits that leave it and those that stay. */
  lemma ShiftSplit(z: nat, C: nat, R: nat)
    requires C * R == WORD
    ensures R > 0 && z * C % WORD == z % R * C && z % R * C <= WORD - C && z * C == WORD * (z / R) + z % R * C
  {
    assert R > 0 && C > 0 by { assert C * 0 == 0 && 0 * R == 0; }
    var h, l := z / R, z % R;
    assert z == h * R + l by { assert z == R * h + l; }
    assert z * C == h * WORD + l * C by {
      MulDistributes(h * R, l, C);
      MulAssoc(h, R, C);
    }
    MulLe(l, R - 1, C);
    MulDistributes(R, -1, C);
    MulLe(0, l, C);
    DivModUnique(z * C, WORD, h, l * C);
  }

  lemma {:induction false} Val4(x: seq<int>)
    requires |x| == 4
    ensures Val(x) == x[0] + x[1] * WORD + x[2] * Pow(WORD, 2) + x[3] * Pow(WORD, 3)
  {
    assert Pow(WORD, 0) == 1 && Pow(WORD, 1) == WORD;
    assert x[..4] == x && x[..0] == [];
    ValSnoc(x, 0);
    ValSnoc(x, 1);
    ValSnoc(x, 2);
    ValSnoc(x, 3);
  }

  /** The words of y + z 2^(32 - k) for k of at least 16 bits dropped: C is 2^(32 - k) and R is 2^(k - 16). */
  lemma HighWords(y: nat, z: nat, C: nat, R: nat)
    requires C * R == WORD && y < C && z < 0x20_0000
    ensures R > 0 && z * C % WORD >= 0 && 0 <= y + z * C % WORD < WORD && z / R / WORD < WORD
    ensures Val([y + z * C % WORD, z / R % WORD, z / R / WORD, 0]) == y + z * C
  {
    ShiftSplit(z, C, R);
    var h := z / R;
    assert h <= z by { assert z == R * h + z % R; MulLe(1, R, h); }
    Val4([y + z * C % WORD, h % WORD, h / WORD, 0]);
    assert Pow(WORD, 2) == WORD * WORD by { assert Pow(WORD, 1) == WORD; }
    assert h == h % WORD + WORD * (h / WORD);
  }

  /** The words of y + z 2^(32 - k) for fewer bits dropped: C is 2^(16 - k) and R is 2^k. */
  lemma LowWords(y: nat, z: nat, C: nat, R: nat)
    requires C * R == WORD && y < C * WORD && z < 0x20_0000
    ensures R > 0 && z * C % WORD >= 0 && 0 <= y / WORD + z * C % WORD < WORD && z / R / WORD < WORD
    ensures Val([y % WORD, y / WORD + z * C % WORD, z / R % WORD, z / R / WORD]) == y + z * C * WORD
  {
    ShiftSplit(z, C, R);
    var h := z / R;
    assert h <= z by { assert z == R * h + z % R; MulLe(1, R, h); }
    Val4([y % WORD, y / WORD + z * C % WORD, h % WORD, h / WORD]);
    assert Pow(WORD, 2) == WORD * WORD && Pow(WORD, 3) == WORD * (WORD * WORD) by { assert Pow(WORD, 1) == WORD; }
    assert h == h % WORD + WORD * (h / WORD) && y == y % WORD + WORD * (y / WORD);
  }

  /** The upper words are zero, so the number has the first n. */
  lemma UpperZeros(s: seq<int>, n: nat)
    requires n <= |s| && forall i :: n <= i < |s| ==> s[i] == 0
    ensures Val(s[..n]) == Val(s)
  {
    ValTrim(s, n);
  }

  /** What is left when the trailing zero bits of the two words are dropped: an odd number. */
  ghost predicate Odd(v: int, z: int, word1: int, k: nat) {
    v > 0 && v % 2 == 1 && v * Pow(2, k) == z * HALF + word1
  }

  lemma Spread(y: int, z: int, P: int, K: int, H: int)
    requires P * K == H
    ensures (y + z * P) * K == z * H + y * K
  {
    MulDistributes(y, z * P, K);
    MulAssoc(z, P, K);
  }

  lemma OddPlusEven(y: nat, z: nat, h: nat)
    requires y % 2 == 1
    ensures y + z * (2 * h) > 0 && (y + z * (2 * h)) % 2 == 1
  {
    MulAssoc(z, 2, h);
    MulAssoc(2, z, h);
    MulLe(0, z, h);
    assert z * (2 * h) == 2 * (z * h);
  }

  lemma OddParts(y: nat, z: nat, k: nat, word1: int)
    requires k < 32 && y % 2 == 1 && word1 == y * Pow(2, k)
    ensures Odd(y + z * Pow(2, 32 - k), z, word1, k)
  {
    var h := Pow(2, 31 - k);
    PowersOfTwo();
    PowAdd(2, 32 - k, k);
    assert Pow(2, 32 - k) == 2 * h;
    Spread(y, z, 2 * h, Pow(2, k), HALF);
    OddPlusEven(y, z, h);
  }

  lemma Below(y: nat, k: nat, word1: int)
    requires k < 32 && word1 == y * Pow(2, k) && word1 < HALF
    ensures y < Pow(2, 32 - k)
  {
    PowersOfTwo();
    PowAdd(2, 32 - k, k);
    if y >= Pow(2, 32 - k) { MulLe(Pow(2, 32 - k), y, Pow(2, k)); }
  }

  lemma SixteenSplit(k: nat)
    requires k < 32
    ensures k >= 16 ==> Pow(2, 32 - k) * Pow(2, k - 16) == WORD
    ensures k <= 16 ==> Pow(2, 16 - k) * Pow(2, k) == WORD && Pow(2, 32 - k) == Pow(2, 16 - k) * WORD
  {
    PowersOfTwo();
    if k >= 16 { PowAdd(2, 32 - k, k - 16); }
    if k <= 16 {
      PowAdd(2, 16 - k, k);
      PowAdd(2, 16 - k, 16);
    }
  }

  method Store(x: array<int>, s: seq<int>)
    requires x.Length == |s| == 4
    modifies x
    ensures x[..] == s
  {
    x[0], x[1], x[2], x[3] := s[0], s[1], s[2], s[3];
  }

  lemma HighParts(y: nat, z: nat, C: nat, R: nat, s: seq<int>)
    requires C * R == WORD && y < C && z < 0x20_0000 && R > 0
    requires s == [y + z * C % WORD, z / R % WORD, z / R / WORD, 0]
    ensures AllWords(s) && Val(s[..3]) == y + z * C
  {
    HighWords(y, z, C, R);
    UpperZeros(s, 3);
  }

  method FillHigh(x: array<int>, y: nat, z: nat, C: nat, R: nat)
    requires C * R == WORD && y < C && z < 0x20_0000 && R > 0 && x.Length == 4
    modifies x
    ensures AllWords(x[..]) && Val(x[..3]) == y + z * C
  {
    var s := [y + z * C % WORD, z / R % WORD, z / R / WORD, 0];
    HighParts(y, z, C, R, s);
    Store(x, s);
    assert x[..3] == s[..3];
  }

  lemma LowParts(y: nat, z: nat, C: nat, R: nat, s: seq<int>)
    requires C * R == WORD && y < C * WORD && z < 0x20_0000 && R > 0
    requires s == [y % WORD, y / WORD + z * C % WORD, z / R % WORD, z / R / WORD]
    ensures AllWords(s) && Val(s) == y + z * C * WORD
  {
    LowWords(y, z, C, R);
  }

  method FillLow(x: array<int>, y: nat, z: nat, C: nat, R: nat)
    requires C * R == WORD && y < C * WORD && z < 0x20_0000 && R > 0 && x.Length == 4
    modifies x
    ensures AllWords(x[..]) && Val(x[..4]) == y + z * C * WORD
  {
    var s := [y % WORD, y / WORD + z * C % WORD, z / R % WORD, z / R / WORD];
    LowParts(y, z, C, R, s);
    Store(x, s);
    assert x[..4] == s;
  }

  /** The words of the significand when the lower word is not zero. */
  method BothWords(z: nat, word1: nat) returns (x: array<int>, n: nat, k: nat, ghost v: int)
    requires z < 0x20_0000 && 0 < word1 < HALF
    ensures fresh(x) && x.Length == 4 && AllWords(x[..]) && 0 < n <= 4 && k < 32
    ensures Val(x[..n]) == v && Odd(v, z, word1, k)
  {
    var y;
    k, y := Lo0Bits(word1);
    OddParts(y, z, k, word1);
    Below(y, k, word1);
    SixteenSplit(k);
    v := y + z * Pow(2, 32 - k);
    x := new int[4](_ => 0);
    if k >= 16 {
      FillHigh(x, y, z, Pow(2, 32 - k), Pow(2, k - 16));
      n := 3;
    } else {
      MulAssoc(z, Pow(2, 16 - k), WORD);
      FillLow(x, y, z, Pow(2, 16 - k), Pow(2, k));
      n := 4;
    }
  }

  lemma OddAlone(y: nat, z: nat, k: nat)
    requires y % 2 == 1 && z == y * Pow(2, k)
    ensures Odd(y, z, 0, k + 32)
  {
    PowersOfTwo();
    PowAdd(2, k, 32);
    MulAssoc(y, Pow(2, k), HALF);
  }

  /** The words of the significand when the lower word is zero. */
  method UpperWord(z: nat) returns (x: array<int>, n: nat, k: nat, ghost v: int)
    requires 0 < z < 0x20_0000
    ensures fresh(x) && x.Length == 4 && AllWords(x[..]) && 0 < n <= 4 && k < 64
    ensures Val(x[..n]) == v && Odd(v, z, 0, k)
  {
    var y;
    k, y := Lo0Bits(z);
    OddAlone(y, z, k);
    v := y;
    x := new int[4](_ => 0);
    SmallWords(y, k, z);
    if k >= 16 {
      x[0] := y;
      n := 1;
      assert x[..1] == [y];
    } else {
      x[0], x[1] := y % WORD, y / WORD;
      n := 2;
      assert x[..2] == [y % WORD, y / WORD];
    }
    k := k + 32;
  }

  lemma SmallWords(y: nat, k: nat, z: int)
    requires z == y * Pow(2, k) && z < 0x20_0000
    ensures y < WORD * WORD && (k >= 16 ==> y < WORD)
    ensures Val([y]) == y && Val([y % WORD, y / WORD]) == y
  {
    SmallBounds(y, k, z);
    OneWord(y);
    TwoWords(y % WORD, y / WORD);
  }

  lemma FactorBound(y: nat, Q: int, z: int, w: int)
    requires z == y * Q && Q >= w >= 1
    ensures w * y <= z
  {
    MulLe(w, Q, y);
  }

  lemma SmallBounds(y: nat, k: nat, z: int)
    requires z == y * Pow(2, k) && z < 0x20_0000
    ensures y < WORD * WORD && (k >= 16 ==> y < WORD)
  {
    PowMonotone(2, 0, k);
    FactorBound(y, Pow(2, k), z, 1);
    if k >= 16 {
      PowersOfTwo();
      PowMonotone(2, 16, k);
      FactorBound(y, Pow(2, k), z, WORD);
    }
  }

  lemma OneWord(y: int)
    ensures Val([y]) == y
  {
    assert [y][..1] == [y] && [y][..0] == [] && Pow(WORD, 0) == 1;
    ValSnoc([y], 0);
  }

  lemma TwoWords(a: int, b: int)
    ensures Val([a, b]) == a + WORD * b
  {
    OneWord(a);
    assert [a, b][..1] == [a] && [a, b][..2] == [a, b] && Pow(WORD, 1) == WORD;
    ValSnoc([a, b], 1);
  }

  /** Dropping k bits leaves a number of k bits less. */
  lemma BitsLess(v: int, k: nat, n: nat)
    requires v > 0 && BitLength(v * Pow(2, k), n)
    ensures k < n && BitLength(v, n - k)
  {
    MulLe(1, v, Pow(2, k));
    if k >= n { PowMonotone(2, n, k); }
    PowAdd(2, n - k, k);
    PowAdd(2, n - k - 1, k);
    CancelLt(v, Pow(2, n - k), Pow(2, k));
    CancelLt(Pow(2, n - k - 1), v, Pow(2, k));
  }

  /** The number of bits of a number with a top word of so many. */
  method CountBits(b: Bigint) returns (bits: nat)
    requires b.Positive()
    ensures BitLength(b.Value(), bits)
  {
    PowersOfTwo();
    var top := b.x[b.wds - 1];
    var zeros := Hi0Bits(top);
    NumberBits(b.x[..b.wds], 32 - zeros);
    bits := (b.wds + 1) * 16 - zeros;
  }

  /** The significand without trailing zero bits, its exponent and its number of bits. */
  method D2b(word0: int, word1: int) returns (b: Bigint, e: int, bits: nat, ghost k: nat)
    requires Ordinary(word0, word1)
    ensures fresh(b) && fresh(b.x) && Ample(b) && b.Value() % 2 == 1
    ensures var d := FloatOf(word0, word1); b.Value() * Pow(2, k) == d.M && e == d.q + k && BitLength(b.Value(), bits)
    ensures word0 >= 0x10_0000 ==> bits == 53 - k
  {
    FloatOfIsFinite(word0, word1);
    var z, de := word0 % 0x10_0000, word0 / 0x10_0000;
    if de != 0 {
      z := z + 0x10_0000;
    }
    var x, n, j;
    ghost var v;
    if word1 != 0 {
      x, n, j, v := BothWords(z, word1);
    } else {
      x, n, j, v := UpperWord(z);
    }
    k := j;
    var wds := TopNonZero(x, n);
    b := new Bigint(x, wds);
    if de != 0 {
      e := de - 1023 - 52 + j;
      NormalBits(v, k, word0, word1);
      bits := 53 - j;
    } else {
      e := de - 1023 - 52 + 1 + j;
      bits := CountBits(b);
    }
  }

  lemma NormalBits(v: int, k: nat, word0: int, word1: int)
    requires Ordinary(word0, word1) && word0 >= 0x10_0000 && v > 0 && v * Pow(2, k) == FloatOf(word0, word1).M
    ensures k < 53 && BitLength(v, 53 - k)
  {
    PrecisionPowers();
    BitsLess(v, k, 53);
  }
}
