/** The Base64 encoding bit by bit: every six bits of the bytes are one character of the alphabet. */
module Base64Bits {
  import opened Arith
  import opened Base64Text

  const UPPER := "ABCDEFGHIJKLMNOPQRSTUVWXYZ"
  const LOWER := "abcdefghijklmnopqrstuvwxyz"
  const OTHERS := "0123456789+/"
  const ALPHABET := UPPER + LOWER + OTHERS

  lemma Below26(v: int)
    requires 0 <= v < 26
    ensures |UPPER| == |LOWER| == 26 && UPPER[v] as int == 65 + v && LOWER[v] as int == 97 + v
  {
    assert v in {0, 1, 2, 3, 4, 5, 6, 7, 8, 9, 10, 11, 12, 13, 14, 15, 16, 17, 18, 19, 20, 21, 22, 23, 24, 25};
  }

  lemma Below12(v: int)
    requires 0 <= v < 12
    ensures |OTHERS| == 12 && OTHERS[v] as int == if v < 10 then 48 + v else if v == 10 then 43 else 47
  {
    assert v in {0, 1, 2, 3, 4, 5, 6, 7, 8, 9, 10, 11};
  }

  /** The letters are the characters of the alphabet in order. */
  lemma LetterIsAlphabet(v: int)
    requires 0 <= v < 64
    ensures |ALPHABET| == 64 && Letter(v) == ALPHABET[v] as int
  {
    Below26(if v < 26 then v else if v < 52 then v - 26 else 0);
    Below12(if v < 52 then 0 else v - 52);
  }

  type Value = v: int | 0 <= v < 64

  /** The characters with these values. */
  function Spell(vs: seq<Value>): (t: seq<Byte>)
    ensures |t| == |vs|
  {
    if vs == [] then [] else [Letter(vs[0])] + Spell(vs[1..])
  }

  /** A number in so many bits, the highest first. */
  function Bin(x: int, w: nat): (r: seq<int>)
    ensures |r| == w
    decreases w
  {
    if w == 0 then [] else Bin(x / 2, w - 1) + [x % 2]
  }

  /** Numbers of so many bits one after another. */
  function Bits(s: seq<int>, w: nat): seq<int> {
    if s == [] then [] else Bin(s[0], w) + Bits(s[1..], w)
  }

  function Repeat(c: int, n: nat): (r: seq<int>)
    ensures |r| == n && forall i :: 0 <= i < n ==> r[i] == c
  {
    if n == 0 then [] else [c] + Repeat(c, n - 1)
  }

  // ---- bits of numbers ----

  lemma {:induction false} BinJoin(h: nat, l: nat, w: nat, m: nat)
    requires l < Pow(2, m)
    ensures Bin(h * Pow(2, m) + l, w + m) == Bin(h, w) + Bin(l, m)
    decreases m
  {
    var x := h * Pow(2, m) + l;
    if m == 0 {
      assert Bin(h, w) + [] == Bin(h, w);
    } else {
      var P := h * Pow(2, m - 1);
      assert h * Pow(2, m) == 2 * P by { MulAssoc(h, 2, Pow(2, m - 1)); MulAssoc(2, h, Pow(2, m - 1)); }
      assert x / 2 == P + l / 2 && x % 2 == l % 2;
      BinJoin(h, l / 2, w, m - 1);
      assert Bin(h, w) + (Bin(l / 2, m - 1) + [l % 2]) == Bin(h, w) + Bin(l / 2, m - 1) + [l % 2];
    }
  }

  lemma SmallPowers()
    ensures Pow(2, 6) == 64 && Pow(2, 8) == 256
  {
    assert Pow(2, 2) == 4 && Pow(2, 4) == 4 * Pow(2, 2) && Pow(2, 6) == 4 * Pow(2, 4) && Pow(2, 8) == 4 * Pow(2, 6);
  }

  lemma Concat3(a: seq<int>, b: seq<int>, c: seq<int>)
    ensures a + (b + c) == a + b + c
  {
  }

  lemma {:induction false} BitsAppend(s: seq<int>, t: seq<int>, w: nat)
    ensures Bits(s + t, w) == Bits(s, w) + Bits(t, w)
  {
    if s == [] {
      assert s + t == t;
    } else {
      BitsAppend(s[1..], t, w);
      assert (s + t)[0] == s[0] && (s + t)[1..] == s[1..] + t;
      Concat3(Bin(s[0], w), Bits(s[1..], w), Bits(t, w));
    }
  }

  lemma BitsThree(x: int, y: int, z: int, w: nat)
    ensures Bits([x, y, z], w) == Bin(x, w) + Bin(y, w) + Bin(z, w)
  {
    assert [x, y, z][1..] == [y, z] && [y, z][1..] == [z] && [z][1..] == [];
    assert Bits([z], w) == Bin(z, w) && Bits([y, z], w) == Bin(y, w) + Bin(z, w);
  }

  lemma BitsFour(v0: int, v1: int, v2: int, v3: int, w: nat)
    ensures Bits([v0, v1, v2, v3], w) == Bin(v0, w) + (Bin(v1, w) + Bin(v2, w)) + Bin(v3, w)
  {
    BitsThree(v1, v2, v3, w);
    assert [v0, v1, v2, v3][1..] == [v1, v2, v3];
    Concat3(Bin(v0, w), Bin(v1, w) + Bin(v2, w), Bin(v3, w));
  }

  /** Three bytes have the bits of the number they make. */
  lemma BytesBits(x: nat, y: nat, z: nat, w: nat)
    requires x < 256 && y < 256 && z < 256 && w == 8
    ensures Bits([x, y, z], w) == Bin(x * 65536 + y * 256 + z, w + w + w)
  {
    SmallPowers();
    assert x * 65536 + y * 256 + z == (x * 256 + y) * 256 + z;
    BinJoin(x * 256 + y, z, w + w, w);
    BinJoin(x, y, w, w);
    BitsThree(x, y, z, w);
  }

  /** Three sextets have the bits of the number they make. */
  lemma ThreeSextets(v0: nat, v1: nat, v2: nat, d: nat, w: nat)
    requires v1 < 64 && v2 < 64 && w == 6 && d == (v0 * 64 + v1) * 64 + v2
    ensures Bin(d, w + w + w) == Bin(v0, w) + (Bin(v1, w) + Bin(v2, w))
  {
    SmallPowers();
    BinJoin(v0 * 64 + v1, v2, w + w, w);
    BinJoin(v0, v1, w, w);
    Concat3(Bin(v0, w), Bin(v1, w), Bin(v2, w));
  }

  lemma FourSextets(v0: nat, v1: nat, v2: nat, v3: nat, d: nat, w: nat)
    requires v1 < 64 && v2 < 64 && v3 < 64 && w == 6 && d == (v0 * 64 + v1) * 64 + v2
    ensures Bin(d * 64 + v3, w + w + w + w) == Bin(v0, w) + (Bin(v1, w) + Bin(v2, w)) + Bin(v3, w)
  {
    ThreeSextets(v0, v1, v2, d, w);
    SmallPowers();
    BinJoin(d, v3, w + w + w, w);
  }

  /** And so have four. */
  lemma SextetsBits(v0: nat, v1: nat, v2: nat, v3: nat, w: nat)
    requires v0 < 64 && v1 < 64 && v2 < 64 && v3 < 64 && w == 6
    ensures Bits([v0, v1, v2, v3], w) == Bin(Joined(v0, v1, v2, v3), w + w + w + w)
  {
    var d := (v0 * 64 + v1) * 64 + v2;
    assert Joined(v0, v1, v2, v3) == d * 64 + v3;
    FourSextets(v0, v1, v2, v3, d, w);
    BitsFour(v0, v1, v2, v3, w);
  }

  lemma {:induction false} BitsLength(s: seq<int>, w: nat)
    ensures |Bits(s, w)| == |s| * w
  {
    if s == [] {
    } else {
      BitsLength(s[1..], w);
      assert |s| * w == w + (|s| - 1) * w by { MulDistributes(1, |s| - 1, w); }
    }
  }

  lemma BitsPrefix(s: seq<int>, w: nat, n: nat)
    requires n <= |s|
    ensures n * w <= |Bits(s, w)| && Bits(s[..n], w) == Bits(s, w)[..n * w]
  {
    assert s == s[..n] + s[n..];
    BitsAppend(s[..n], s[n..], w);
    BitsLength(s[..n], w);
  }

  lemma {:induction false} BinZero(w: nat)
    ensures Bin(0, w) == Repeat(0, w)
  {
    if w == 0 {
    } else {
      BinZero(w - 1);
      RepeatSnoc(0, w - 1);
    }
  }

  lemma {:induction false} RepeatSnoc(c: int, n: nat)
    ensures Repeat(c, n) + [c] == Repeat(c, n + 1)
  {
  }

  lemma RepeatIs(c: int, s: seq<int>)
    requires forall i :: 0 <= i < |s| ==> s[i] == c
    ensures s == Repeat(c, |s|)
  {
  }

  // ---- encoding ----

  /** t has the characters with these values, and padding behind. */
  ghost predicate Spelled(t: seq<Byte>, vs: seq<Value>, pads: nat) {
    t == Spell(vs) + Repeat('=' as int, pads)
  }

  /** The values have the bits of the bytes, and zeros behind. */
  ghost predicate SameBits(vs: seq<int>, b: seq<int>, w6: nat, w8: nat, zeros: nat) {
    Bits(vs, w6) == Bits(b, w8) + Repeat(0, zeros)
  }

  /** The first of four sextets and of three bytes that have the same bits. */
  lemma StreamPrefix(all: seq<int>, v: seq<int>, n: nat, w6: nat, w8: nat)
    requires |all| == 3 && |v| == 4 && 1 <= n <= 3 && w6 == 6 && w8 == 8 && Bits(v, w6) == Bits(all, w8)
    requires forall i :: n <= i < 3 ==> all[i] == 0
    ensures Bits(v[..n + 1], w6) == Bits(all[..n], w8) + Repeat(0, 6 * (n + 1) - 8 * n)
  {
    BitsPrefix(v, w6, n + 1);
    BitsPrefix(all, w8, n);
    ZeroTail(all, w8, n);
    ZerosBetween(Bits(all, w8), 8 * n, 6 * (n + 1));
  }

  lemma ZerosBetween(F: seq<int>, k: nat, m: nat)
    requires k <= m <= |F| && forall i :: k <= i < |F| ==> F[i] == 0
    ensures F[..m] == F[..k] + Repeat(0, m - k)
  {
    RepeatIs(0, F[k..m]);
    assert F[..m] == F[..k] + F[k..m];
  }

  /** The sextets of three bytes have their bits. */
  lemma WordStream(x: nat, y: nat, z: nat, d: int, w6: nat, w8: nat)
    requires x < 256 && y < 256 && z < 256 && d == x * 65536 + y * 256 + z && w6 == 6 && w8 == 8
    ensures Bits([Sextet(d, 0), Sextet(d, 1), Sextet(d, 2), Sextet(d, 3)], w6) == Bits([x, y, z], w8)
  {
    SextetsJoin(d);
    SextetsBits(Sextet(d, 0), Sextet(d, 1), Sextet(d, 2), Sextet(d, 3), w6);
    BytesBits(x, y, z, w8);
  }

  /** Zeros after one to three bytes. */
  function Filled(b: seq<Byte>): (r: seq<int>)
    requires 1 <= |b| <= 3
    ensures |r| == 3 && r[..|b|] == b && forall i :: |b| <= i < 3 ==> r[i] == 0
  {
    [b[0], if |b| >= 2 then b[1] else 0, if |b| == 3 then b[2] else 0]
  }

  lemma {:induction false} SpellAppend(vs: seq<Value>, us: seq<Value>)
    ensures Spell(vs + us) == Spell(vs) + Spell(us)
  {
    if vs == [] {
      assert vs + us == us;
    } else {
      SpellAppend(vs[1..], us);
      assert (vs + us)[0] == vs[0] && (vs + us)[1..] == vs[1..] + us;
      Concat3([Letter(vs[0])], Spell(vs[1..]), Spell(us));
    }
  }

  lemma SpellOne(v: Value)
    ensures Spell([v]) == [Letter(v)]
  {
    assert [v][1..] == [];
  }

  lemma SpellFour(v0: Value, v1: Value, v2: Value, v3: Value)
    ensures Spell([v0, v1]) == [Letter(v0), Letter(v1)] && Spell([v0, v1, v2]) == [Letter(v0), Letter(v1), Letter(v2)]
    ensures Spell([v0, v1, v2, v3]) == [Letter(v0), Letter(v1), Letter(v2), Letter(v3)]
  {
    SpellOne(v0);
    SpellOne(v1);
    SpellOne(v2);
    SpellOne(v3);
    SpellAppend([v0], [v1]);
    SpellAppend([v0, v1], [v2]);
    SpellAppend([v0, v1, v2], [v3]);
    assert [v0] + [v1] == [v0, v1] && [v0, v1] + [v2] == [v0, v1, v2] && [v0, v1, v2] + [v3] == [v0, v1, v2, v3];
  }

  lemma GroupSpelled(b: seq<Byte>, v: seq<Value>)
    requires 1 <= |b| <= 3
    requires |v| == 4 && v[0] == Sextet(Word(b), 0) && v[1] == Sextet(Word(b), 1)
    requires v[2] == Sextet(Word(b), 2) && v[3] == Sextet(Word(b), 3)
    ensures EncodeGroup(b) == Spell(v[..|b| + 1]) + Repeat('=' as int, 3 - |b|)
  {
    SpellFour(v[0], v[1], v[2], v[3]);
    assert v[..2] == [v[0], v[1]] && v[..3] == [v[0], v[1], v[2]] && v[..4] == [v[0], v[1], v[2], v[3]];
    assert Repeat('=' as int, 0) == [] && Repeat('=' as int, 1) == [PAD] && Repeat('=' as int, 2) == [PAD, PAD];
  }

  /** The sextets of one to three bytes. */
  lemma GroupValues(b: seq<Byte>, w6: nat, w8: nat) returns (v: seq<Value>)
    requires 1 <= |b| <= 3 && w6 == 6 && w8 == 8
    ensures |v| == 4 && Bits(v, w6) == Bits(Filled(b), w8)
    ensures EncodeGroup(b) == Spell(v[..|b| + 1]) + Repeat('=' as int, 3 - |b|)
  {
    var d, r := Word(b), Filled(b);
    v := [Sextet(d, 0), Sextet(d, 1), Sextet(d, 2), Sextet(d, 3)];
    WordStream(r[0], r[1], r[2], d, w6, w8);
    assert r == [r[0], r[1], r[2]];
    GroupSpelled(b, v);
  }

  /** The bits of zeros are zeros. */
  lemma {:induction false} ZeroTail(s: seq<int>, w: nat, n: nat)
    requires n <= |s| && forall i :: n <= i < |s| ==> s[i] == 0
    ensures n * w <= |Bits(s, w)| && forall i :: n * w <= i < |Bits(s, w)| ==> Bits(s, w)[i] == 0
  {
    BitsPrefix(s, w, n);
    BitsAppend(s[..n], s[n..], w);
    assert s == s[..n] + s[n..];
    ZeroBits(s[n..], w);
  }

  lemma {:induction false} ZeroBits(s: seq<int>, w: nat)
    requires forall i :: 0 <= i < |s| ==> s[i] == 0
    ensures forall i :: 0 <= i < |Bits(s, w)| ==> Bits(s, w)[i] == 0
  {
    if s == [] {
    } else {
      BinZero(w);
      ZeroBits(s[1..], w);
    }
  }

  lemma SpelledFirst(g: seq<Byte>, t: seq<Byte>, vs0: seq<Value>, vs: seq<Value>, pads: nat)
    requires Spelled(g, vs0, 0) && Spelled(t, vs, pads)
    ensures Spelled(g + t, vs0 + vs, pads)
  {
    SpellAppend(vs0, vs);
    assert g == Spell(vs0);
    Concat3(g, Spell(vs), Repeat('=' as int, pads));
  }

  lemma SameBitsFirst(vs0: seq<int>, vs: seq<int>, b0: seq<int>, b: seq<int>, w6: nat, w8: nat, zeros: nat)
    requires SameBits(vs0, b0, w6, w8, 0) && SameBits(vs, b, w6, w8, zeros)
    ensures SameBits(vs0 + vs, b0 + b, w6, w8, zeros)
  {
    BitsAppend(vs0, vs, w6);
    BitsAppend(b0, b, w8);
    assert Bits(vs0, w6) == Bits(b0, w8);
    Concat3(Bits(b0, w8), Bits(b, w8), Repeat(0, zeros));
  }

  lemma GroupEncodes(b: seq<Byte>, w6: nat, w8: nat) returns (vs: seq<Value>)
    requires 1 <= |b| <= 3 && w6 == 6 && w8 == 8
    ensures |vs| == |b| + 1
    ensures Spelled(EncodeGroup(b), vs, 3 - |b|) && SameBits(vs, b, w6, w8, 6 - 2 * |b|)
  {
    var v := GroupValues(b, w6, w8);
    StreamPrefix(Filled(b), v, |b|, w6, w8);
    vs := v[..|b| + 1];
  }

  /** Padding and zeros are those of the bytes in the last group. */
  lemma {:induction false} FlatEncodes(b: seq<Byte>, w6: nat, w8: nat) returns (vs: seq<Value>, n: nat)
    requires b != [] && w6 == 6 && w8 == 8
    ensures 1 <= n <= 3
    ensures Spelled(Flat(b), vs, 3 - n) && SameBits(vs, b, w6, w8, 6 - 2 * n)
    decreases |b|
  {
    if |b| <= 3 {
      vs := GroupEncodes(b, w6, w8);
      n := |b|;
    } else {
      var b0, b' := b[..3], b[3..];
      var vs0 := GroupEncodes(b0, w6, w8);
      var vs';
      vs', n := FlatEncodes(b', w6, w8);
      vs := vs0 + vs';
      EncodesFirst(b, b0, b', vs0, vs', n, w6, w8);
    }
  }

  lemma EncodesFirst(b: seq<Byte>, b0: seq<Byte>, b': seq<Byte>, vs0: seq<Value>, vs': seq<Value>, n: nat,
                     w6: nat, w8: nat)
    requires |b0| == 3 && b' != [] && b == b0 + b' && 1 <= n <= 3
    requires Spelled(EncodeGroup(b0), vs0, 0) && SameBits(vs0, b0, w6, w8, 0)
    requires Spelled(Flat(b'), vs', 3 - n) && SameBits(vs', b', w6, w8, 6 - 2 * n)
    ensures Spelled(Flat(b), vs0 + vs', 3 - n) && SameBits(vs0 + vs', b, w6, w8, 6 - 2 * n)
  {
    assert Flat(b) == EncodeGroup(b0) + Flat(b') by { assert b[..3] == b0 && b[3..] == b'; }
    SpelledFirst(EncodeGroup(b0), Flat(b'), vs0, vs', 3 - n);
    SameBitsFirst(vs0, vs', b0, b', w6, w8, 6 - 2 * n);
  }

  /** Where the characters of a text are in its lines. */
  lemma {:induction false} WrapChars(t: seq<Byte>, p: nat)
    requires p < |Wrap(t)|
    ensures p % 77 == 76 ==> Wrap(t)[p] == '\n' as int
    ensures p % 77 != 76 ==> p - p / 77 < |t| && Wrap(t)[p] == t[p - p / 77]
    decreases |t|
  {
    if |t| <= 76 {
    } else {
      var w := Wrap(t[76..]);
      assert Wrap(t) == t[..76] + [LF] + w;
      if p > 76 {
        WrapChars(t[76..], p - 77);
        assert (p - 77) / 77 == p / 77 - 1 && (p - 77) % 77 == p % 77;
      }
    }
  }

  /** w is t in lines of 76 characters. */
  ghost predicate InLines(w: seq<int>, t: seq<Byte>) {
    && |w| == (if t == [] then 0 else |t| + (|t| - 1) / 76)
    && forall p: nat :: p < |w| ==>
         if p % 77 == 76 then w[p] == '\n' as int else p - p / 77 < |t| && w[p] == t[p - p / 77]
  }

  /** Characters of the alphabet with these values, and padding behind. */
  ghost predicate InAlphabet(t: seq<Byte>, vs: seq<Value>) {
    && |vs| <= |t| && |ALPHABET| == 64
    && (forall i :: 0 <= i < |vs| ==> t[i] == ALPHABET[vs[i]] as int)
    && (forall i :: |vs| <= i < |t| ==> t[i] == '=' as int)
  }

  /**
   * t is the encoding of b without line breaks: characters whose values have the bits of the bytes, filled up with
   * fewer than six zeros, and padding up to a multiple of four.
   */
  ghost predicate Encodes(t: seq<Byte>, b: seq<Byte>, vs: seq<Value>) {
    && InAlphabet(t, vs) && |t| < |vs| + 4 && |t| % 4 == 0
    && exists zeros: nat :: zeros < 6 && SameBits(vs, b, 6, 8, zeros)
  }

  lemma {:induction false} SpellAlphabet(vs: seq<Value>, i: nat)
    requires i < |vs|
    ensures |ALPHABET| == 64 && Spell(vs)[i] == ALPHABET[vs[i]] as int
  {
    if i == 0 {
      LetterIsAlphabet(vs[0]);
    } else {
      SpellAlphabet(vs[1..], i - 1);
    }
  }

  lemma SpelledInAlphabet(t: seq<Byte>, vs: seq<Value>, pads: nat)
    requires Spelled(t, vs, pads)
    ensures InAlphabet(t, vs) && |t| == |vs| + pads
  {
    LetterIsAlphabet(0);
    forall i | 0 <= i < |vs| ensures t[i] == ALPHABET[vs[i]] as int { SpellAlphabet(vs, i); }
  }

  lemma EncodedFlat(b: seq<Byte>) returns (vs: seq<Value>)
    requires b != []
    ensures Encodes(Flat(b), b, vs)
  {
    var n;
    vs, n := FlatEncodes(b, 6, 8);
    SpelledInAlphabet(Flat(b), vs, 3 - n);
    WholeGroups((|b| + 2) / 3);
    var zeros: nat := 6 - 2 * n;
    assert SameBits(vs, b, 6, 8, zeros);
  }

  lemma WholeGroups(n: nat)
    ensures n * 4 % 4 == 0
  {
  }

  /** The encoding of any bytes. */
  lemma EncodedText(b: seq<Byte>) returns (t: seq<Byte>, vs: seq<Value>)
    requires b != []
    ensures Encodes(t, b, vs) && InLines(Wrap(Flat(b)), t)
  {
    t := Flat(b);
    vs := EncodedFlat(b);
    WrapLength(t);
    forall p: nat | p < |Wrap(t)|
      ensures if p % 77 == 76 then Wrap(t)[p] == '\n' as int else p - p / 77 < |t| && Wrap(t)[p] == t[p - p / 77]
    {
      WrapChars(t, p);
    }
  }

  // ---- decoding ----

  /** The characters that the decoder leaves out; with `StripAppend` this says what is left of a text. */
  lemma StripOne(c: Byte)
    ensures Strip([c]) == if 9 <= c <= 13 || c == 32 || c == 160 then [] else [c]
  {
    assert [c][..0] == [];
  }

  /** The bits of the values begin with those of the bytes, and so many are left over. */
  ghost predicate Starts(vs: seq<int>, b: seq<int>, w6: nat, w8: nat, over: nat) {
    Bits(b, w8) <= Bits(vs, w6) && |Bits(vs, w6)| == |Bits(b, w8)| + over
  }

  lemma StartsFirst(vs0: seq<int>, vs: seq<int>, b0: seq<int>, b: seq<int>, w6: nat, w8: nat, over: nat)
    requires Starts(vs0, b0, w6, w8, 0) && Starts(vs, b, w6, w8, over)
    ensures Starts(vs0 + vs, b0 + b, w6, w8, over)
  {
    BitsAppend(vs0, vs, w6);
    BitsAppend(b0, b, w8);
  }

  /** The first of three bytes and of four sextets with the same bits. */
  lemma PrefixStarts(all: seq<int>, v: seq<int>, n: nat, w6: nat, w8: nat)
    requires |all| == 3 && |v| == 4 && 1 <= n <= 3 && w6 == 6 && w8 == 8 && Bits(v, w6) == Bits(all, w8)
    ensures Starts(v[..n + 1], all[..n], w6, w8, 6 - 2 * n)
  {
    BitsPrefix(v, w6, n + 1);
    BitsPrefix(all, w8, n);
  }

  lemma BytesStream(d: int, v0: int, v1: int, v2: int, v3: int, w6: nat, w8: nat)
    requires 0 <= v0 < 64 && 0 <= v1 < 64 && 0 <= v2 < 64 && 0 <= v3 < 64 && d == Joined(v0, v1, v2, v3)
    requires w6 == 6 && w8 == 8
    ensures Bits([v0, v1, v2, v3], w6) == Bits(BytesOf(d), w8)
  {
    SextetsBits(v0, v1, v2, v3, w6);
    BytesOfBits(d, BytesOf(d), w8);
    assert w6 + w6 + w6 + w6 == w8 + w8 + w8;
  }

  lemma BytesOfBits(d: int, b: seq<Byte>, w: nat)
    requires 0 <= d < 0x100_0000 && b == BytesOf(d) && w == 8
    ensures Bits(b, w) == Bin(d, w + w + w)
  {
    var x: int, y: int, z: int := b[0], b[1], b[2];
    assert x * 65536 + y * 256 + z == d by { WordOfBytes(d); }
    BytesBits(x, y, z, w);
    assert b == [x, y, z];
  }

  lemma LetterOf(c: Byte)
    requires !IsSpace(c) && !IsInvalid(c) && c != PAD
    ensures 0 <= ValueOf(c) < 64 && Letter(ValueOf(c)) == c
  {
    LetterOfLookup(c);
  }

  lemma GoodGroupSpelled(g: seq<Byte>, v: seq<Value>)
    requires |g| == 4 && GoodGroup(g) && NoSpaces(g)
    requires v == [ValueOf(g[0]), ValueOf(g[1]), ValueOf(g[2]), ValueOf(g[3])]
    ensures Spelled(g, v[..4 - PaddingOf(g)], PaddingOf(g))
  {
    LetterOf(g[0]);
    LetterOf(g[1]);
    if g[2] != PAD { LetterOf(g[2]); }
    if g[3] != PAD { LetterOf(g[3]); }
    SpellFour(v[0], v[1], v[2], v[3]);
    assert v[..2] == [v[0], v[1]] && v[..3] == [v[0], v[1], v[2]] && v[..4] == [v[0], v[1], v[2], v[3]];
    assert Repeat('=' as int, 0) == [] && Repeat('=' as int, 1) == [PAD] && Repeat('=' as int, 2) == [PAD, PAD];
    assert g == [g[0], g[1], g[2], g[3]];
  }

  lemma ValuesStart(v: seq<Value>, n: nat, w6: nat, w8: nat)
    requires |v| == 4 && 1 <= n <= 3 && w6 == 6 && w8 == 8
    ensures Starts(v[..n + 1], BytesOf(Joined(v[0], v[1], v[2], v[3]))[..n], w6, w8, 6 - 2 * n)
  {
    var d := Joined(v[0], v[1], v[2], v[3]);
    BytesStream(d, v[0], v[1], v[2], v[3], w6, w8);
    assert v == [v[0], v[1], v[2], v[3]];
    PrefixStarts(BytesOf(d), v, n, w6, w8);
  }

  lemma GroupDecodes(g: seq<Byte>, w6: nat, w8: nat) returns (vs: seq<Value>)
    requires |g| == 4 && GoodGroup(g) && NoSpaces(g) && w6 == 6 && w8 == 8
    ensures Spelled(g, vs, PaddingOf(g)) && Starts(vs, DecodeGroup(g), w6, w8, 2 * PaddingOf(g))
  {
    var v: seq<Value> := [ValueOf(g[0]), ValueOf(g[1]), ValueOf(g[2]), ValueOf(g[3])];
    var n := 3 - PaddingOf(g);
    GoodGroupSpelled(g, v);
    ValuesStart(v, n, w6, w8);
    assert DecodeGroup(g) == BytesOf(Joined(v[0], v[1], v[2], v[3]))[..n];
    vs := v[..n + 1];
  }

  /** A text that can be decoded: the values of its characters begin with the bits of the bytes. */
  lemma {:induction false} TextDecodes(t: seq<Byte>, w6: nat, w8: nat) returns (vs: seq<Value>, pads: nat, groups: nat)
    requires t != [] && NoSpaces(t) && DecodeGroups(t).Ok? && w6 == 6 && w8 == 8
    ensures |t| == groups * 4 && pads <= 2
    ensures Spelled(t, vs, pads) && Starts(vs, DecodeGroups(t).value, w6, w8, 2 * pads)
    decreases |t|
  {
    var g, t' := t[..4], t[4..];
    assert t == g + t';
    if t' == [] {
      LastGroup(g);
      vs := GroupDecodes(g, w6, w8);
      pads, groups := PaddingOf(g), 1;
    } else {
      assert g[3] == t[3] && g[3] != PAD;
      FirstGroup(g, t');
      var vs0 := GroupDecodes(g, w6, w8);
      var vs';
      vs', pads, groups := TextDecodes(t', w6, w8);
      vs, groups := vs0 + vs', groups + 1;
      SpelledFirst(g, t', vs0, vs', pads);
      StartsFirst(vs0, vs', DecodeGroup(g), DecodeGroups(t').value, w6, w8, 2 * pads);
    }
  }

  /** Whole groups of characters of the alphabet, with at most two of padding at the end. */
  ghost predicate Shape(t: seq<Byte>, vs: seq<Value>) {
    InAlphabet(t, vs) && t != [] && |t| % 4 == 0 && |t| <= |vs| + 2
  }

  /** And the bytes are all whole bytes that the bits of the values make up. */
  ghost predicate Decodes(t: seq<Byte>, b: seq<int>, vs: seq<Value>) {
    Shape(t, vs) && exists over: nat :: over < 8 && Starts(vs, b, 6, 8, over)
  }

  lemma AlphabetIsValid(c: Byte, v: Value)
    requires |ALPHABET| == 64 && c == ALPHABET[v] as int
    ensures Lookup(c) == v && c != PAD
  {
    LetterIsAlphabet(v);
  }

  lemma LetterOfShape(t: seq<Byte>, vs: seq<Value>, i: nat)
    requires InAlphabet(t, vs) && i < |vs|
    ensures Lookup(t[i]) >= 0 && t[i] != PAD
  {
    AlphabetIsValid(t[i], vs[i]);
  }

  lemma PaddingOfShape(t: seq<Byte>, vs: seq<Value>, i: nat)
    requires InAlphabet(t, vs) && i < |t|
    ensures !IsInvalid(t[i]) && (t[i] == PAD <==> i >= |vs|)
  {
    if i < |vs| { LetterOfShape(t, vs, i); }
  }

  lemma GroupOfShape(t: seq<Byte>, vs: seq<Value>)
    requires InAlphabet(t, vs) && |t| <= |vs| + 2 && (|t| == 4 || |t| >= 8)
    ensures GoodGroup(t[..4]) && (|t| > 4 ==> t[3] != PAD)
  {
    var g := t[..4];
    PaddingOfShape(t, vs, 0);
    PaddingOfShape(t, vs, 1);
    PaddingOfShape(t, vs, 2);
    PaddingOfShape(t, vs, 3);
    assert g[0] == t[0] && g[1] == t[1] && g[2] == t[2] && g[3] == t[3];
  }

  lemma RestOfShape(t: seq<Byte>, vs: seq<Value>)
    requires Shape(t, vs) && |t| > 4
    ensures |vs| >= 4 && Shape(t[4..], vs[4..])
  {
  }

  lemma {:induction false} ShapeDecodes(t: seq<Byte>, vs: seq<Value>)
    requires Shape(t, vs)
    ensures DecodeGroups(t).Ok?
    decreases |t|
  {
    var g, t' := t[..4], t[4..];
    assert t == g + t';
    GroupOfShape(t, vs);
    if t' == [] {
      LastGroup(g);
    } else {
      RestOfShape(t, vs);
      ShapeDecodes(t', vs[4..]);
      FirstGroup(g, t');
    }
  }

  /** What decoding a text without spaces comes to. */
  lemma DecodedText(t: seq<Byte>)
    requires NoSpaces(t)
    ensures DecodeText(t).Ok? <==> exists vs :: Shape(t, vs)
    ensures DecodeText(t).Ok? ==> exists vs :: Decodes(t, DecodeText(t).value, vs)
    ensures DecodeText(t).Err? ==> DecodeText(t).error == if t == [] then EmptyInput else InvalidInput
  {
    forall vs | Shape(t, vs) ensures DecodeText(t).Ok? { ShapeDecodes(t, vs); }
    if DecodeText(t).Ok? {
      var vs, pads, groups := TextDecodes(t, 6, 8);
      SpelledInAlphabet(t, vs, pads);
      WholeGroups(groups);
      var over := 2 * pads;
      assert Starts(vs, DecodeText(t).value, 6, 8, over);
      assert Decodes(t, DecodeText(t).value, vs);
    }
    InvalidError(t);
  }

  lemma {:induction false} InvalidError(t: seq<Byte>)
    ensures DecodeGroups(t).Err? ==> DecodeGroups(t).error == InvalidInput
    decreases |t|
  {
    if |t| >= 4 { InvalidError(t[4..]); }
  }
}
