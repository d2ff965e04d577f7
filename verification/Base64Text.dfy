/** Base64 text (section 6.8 of RFC 2045): groups, lines of 76 characters, and what decoding means. */
module Base64Text {
  import opened Arith

  type Byte = x: int | 0 <= x < 256

  const LF: Byte := 10
  const PAD: Byte := 61
  const LINE := 76

  /** The 64-character alphabet. */
  function Letter(v: int): (c: Byte)
    requires 0 <= v < 64
    ensures Lookup(c) == v
  {
    if v < 26 then 65 + v else if v < 52 then 71 + v else if v < 62 then v - 4 else if v == 62 then 43 else 47
  }

  /** The decoding table: -2 for space characters, -1 for invalid ones, else the value of a letter. */
  function Lookup(c: Byte): (v: int)
    ensures -2 <= v < 64
  {
    if 65 <= c <= 90 then c - 65
    else if 97 <= c <= 122 then c - 71
    else if 48 <= c <= 57 then c + 4
    else if c == 43 then 62
    else if c == 47 then 63
    else if 9 <= c <= 13 || c == 32 || c == 160 then -2
    else -1
  }

  predicate IsSpace(c: Byte) {
    Lookup(c) == -2
  }

  predicate NoSpaces(t: seq<Byte>) {
    forall i :: 0 <= i < |t| ==> !IsSpace(t[i])
  }

  predicate IsInvalid(c: Byte) {
    c != PAD && Lookup(c) == -1
  }

  /** The letter's place in the alphabet is what the table says. */
  lemma LetterOfLookup(c: Byte)
    requires Lookup(c) >= 0
    ensures Letter(Lookup(c)) == c
  {}

  /** Three bytes as one number of 24 bits; absent bytes count as zero. */
  function Word(b: seq<Byte>): (d: int)
    requires 1 <= |b| <= 3
    ensures 0 <= d < 0x100_0000
  {
    var x: int := b[0];
    var y: int := if |b| >= 2 then b[1] else 0;
    var z: int := if |b| == 3 then b[2] else 0;
    x * 65536 + y * 256 + z
  }

  function Sextet(d: int, k: int): (v: int)
    requires 0 <= d && 0 <= k < 4
    ensures 0 <= v < 64
  {
    if k == 0 then d / 262144 % 64 else if k == 1 then d / 4096 % 64 else if k == 2 then d / 64 % 64 else d % 64
  }

  /** Four characters for up to three bytes. */
  function EncodeGroup(b: seq<Byte>): (g: seq<Byte>)
    requires 1 <= |b| <= 3
    ensures |g| == 4 && NoSpaces(g)
  {
    var d := Word(b);
    [Letter(Sextet(d, 0)), Letter(Sextet(d, 1)),
     if |b| < 2 then PAD else Letter(Sextet(d, 2)),
     if |b| < 3 then PAD else Letter(Sextet(d, 3))]
  }

  /** The characters of an encoding without line breaks. */
  function Flat(b: seq<Byte>): (t: seq<Byte>)
    ensures |t| == (|b| + 2) / 3 * 4
  {
    if b == [] then [] else if |b| <= 3 then EncodeGroup(b) else EncodeGroup(b[..3]) + Flat(b[3..])
  }

  /** Break a text into lines of LINE characters. */
  function Wrap(t: seq<Byte>): (w: seq<Byte>) {
    if |t| <= LINE then t else t[..LINE] + [LF] + Wrap(t[LINE..])
  }

  /** The closed form of the encoded length. */
  function EncodeLen(n: int): int
    requires n >= 0
  {
    var nbytes := (n + 2) / 3 * 4;
    nbytes + nbytes / LINE - if nbytes % LINE == 0 then 1 else 0
  }

  lemma {:induction false} WrapLength(t: seq<Byte>)
    ensures |Wrap(t)| == if t == [] then 0 else |t| + (|t| - 1) / LINE
    decreases |t|
  {
    if |t| <= LINE {
    } else {
      WrapLength(t[LINE..]);
    }
  }

  /** The closed form is the length of the encoding exactly when there is something to encode. */
  lemma EncodeLenExact(b: seq<Byte>)
    ensures EncodeLen(|b|) == |Wrap(Flat(b))| <==> b != []
  {
    WrapLength(Flat(b));
  }

  lemma {:induction false} FlatHasNoSpace(b: seq<Byte>)
    ensures NoSpaces(Flat(b))
    decreases |b|
  {
    if |b| <= 3 {
    } else {
      FlatHasNoSpace(b[3..]);
    }
  }

  lemma AddLine(q: nat)
    ensures (q + LINE + 1) % (LINE + 1) == q % (LINE + 1)
  {}

  /**
   * Line structure: a line feed at every 77th character and nowhere else, so every line but the
   * last has 76 characters; the last has 1 to 76, so there is no trailing line feed.
   */
  lemma {:induction false} WrapLines(t: seq<Byte>, p: nat)
    requires t != [] && NoSpaces(t)
    ensures p < |Wrap(t)| ==> (Wrap(t)[p] == LF <==> p % (LINE + 1) == LINE)
    ensures 1 <= |Wrap(t)| % (LINE + 1) <= LINE
    decreases |t|
  {
    if |t| <= LINE {
    } else {
      var w, q := Wrap(t[LINE..]), p - (LINE + 1);
      WrapLines(t[LINE..], if p > LINE then q else 0);
      assert Wrap(t) == t[..LINE] + [LF] + w;
      AddLine(|w|);
      if LINE < p < |Wrap(t)| {
        AddLine(q);
        assert Wrap(t)[p] == w[q];
      }
    }
  }

  /** The text without its space characters. */
  function Strip(s: seq<Byte>): (t: seq<Byte>)
    ensures |t| <= |s| && NoSpaces(t)
  {
    if s == [] then []
    else if IsSpace(s[|s| - 1]) then Strip(s[..|s| - 1])
    else Strip(s[..|s| - 1]) + [s[|s| - 1]]
  }

  lemma {:induction false} StripAppend(s: seq<Byte>, u: seq<Byte>)
    ensures Strip(s + u) == Strip(s) + Strip(u)
    decreases |u|
  {
    if u == [] {
      assert s + u == s;
    } else {
      var u', c := u[..|u| - 1], u[|u| - 1];
      StripAppend(s, u');
      assert (s + u)[..|s + u| - 1] == s + u' && (s + u)[|s + u| - 1] == c;
      if !IsSpace(c) { assert Strip(s) + (Strip(u') + [c]) == Strip(s) + Strip(u') + [c]; }
    }
  }

  lemma {:induction false} StripNothing(t: seq<Byte>)
    requires NoSpaces(t)
    ensures Strip(t) == t
    decreases |t|
  {
    if t == [] {
    } else {
      StripNothing(t[..|t| - 1]);
    }
  }

  /** Breaking lines adds only space characters. */
  lemma {:induction false} StripWrap(t: seq<Byte>)
    requires NoSpaces(t)
    ensures Strip(Wrap(t)) == t
    decreases |t|
  {
    if |t| <= LINE {
      StripNothing(t);
    } else {
      StripWrap(t[LINE..]);
      StripNothing(t[..LINE]);
      StripAppend(t[..LINE] + [LF], Wrap(t[LINE..]));
      StripAppend(t[..LINE], [LF]);
      assert Strip([LF]) == [] by { assert [LF][..0] == []; }
    }
  }

  datatype Error = EmptyInput | InvalidInput

  datatype Result<+T> = Ok(value: T) | Err(error: Error)

  function ValueOf(c: Byte): (v: int)
    ensures 0 <= v < 64
  {
    if Lookup(c) >= 0 then Lookup(c) else 0
  }

  /** A group of four characters: letters, the last one or the last two possibly replaced by padding. */
  predicate GoodGroup(g: seq<Byte>)
    requires |g| == 4
  {
    && !IsInvalid(g[0]) && !IsInvalid(g[1]) && !IsInvalid(g[2]) && !IsInvalid(g[3])
    && g[0] != PAD && g[1] != PAD && (g[2] == PAD ==> g[3] == PAD)
  }

  function PaddingOf(g: seq<Byte>): (n: int)
    requires |g| == 4
    ensures 0 <= n <= 2
  {
    (if g[3] == PAD then 1 else 0) + (if g[2] == PAD then 1 else 0)
  }

  /** The bytes of a 24-bit number. */
  function BytesOf(d: int): (b: seq<Byte>)
    requires 0 <= d < 0x100_0000
    ensures |b| == 3
  {
    [d / 65536, d / 256 % 256, d % 256]
  }

  function Joined(v0: int, v1: int, v2: int, v3: int): (d: int)
    requires 0 <= v0 < 64 && 0 <= v1 < 64 && 0 <= v2 < 64 && 0 <= v3 < 64
    ensures 0 <= d < 0x100_0000
  {
    v0 * 262144 + v1 * 4096 + v2 * 64 + v3
  }

  /** The bytes a group stands for. */
  function DecodeGroup(g: seq<Byte>): (b: seq<Byte>)
    requires |g| == 4
    ensures |b| == 3 - PaddingOf(g)
  {
    BytesOf(Joined(ValueOf(g[0]), ValueOf(g[1]), ValueOf(g[2]), ValueOf(g[3])))[..3 - PaddingOf(g)]
  }

  function Prepend(b: seq<Byte>, r: Result<seq<Byte>>): Result<seq<Byte>> {
    match r
    case Ok(rest) => Ok(b + rest)
    case Err(_) => r
  }

  /** The meaning of a text of whole groups; padding is allowed only in the last group. */
  function DecodeGroups(t: seq<Byte>): Result<seq<Byte>> {
    if t == [] then Ok([])
    else if |t| < 4 || !GoodGroup(t[..4]) then Err(InvalidInput)
    else if t[3] == PAD then (if |t| == 4 then Ok(DecodeGroup(t)) else Err(InvalidInput))
    else Prepend(DecodeGroup(t[..4]), DecodeGroups(t[4..]))
  }

  /** The meaning of a text without space characters. */
  function DecodeText(t: seq<Byte>): Result<seq<Byte>> {
    if t == [] then Err(EmptyInput) else DecodeGroups(t)
  }

  lemma SextetsJoin(d: int)
    requires 0 <= d < 0x100_0000
    ensures Joined(Sextet(d, 0), Sextet(d, 1), Sextet(d, 2), Sextet(d, 3)) == d
  {
    var q1, q2, q3 := d / 64, d / 4096, d / 262144;
    assert d == 64 * q1 + d % 64;
    assert q1 == 64 * q2 + q1 % 64;
    assert q2 == 64 * q3 + q2 % 64;
    assert q3 % 64 == q3;
  }

  lemma BytesOfWord(x: int, y: int, z: int)
    requires 0 <= x < 256 && 0 <= y < 256 && 0 <= z < 256
    ensures BytesOf(x * 65536 + y * 256 + z) == [x, y, z]
  {}

  lemma ZeroSextets(b: seq<Byte>)
    requires 1 <= |b| <= 2
    ensures Sextet(Word(b), 3) == 0 && (|b| == 1 ==> Sextet(Word(b), 2) == 0)
  {
    var x: int := b[0];
    var y: int := if |b| == 2 then b[1] else 0;
    assert Word(b) == 64 * (x * 1024 + y * 4);
  }

  /** Decoding a group gives back the bytes it was made from. */
  lemma DecodeEncodedGroup(b: seq<Byte>)
    requires 1 <= |b| <= 3
    ensures GoodGroup(EncodeGroup(b)) && DecodeGroup(EncodeGroup(b)) == b
    ensures EncodeGroup(b)[3] == PAD <==> |b| < 3
  {
    var d, g := Word(b), EncodeGroup(b);
    SextetsJoin(d);
    if |b| < 3 { ZeroSextets(b); }
    assert ValueOf(g[0]) == Sextet(d, 0) && ValueOf(g[1]) == Sextet(d, 1);
    assert ValueOf(g[2]) == Sextet(d, 2) && ValueOf(g[3]) == Sextet(d, 3);
    BytesOfWord(b[0], if |b| >= 2 then b[1] else 0, if |b| == 3 then b[2] else 0);
    assert PaddingOf(g) == 3 - |b|;
  }

  lemma FirstGroup(g: seq<Byte>, t: seq<Byte>)
    requires |g| == 4 && GoodGroup(g) && g[3] != PAD
    ensures DecodeGroups(g + t) == Prepend(DecodeGroup(g), DecodeGroups(t))
  {
    assert (g + t)[..4] == g && (g + t)[4..] == t && (g + t)[3] == g[3];
  }

  lemma LastGroup(g: seq<Byte>)
    requires |g| == 4 && GoodGroup(g)
    ensures DecodeGroups(g) == Ok(DecodeGroup(g))
  {
    assert g[..4] == g && g[4..] == [];
    assert DecodeGroup(g) + [] == DecodeGroup(g);
  }

  /** Decoding an encoding without line breaks gives back the bytes. */
  lemma {:induction false} DecodeFlat(b: seq<Byte>)
    ensures DecodeGroups(Flat(b)) == Ok(b)
    decreases |b|
  {
    if b == [] {
    } else if |b| <= 3 {
      DecodeEncodedGroup(b);
      LastGroup(EncodeGroup(b));
    } else {
      DecodeEncodedGroup(b[..3]);
      DecodeFlat(b[3..]);
      FirstGroup(EncodeGroup(b[..3]), Flat(b[3..]));
      assert b == b[..3] + b[3..];
    }
  }

  /**
   * Whatever space characters are inserted into or removed from the encoding of a non-empty byte
   * string, it decodes to that string.
   */
  lemma RoundTrip(b: seq<Byte>, text: seq<Byte>)
    requires b != [] && Strip(text) == Strip(Wrap(Flat(b)))
    ensures DecodeText(Strip(text)) == Ok(b)
  {
    FlatHasNoSpace(b);
    StripWrap(Flat(b));
    DecodeFlat(b);
  }

  /** The bits of a group that its bytes do not use are zero. */
  predicate CanonicalGroup(g: seq<Byte>)
    requires |g| == 4
  {
    && (PaddingOf(g) == 1 ==> ValueOf(g[2]) % 4 == 0)
    && (PaddingOf(g) == 2 ==> ValueOf(g[1]) % 16 == 0)
  }

  predicate Canonical(t: seq<Byte>) {
    |t| >= 4 ==> CanonicalGroup(t[|t| - 4..])
  }

  lemma JoinedSextets(v0: int, v1: int, v2: int, v3: int)
    requires 0 <= v0 < 64 && 0 <= v1 < 64 && 0 <= v2 < 64 && 0 <= v3 < 64
    ensures var d := Joined(v0, v1, v2, v3);
            Sextet(d, 0) == v0 && Sextet(d, 1) == v1 && Sextet(d, 2) == v2 && Sextet(d, 3) == v3
  {
    var d := Joined(v0, v1, v2, v3);
    assert d == 64 * (v0 * 4096 + v1 * 64 + v2) + v3;
    assert d / 64 == v0 * 4096 + v1 * 64 + v2;
    assert d / 4096 == v0 * 64 + v1;
    assert d / 262144 == v0;
  }

  lemma WordOfBytes(d: int)
    requires 0 <= d < 0x100_0000
    ensures Word(BytesOf(d)) == d
    ensures Word(BytesOf(d)[..2]) == d - d % 256 && Word(BytesOf(d)[..1]) == d - d % 65536
  {
    var q1, q2 := d / 256, d / 65536;
    assert d == 256 * q1 + d % 256 && q1 == 256 * q2 + q1 % 256;
    assert d == 65536 * q2 + d % 65536;
  }

  lemma LetterInverse(c: Byte, v: int)
    requires Lookup(c) >= 0 && 0 <= v < 64
    ensures Letter(v) == c <==> v == ValueOf(c)
  {
    LetterOfLookup(c);
  }

  lemma TwoBytesCanonical(v0: int, v1: int, v2: int)
    requires 0 <= v0 < 64 && 0 <= v1 < 64 && 0 <= v2 < 64
    ensures var d := Joined(v0, v1, v2, 0); var d' := d - d % 256;
            Sextet(d', 0) == v0 && Sextet(d', 1) == v1 && Sextet(d', 2) == v2 - v2 % 4
  {
    var d := Joined(v0, v1, v2, 0);
    var q, r := v2 / 4, v2 % 4;
    assert d == (v0 * 1024 + v1 * 16 + q) * 256 + r * 64;
    DivModUnique(d, 256, v0 * 1024 + v1 * 16 + q, r * 64);
    JoinedSextets(v0, v1, v2 - v2 % 4, 0);
  }

  lemma OneByteCanonical(v0: int, v1: int)
    requires 0 <= v0 < 64 && 0 <= v1 < 64
    ensures var d := Joined(v0, v1, 0, 0); var d' := d - d % 65536;
            Sextet(d', 0) == v0 && Sextet(d', 1) == v1 - v1 % 16
  {
    var d := Joined(v0, v1, 0, 0);
    var q, r := v1 / 16, v1 % 16;
    assert d == (v0 * 4 + q) * 65536 + r * 4096;
    DivModUnique(d, 65536, v0 * 4 + q, r * 4096);
    JoinedSextets(v0, v1 - v1 % 16, 0, 0);
  }

  /** Encoding what a group stands for gives the group back exactly when it is canonical. */
  lemma EncodeDecodedGroup(g: seq<Byte>)
    requires |g| == 4 && GoodGroup(g) && NoSpaces(g)
    ensures EncodeGroup(DecodeGroup(g)) == g <==> CanonicalGroup(g)
  {
    var v0, v1, v2, v3 := ValueOf(g[0]), ValueOf(g[1]), ValueOf(g[2]), ValueOf(g[3]);
    var d := Joined(v0, v1, v2, v3);
    var e := EncodeGroup(DecodeGroup(g));
    assert BytesOf(d)[..3] == BytesOf(d);
    WordOfBytes(d);
    var w := Word(DecodeGroup(g));
    LetterInverse(g[0], Sextet(w, 0));
    LetterInverse(g[1], Sextet(w, 1));
    if g[2] == PAD {
      OneByteCanonical(v0, v1);
    } else {
      LetterInverse(g[2], Sextet(w, 2));
      if g[3] == PAD {
        TwoBytesCanonical(v0, v1, v2);
      } else {
        LetterInverse(g[3], Sextet(w, 3));
        JoinedSextets(v0, v1, v2, v3);
      }
    }
    assert e == g <==> e[0] == g[0] && e[1] == g[1] && e[2] == g[2] && e[3] == g[3];
  }

  /** A text that decodes is the encoding of its bytes exactly when it is canonical. */
  lemma {:induction false} EncodeDecoded(t: seq<Byte>)
    requires NoSpaces(t) && DecodeGroups(t).Ok?
    ensures Flat(DecodeGroups(t).value) == t <==> Canonical(t)
    decreases |t|
  {
    if t == [] {
    } else {
      var g := t[..4];
      EncodeDecodedGroup(g);
      if |t| == 4 {
        assert t == g && t[0..] == g;
        LastGroup(g);
      } else {
        var u := t[4..];
        assert t == g + u;
        FirstGroup(g, u);
        EncodeDecoded(u);
        assert t[|t| - 4..] == u[|u| - 4..];
        var b := DecodeGroups(u).value;
        DecodedNonEmpty(u);
        FlatPrepend(DecodeGroup(g), b);
      }
    }
  }

  lemma DecodedNonEmpty(t: seq<Byte>)
    requires t != [] && DecodeGroups(t).Ok?
    ensures |t| >= 4 && DecodeGroups(t).value != []
  {}

  lemma FlatPrepend(h: seq<Byte>, b: seq<Byte>)
    requires |h| == 3 && b != []
    ensures Flat(h + b) == EncodeGroup(h) + Flat(b)
  {
    assert (h + b)[..3] == h && (h + b)[3..] == b;
  }
}
