/** The encoder and decoder loops, proved against the meaning of Base64 text. */
module Base64 {
  import opened Base64Bits
  import opened Base64Text

  /** The number of characters in the last line of a wrapped text. */
  ghost function LastLine(t: seq<Byte>): (n: nat)
    ensures n <= LINE && (t == [] <==> n == 0)
  {
    if |t| <= LINE then |t| else LastLine(t[LINE..])
  }

  lemma {:induction false} LastLineSnoc(t: seq<Byte>, g: seq<Byte>)
    requires 0 < |g| <= LINE && (LastLine(t) == LINE || LastLine(t) + |g| <= LINE)
    ensures LastLine(t + g) == if LastLine(t) == LINE then |g| else LastLine(t) + |g|
    decreases |t|
  {
    if |t| < LINE {
    } else if |t| == LINE {
      assert (t + g)[LINE..] == g;
    } else {
      LastLineSnoc(t[LINE..], g);
      assert (t + g)[LINE..] == t[LINE..] + g;
    }
  }

  /** Appending a group starts a new line exactly when the last one is full. */
  lemma {:induction false} WrapSnoc(t: seq<Byte>, g: seq<Byte>)
    requires 0 < |g| <= LINE && (LastLine(t) == LINE || LastLine(t) + |g| <= LINE)
    ensures Wrap(t + g) == Wrap(t) + (if LastLine(t) == LINE then [LF] else []) + g
    decreases |t|
  {
    if |t| < LINE {
    } else if |t| == LINE {
      assert (t + g)[..LINE] == t && (t + g)[LINE..] == g;
    } else {
      var line, rest := t[..LINE] + [LF], t[LINE..];
      WrapSnoc(rest, g);
      LongerLines(t, g, line, rest);
      AppendLast(line, Wrap(rest), if LastLine(t) == LINE then [LF] else [], g);
    }
  }

  lemma AppendLast(a: seq<Byte>, b: seq<Byte>, c: seq<Byte>, d: seq<Byte>)
    ensures a + (b + c + d) == a + b + c + d
  {}

  lemma LongerLines(t: seq<Byte>, g: seq<Byte>, line: seq<Byte>, rest: seq<Byte>)
    requires |t| > LINE && line == t[..LINE] + [LF] && rest == t[LINE..]
    ensures Wrap(t) == line + Wrap(rest) && Wrap(t + g) == line + Wrap(rest + g)
  {
    assert (t + g)[..LINE] == t[..LINE] && (t + g)[LINE..] == rest + g;
  }

  lemma {:induction false} FlatSnoc(b: seq<Byte>, g: seq<Byte>, j: nat)
    requires |b| == 3 * j && 1 <= |g| <= 3
    ensures Flat(b + g) == Flat(b) + EncodeGroup(g)
  {
    if j == 0 {
      assert b + g == g;
    } else {
      FlatSnoc(b[3..], g, j - 1);
      assert (b + g)[..3] == b[..3] && (b + g)[3..] == b[3..] + g;
      if j == 1 {
        assert b[..3] == b && b[3..] == [];
      }
    }
  }

  /** The encoding of the first i bytes of src. */
  ghost function Written(src: seq<Byte>, i: int): seq<Byte>
    requires 0 <= i <= |src|
  {
    Wrap(Flat(src[..i]))
  }

  ghost function Column(src: seq<Byte>, i: int): int
    requires 0 <= i <= |src|
  {
    LastLine(Flat(src[..i]))
  }

  lemma WrittenStep(src: seq<Byte>, i: int, j: nat, k: int)
    requires 0 <= i < i + k <= |src| && 1 <= k <= 3 && i == 3 * j
    requires Column(src, i) == LINE || Column(src, i) + 4 <= LINE
    ensures Written(src, i + k) == Written(src, i)
              + (if Column(src, i) == LINE then [LF] else []) + EncodeGroup(src[i..i + k])
    ensures Column(src, i + k) == (if Column(src, i) == LINE then 0 else Column(src, i)) + 4
  {
    var b, g := src[..i], src[i..i + k];
    assert src[..i + k] == b + g;
    FlatSnoc(b, g, j);
    WrapSnoc(Flat(b), EncodeGroup(g));
    LastLineSnoc(Flat(b), EncodeGroup(g));
  }

  /** Longer input, longer encoding. */
  lemma WrittenFits(src: seq<Byte>, i: int)
    requires 0 <= i <= |src|
    ensures |Written(src, i)| <= |Wrap(Flat(src))|
  {
    WrappedLonger(Flat(src[..i]), Flat(src));
  }

  lemma WrappedLonger(t: seq<Byte>, u: seq<Byte>)
    requires |t| <= |u|
    ensures |Wrap(t)| <= |Wrap(u)|
  {
    WrapLength(t);
    WrapLength(u);
  }

  /** Translate up to three bytes into four characters at a position of the buffer. */
  method WriteGroup(b: seq<Byte>, dest: array<int>, at: int)
    requires 1 <= |b| <= 3 && 0 <= at && at + 4 <= dest.Length
    modifies dest
    ensures dest[..at + 4] == old(dest[..at]) + EncodeGroup(b)
    ensures dest[at + 4..] == old(dest[at + 4..])
  {
    var x: int, y: int, z: int := b[0], 0, 0;
    var d := x * 65536;
    var fill := 2;
    if |b| >= 2 {
      y := b[1];
      d := d + y * 256;
      fill := 1;
    }
    if |b| >= 3 {
      z := b[2];
      d := d + z;
      fill := 0;
    }
    dest[at] := Letter(d / 262144 % 64);
    dest[at + 1] := Letter(d / 4096 % 64);
    dest[at + 2] := if fill > 1 then PAD else Letter(d / 64 % 64);
    dest[at + 3] := if fill > 0 then PAD else Letter(d % 64);
  }

  /** Start a new line when the current one is full, then write a group. */
  method WriteNext(b: seq<Byte>, dest: array<int>, at: int, lineBreakCount: int) returns (at': int)
    requires 1 <= |b| <= 3 && 0 <= at && at + 4 + (if lineBreakCount == LINE then 1 else 0) <= dest.Length
    modifies dest
    ensures at' == at + 4 + (if lineBreakCount == LINE then 1 else 0)
    ensures dest[..at'] == old(dest[..at]) + (if lineBreakCount == LINE then [LF] else []) + EncodeGroup(b)
    ensures dest[at'..] == old(dest[at'..])
  {
    at' := at;
    if lineBreakCount == LINE {
      dest[at'] := LF;
      at' := at' + 1;
    }
    WriteGroup(b, dest, at');
    at' := at' + 4;
  }

  /** The encoder's state after i bytes, in j whole groups: what is written and the current column. */
  ghost predicate Encoding(src: seq<Byte>, i: int, j: nat, out: seq<int>, column: int) {
    && 0 <= i <= |src| && (i < |src| ==> i == 3 * j) && out == Written(src, i)
    && column == Column(src, i) && column % 4 == 0 && |out| <= |Wrap(Flat(src))|
  }

  lemma EncodingStarts(src: seq<Byte>)
    ensures Encoding(src, 0, 0, [], 0)
  {
    assert src[..0] == [];
  }

  lemma EncodingStep(src: seq<Byte>, i: int, j: nat, out: seq<int>, column: int, k: int)
    requires Encoding(src, i, j, out, column) && i < |src|
    requires k == (if i + 3 <= |src| then 3 else |src| - i)
    ensures Encoding(src, i + k, j + 1, out + (if column == LINE then [LF] else []) + EncodeGroup(src[i..i + k]),
                     (if column == LINE then 0 else column) + 4)
  {
    NextColumn(column);
    WrittenStep(src, i, j, k);
    WrittenFits(src, i + k);
  }

  /** Groups fill lines exactly. */
  lemma NextColumn(column: int)
    requires 0 <= column <= LINE && column % 4 == 0
    ensures column == LINE || column + 4 <= LINE
    ensures ((if column == LINE then 0 else column) + 4) % 4 == 0
  {
  }

  /** Encode src into dest, breaking lines; a buffer of the closed-form length suffices. */
  method EncodeLocal(src: seq<Byte>, dest: array<int>) returns (encodedLen: int)
    requires dest.Length >= |Wrap(Flat(src))|
    modifies dest
    ensures encodedLen == |Wrap(Flat(src))| && dest[..encodedLen] == Wrap(Flat(src))
  {
    encodedLen := 0;
    var lineBreakCount, i := 0, 0;
    EncodingStarts(src);
    ghost var j := 0;
    while i < |src|
      invariant 0 <= encodedLen <= dest.Length && Encoding(src, i, j, dest[..encodedLen], lineBreakCount)
      decreases |src| - i
    {
      var k := if i + 3 <= |src| then 3 else |src| - i;
      EncodingStep(src, i, j, dest[..encodedLen], lineBreakCount, k);
      encodedLen := WriteNext(src[i..i + k], dest, encodedLen, lineBreakCount);
      if lineBreakCount == LINE {
        lineBreakCount := 0;
      }
      i := i + k;
      j := j + 1;
      lineBreakCount := lineBreakCount + 4;
    }
    assert src[..i] == src;
  }

  /** The buffer with the length of the text in it, or the store of the terminator before a buffer of no bytes. */
  datatype Encoded = Encoded(dest: array<int>, length: int) | BeforeBuffer

  /** The public encoder allocates the closed-form length and a terminator; that length is -1 for no input. */
  method Encode(src: seq<Byte>) returns (r: Encoded)
    ensures r.BeforeBuffer? <==> src == []
    ensures r.Encoded? ==> fresh(r.dest) && r.length == |Wrap(Flat(src))| && r.dest[..] == Wrap(Flat(src)) + [0]
    ensures r.Encoded? ==> exists t, vs :: Encodes(t, src, vs) && InLines(r.dest[..r.length], t)
  {
    EncodeLenExact(src);
    var encodeLen := EncodeLen(|src|);
    var dest := new int[encodeLen + 1];
    var n := EncodeLocal(src, dest);
    if encodeLen < 0 {
      return BeforeBuffer;
    }
    dest[encodeLen] := 0;
    ghost var t, vs := EncodedText(src);
    assert dest[..encodeLen] == Wrap(Flat(src));
    return Encoded(dest, encodeLen);
  }

  lemma StripNext(s: seq<Byte>, i: int)
    requires 0 <= i < |s|
    ensures Strip(s[..i + 1]) == if IsSpace(s[i]) then Strip(s[..i]) else Strip(s[..i]) + [s[i]]
  {
    assert s[..i + 1][..i] == s[..i];
  }

  /** Copy the characters that are not spaces. One cell follows the text, because it is read before the test. */
  method RemoveSpace(src: array<Byte>, size: int, dest: array<Byte>) returns (dstLen: int)
    requires 0 <= size < src.Length && size <= dest.Length && src != dest
    modifies dest
    ensures 0 <= dstLen <= dest.Length && dest[..dstLen] == Strip(src[..size])
  {
    dstLen := 0;
    var i := 0;
    ghost var s := src[..];
    while i < size
      invariant 0 <= i <= size && src[..] == s
      invariant 0 <= dstLen <= i && dest[..dstLen] == Strip(s[..i])
    {
      while Lookup(src[i]) == -2 && i < size
        invariant 0 <= i <= size && dest[..dstLen] == Strip(s[..i]) && dstLen <= i
        decreases size - i
      {
        StripNext(s, i);
        i := i + 1;
      }
      if i >= size {
        break;
      }
      StripNext(s, i);
      dest[dstLen] := src[i];
      i := i + 1;
      dstLen := dstLen + 1;
    }
    assert s[..size] == src[..size];
  }

  /** Four values of the alphabet, zero where there was padding, and the amount of padding. */
  datatype Chunk = Chunk(v0: int, v1: int, v2: int, v3: int, padding: int)

  predicate GoodChunk(c: Chunk) {
    0 <= c.v0 < 64 && 0 <= c.v1 < 64 && 0 <= c.v2 < 64 && 0 <= c.v3 < 64 && 0 <= c.padding <= 2
  }

  ghost function ChunkBytes(c: Chunk): (b: seq<Byte>)
    requires GoodChunk(c)
    ensures |b| == 3 - c.padding
  {
    BytesOf(Joined(c.v0, c.v1, c.v2, c.v3))[..3 - c.padding]
  }

  ghost predicate GoodChunks(cs: seq<Chunk>) {
    forall i :: 0 <= i < |cs| ==> GoodChunk(cs[i])
  }

  ghost function ChunksBytes(cs: seq<Chunk>): seq<Byte>
    requires GoodChunks(cs)
  {
    if cs == [] then [] else ChunksBytes(cs[..|cs| - 1]) + ChunkBytes(cs[|cs| - 1])
  }

  function ChunkOf(g: seq<Byte>): Chunk
    requires |g| == 4
  {
    Chunk(ValueOf(g[0]), ValueOf(g[1]), ValueOf(g[2]), ValueOf(g[3]), PaddingOf(g))
  }

  /** A text of some groups and a part of one is invalid. */
  lemma {:induction false} OddLength(t: seq<Byte>, groups: nat, part: nat)
    requires |t| == 4 * groups + part && 1 <= part <= 3
    ensures DecodeGroups(t) == Err(InvalidInput)
    decreases groups
  {
    if groups == 0 {
      assert |t| < 4 && t != [];
    } else {
      OddLength(t[4..], groups - 1, part);
      RestInvalid(t, t[..4], t[4..]);
    }
  }

  lemma RestInvalid(t: seq<Byte>, g: seq<Byte>, rest: seq<Byte>)
    requires |g| == 4 && rest != [] && t == g + rest && DecodeGroups(rest) == Err(InvalidInput)
    ensures DecodeGroups(t) == Err(InvalidInput)
  {
    assert t[..4] == g && t[4..] == rest;
    if GoodGroup(g) && g[3] != PAD {
      FirstGroup(g, rest);
    }
  }

  /** The groups before i have been turned into chunks, and the rest of t is still to be read. */
  ghost predicate Partitioned(t: seq<Byte>, i: int, cs: seq<Chunk>, dstLen: int) {
    && 0 <= i <= |t| && GoodChunks(cs) && dstLen == |ChunksBytes(cs)|
    && DecodeGroups(t) == Prepend(ChunksBytes(cs), DecodeGroups(t[i..]))
  }

  lemma PartitionStarts(t: seq<Byte>)
    ensures Partitioned(t, 0, [], 0)
  {
    assert t[0..] == t;
    var r := DecodeGroups(t);
    assert r.Ok? ==> [] + r.value == r.value;
  }

  lemma PrependPrepend(a: seq<Byte>, b: seq<Byte>, r: Result<seq<Byte>>)
    ensures Prepend(a, Prepend(b, r)) == Prepend(a + b, r)
  {
    if r.Ok? { assert a + (b + r.value) == a + b + r.value; }
  }

  lemma ChunksSnoc(cs: seq<Chunk>, c: Chunk)
    requires GoodChunks(cs) && GoodChunk(c)
    ensures GoodChunks(cs + [c]) && ChunksBytes(cs + [c]) == ChunksBytes(cs) + ChunkBytes(c)
  {
    assert (cs + [c])[..|cs|] == cs;
  }

  /** A group without padding. */
  lemma PartitionStep(t: seq<Byte>, i: int, cs: seq<Chunk>, dstLen: int)
    requires Partitioned(t, i, cs, dstLen) && i + 4 <= |t| && GoodGroup(t[i..i + 4]) && t[i + 3] != PAD
    ensures Partitioned(t, i + 4, cs + [ChunkOf(t[i..i + 4])], dstLen + 3)
  {
    var g, u := t[i..i + 4], t[i + 4..];
    assert t[i..] == g + u;
    FirstGroup(g, u);
    ChunksSnoc(cs, ChunkOf(g));
    PrependPrepend(ChunksBytes(cs), DecodeGroup(g), DecodeGroups(u));
  }

  /** The last group, possibly padded. */
  lemma PartitionLast(t: seq<Byte>, i: int, cs: seq<Chunk>, dstLen: int)
    requires Partitioned(t, i, cs, dstLen) && i + 4 == |t| && GoodGroup(t[i..i + 4]) && t[i + 3] == PAD
    ensures Partitioned(t, i + 4, cs + [ChunkOf(t[i..i + 4])], dstLen + if t[i + 2] == PAD then 1 else 2)
  {
    var g := t[i..i + 4];
    assert t[i..] == g && t[i + 4..] == [];
    LastGroup(g);
    ChunksSnoc(cs, ChunkOf(g));
    PrependPrepend(ChunksBytes(cs), DecodeGroup(g), Ok([]));
    assert DecodeGroups(g) == Prepend(DecodeGroup(g), Ok([])) by {
      assert DecodeGroup(g) + [] == DecodeGroup(g);
    }
    assert g[2] == t[i + 2] && g[3] == t[i + 3];
  }

  lemma PartitionFails(t: seq<Byte>, i: int, cs: seq<Chunk>, dstLen: int)
    requires Partitioned(t, i, cs, dstLen) && i + 4 <= |t|
    requires !GoodGroup(t[i..i + 4]) || (t[i + 3] == PAD && i + 4 < |t|)
    ensures DecodeGroups(t) == Err(InvalidInput)
  {
    assert t[i..][..4] == t[i..i + 4];
  }

  lemma PartitionEnds(t: seq<Byte>, cs: seq<Chunk>, dstLen: int)
    requires Partitioned(t, |t|, cs, dstLen)
    ensures DecodeGroups(t) == Ok(ChunksBytes(cs))
  {
    assert ChunksBytes(cs) + [] == ChunksBytes(cs);
  }

  /** Turn the next group into a chunk; padding is allowed in the last group only. */
  method AddChunk(t: seq<Byte>, i: nat, chunks: seq<Chunk>, dstLen: int, last: bool)
      returns (ok: bool, chunks': seq<Chunk>, dstLen': int)
    requires i + 4 <= |t| && last == (i + 4 == |t|) && Partitioned(t, i, chunks, dstLen)
    ensures !ok ==> DecodeGroups(t) == Err(InvalidInput)
    ensures ok ==> Partitioned(t, i + 4, chunks', dstLen') && |chunks'| == |chunks| + 1
  {
    var g := t[i..i + 4];
    if !GoodGroup(g) || (g[3] == PAD && !last) {
      PartitionFails(t, i, chunks, dstLen);
      return false, chunks, dstLen;
    }
    if g[3] == PAD {
      PartitionLast(t, i, chunks, dstLen);
      dstLen' := dstLen + if g[2] == PAD then 1 else 2;
    } else {
      PartitionStep(t, i, chunks, dstLen);
      dstLen' := dstLen + 3;
    }
    ok, chunks' := true, chunks + [ChunkOf(g)];
  }

  /**
   * Split a text without spaces into chunks; the length computed on the way is the number of bytes
   * the chunks decode to.
   */
  method Partition(t: seq<Byte>) returns (r: Result<(seq<Chunk>, int)>)
    requires t != [] && NoSpaces(t)
    ensures r.Ok? ==> GoodChunks(r.value.0) && DecodeText(t) == Ok(ChunksBytes(r.value.0))
                      && r.value.1 == |ChunksBytes(r.value.0)|
    ensures r.Err? ==> DecodeText(t) == Err(r.error)
  {
    if |t| % 4 != 0 {
      OddLength(t, |t| / 4, |t| % 4);
      return Err(InvalidInput);
    }
    var chunkNum := |t| / 4;
    var chunks, i, dstLen := [], 0, 0;
    PartitionStarts(t);
    while |chunks| < chunkNum
      invariant |chunks| <= chunkNum && i == 4 * |chunks| && Partitioned(t, i, chunks, dstLen)
      decreases chunkNum - |chunks|
    {
      var ok;
      ok, chunks, dstLen := AddChunk(t, i, chunks, dstLen, |chunks| + 1 == chunkNum);
      if !ok {
        return Err(InvalidInput);
      }
      i := i + 4;
    }
    PartitionEnds(t, chunks, dstLen);
    return Ok((chunks, dstLen));
  }

  /** Write the bytes of the chunks one after another. */
  method DecodeChunks(dest: array<int>, chunks: seq<Chunk>)
    requires GoodChunks(chunks) && dest.Length >= |ChunksBytes(chunks)|
    modifies dest
    ensures dest[..|ChunksBytes(chunks)|] == ChunksBytes(chunks)
  {
    var i, at := 0, 0;
    assert chunks[..0] == [];
    while i < |chunks|
      invariant 0 <= i <= |chunks| && 0 <= at <= dest.Length
      invariant at == |ChunksBytes(chunks[..i])| && dest[..at] == ChunksBytes(chunks[..i])
    {
      at := CopyChunk(dest, at, chunks, i);
      i := i + 1;
    }
    assert chunks[..i] == chunks;
  }

  lemma {:induction false} ChunksFit(cs: seq<Chunk>, i: int)
    requires GoodChunks(cs) && 0 <= i <= |cs|
    ensures |ChunksBytes(cs[..i])| <= |ChunksBytes(cs)|
    decreases |cs| - i
  {
    if i == |cs| {
      assert cs[..i] == cs;
    } else {
      ChunksFit(cs, i + 1);
      assert cs[..i + 1] == cs[..i] + [cs[i]];
      ChunksSnoc(cs[..i], cs[i]);
    }
  }

  lemma NextChunk(cs: seq<Chunk>, i: int)
    requires GoodChunks(cs) && 0 <= i < |cs|
    ensures ChunksBytes(cs[..i + 1]) == ChunksBytes(cs[..i]) + ChunkBytes(cs[i])
    ensures |ChunksBytes(cs[..i + 1])| <= |ChunksBytes(cs)|
  {
    ChunksFit(cs, i + 1);
    assert cs[..i + 1] == cs[..i] + [cs[i]];
    ChunksSnoc(cs[..i], cs[i]);
  }

  method CopyChunk(dest: array<int>, at: int, chunks: seq<Chunk>, i: int) returns (at': int)
    requires GoodChunks(chunks) && 0 <= i < |chunks| && dest.Length >= |ChunksBytes(chunks)|
    requires 0 <= at == |ChunksBytes(chunks[..i])| <= dest.Length && dest[..at] == ChunksBytes(chunks[..i])
    modifies dest
    ensures at' == |ChunksBytes(chunks[..i + 1])| <= dest.Length && dest[..at'] == ChunksBytes(chunks[..i + 1])
  {
    var chk := chunks[i];
    NextChunk(chunks, i);
    var d := Joined(chk.v0, chk.v1, chk.v2, chk.v3);
    var copyNum := 3 - chk.padding;
    CopyBytes(dest, at, d, copyNum);
    at' := at + copyNum;
  }

  method CopyBytes(dest: array<int>, at: int, d: int, copyNum: int)
    requires 0 <= d < 0x100_0000 && 1 <= copyNum <= 3 && 0 <= at && at + copyNum <= dest.Length
    modifies dest
    ensures dest[..at + copyNum] == old(dest[..at]) + BytesOf(d)[..copyNum]
    ensures dest[at + copyNum..] == old(dest[at + copyNum..])
  {
    dest[at] := d / 65536;
    if copyNum > 1 { dest[at + 1] := d / 256 % 256; }
    if copyNum > 2 { dest[at + 2] := d % 256; }
  }

  /** The public decoder: strip, partition, decode. */
  method Decode(src: array<Byte>, srcLen: int) returns (r: Result<seq<int>>)
    requires 0 <= srcLen < src.Length
    ensures r == DecodeText(Strip(src[..srcLen]))
    ensures r.Ok? <==> exists vs :: Shape(Strip(src[..srcLen]), vs)
    ensures r.Ok? ==> exists vs :: Decodes(Strip(src[..srcLen]), r.value, vs)
    ensures r.Err? ==> r.error == if Strip(src[..srcLen]) == [] then EmptyInput else InvalidInput
  {
    DecodedText(Strip(src[..srcLen]));
    var noSpace := new Byte[srcLen + 1](_ => 0);
    var len := RemoveSpace(src, srcLen, noSpace);
    if len == 0 {
      return Err(EmptyInput);
    }
    var t := noSpace[..len];
    var p := Partition(t);
    if p.Err? {
      return Err(p.error);
    }
    var dest := new int[p.value.1 + 1];
    dest[p.value.1] := 0;
    DecodeChunks(dest, p.value.0);
    return Ok(dest[..p.value.1]);
  }
}
