/** Where the elements of an area lie: blocks of memory carved into slots of equal size. */
module AreaLayout {

  /** Bytes of a block before its data. */
  const HEADER: int := 32

  /** A block: its data, the next slot to carve, and its end. */
  datatype Block = Block(data: int, pointer: int, max: int)

  /** Elements of a size, so many to a block, each after a prefix. */
  datatype Layout = Layout(size: int, count: int, pre: int) {
    function Stride(): int { size + pre }
    predicate Ok() { size >= 8 && count > 0 && pre >= 0 }
  }

  predicate BlocksApart(b: Block, c: Block) {
    b.max <= c.data - HEADER || c.max <= b.data - HEADER
  }

  predicate WholeBlock(l: Layout, b: Block) {
    b.max == b.data + l.Stride() * l.count && b.data > HEADER
  }

  /** Blocks do not overlap; all but the first are carved up, and the first has left slots left. */
  ghost predicate BlocksOk(l: Layout, blocks: seq<Block>, left: int) {
    && (forall i :: 0 <= i < |blocks| ==> WholeBlock(l, blocks[i]))
    && (forall i, j :: 0 <= i < j < |blocks| ==> BlocksApart(blocks[i], blocks[j]))
    && (forall i :: 0 < i < |blocks| ==> blocks[i].pointer == blocks[i].max)
    && (if blocks == [] then left == 0
        else 0 <= left <= l.count && blocks[0].max - blocks[0].pointer == l.Stride() * left)
  }

  /** The slot of element a lies in the carved part of block b. */
  predicate Inside(l: Layout, b: Block, a: int) {
    b.data <= a - l.pre && a - l.pre + l.Stride() <= b.pointer
  }

  ghost predicate InSome(l: Layout, blocks: seq<Block>, a: int) {
    exists i :: 0 <= i < |blocks| && Inside(l, blocks[i], a)
  }

  /** Two elements with their prefixes do not overlap. */
  predicate Apart(l: Layout, a: int, c: int) {
    a + l.Stride() <= c || c + l.Stride() <= a
  }

  /** The elements lie in the carved parts of the blocks and do not overlap. */
  ghost predicate Carved(l: Layout, blocks: seq<Block>, elements: set<int>) {
    && (forall a :: a in elements ==> InSome(l, blocks, a))
    && (forall a, c :: a in elements && c in elements && a != c ==> Apart(l, a, c))
  }

  lemma SlotFits(stride: int, left: int)
    requires stride > 0 && left > 0
    ensures stride <= stride * left && stride * (left - 1) == stride * left - stride
            && (stride * (left - 1) > 0 <==> left > 1)
  {
  }

  function Advance(l: Layout, blocks: seq<Block>): seq<Block>
    requires blocks != []
  {
    blocks[0 := blocks[0].(pointer := blocks[0].pointer + l.Stride())]
  }

  /** Carving the next slot of the first block. */
  lemma AdvanceOk(l: Layout, blocks: seq<Block>, left: int)
    requires l.Ok() && BlocksOk(l, blocks, left) && blocks != [] && left > 0
    ensures BlocksOk(l, Advance(l, blocks), left - 1)
    ensures blocks[0].pointer + l.Stride() <= blocks[0].max
    ensures blocks[0].pointer + l.Stride() == blocks[0].max <==> left == 1
  {
    SlotFits(l.Stride(), left);
  }

  /** The next slot overlaps no element. */
  lemma NextApart(l: Layout, blocks: seq<Block>, left: int, elements: set<int>, c: int)
    requires l.Ok() && BlocksOk(l, blocks, left) && blocks != [] && left > 0 && Carved(l, blocks, elements)
             && c in elements
    ensures Apart(l, blocks[0].pointer + l.pre, c) && InSome(l, Advance(l, blocks), c)
  {
    AdvanceOk(l, blocks, left);
    var i :| 0 <= i < |blocks| && Inside(l, blocks[i], c);
    assert Inside(l, Advance(l, blocks)[i], c);
    if i > 0 {
      assert BlocksApart(blocks[0], blocks[i]) && WholeBlock(l, blocks[0]) && WholeBlock(l, blocks[i]);
      HeadStart(l, blocks, left);
    }
  }

  lemma HeadStart(l: Layout, blocks: seq<Block>, left: int)
    requires l.Ok() && BlocksOk(l, blocks, left) && blocks != []
    ensures blocks[0].data <= blocks[0].pointer <= blocks[0].max
  {
    var b := blocks[0];
    assert WholeBlock(l, b);
    Product(l.Stride(), left, l.count);
  }

  lemma Product(stride: int, left: int, count: int)
    requires stride > 0 && 0 <= left <= count
    ensures 0 <= stride * left <= stride * count
  {
  }

  lemma CarveNext(l: Layout, blocks: seq<Block>, left: int, elements: set<int>)
    requires l.Ok() && BlocksOk(l, blocks, left) && blocks != [] && left > 0 && Carved(l, blocks, elements)
    ensures var a := blocks[0].pointer + l.pre; a !in elements && a > 0 && Carved(l, Advance(l, blocks), elements + {a})
  {
    var a := blocks[0].pointer + l.pre;
    forall c | c in elements ensures Apart(l, a, c) && InSome(l, Advance(l, blocks), c) {
      NextApart(l, blocks, left, elements, c);
    }
    HeadStart(l, blocks, left);
    assert WholeBlock(l, blocks[0]);
    assert Inside(l, Advance(l, blocks)[0], a);
  }

  /** A new block in front, apart from the others. */
  function NewBlock(l: Layout, base: int): Block {
    Block(base + HEADER, base + HEADER, base + HEADER + l.Stride() * l.count)
  }

  /** The memory at base is apart from every block. */
  ghost predicate Fresh(l: Layout, blocks: seq<Block>, base: int) {
    base > 0 && forall i :: 0 <= i < |blocks| ==> BlocksApart(NewBlock(l, base), blocks[i])
  }

  /** The word at w lies in the memory of a block. */
  predicate Occupies(b: Block, w: int) {
    b.data - 32 <= w < b.max
  }

  /** Fresh memory shares no byte with any block, and any such memory is fresh. */
  lemma FreshExactly(l: Layout, blocks: seq<Block>, left: int, base: int)
    requires l.Ok() && BlocksOk(l, blocks, left)
    ensures Fresh(l, blocks, base) <==>
              && base > 0
              && forall i, w :: 0 <= i < |blocks| && Occupies(blocks[i], w) ==>
                  !(base <= w < base + 32 + (l.size + l.pre) * l.count)
  {
    var n := NewBlock(l, base);
    Product(l.Stride(), 0, l.count);
    if base > 0 && !Fresh(l, blocks, base) {
      var i :| 0 <= i < |blocks| && !BlocksApart(n, blocks[i]);
      var b := blocks[i];
      assert WholeBlock(l, b);
      var w := if base < b.data - 32 then b.data - 32 else base;
      assert Occupies(b, w);
    }
    forall i, w | Fresh(l, blocks, base) && 0 <= i < |blocks| && Occupies(blocks[i], w)
      ensures !(base <= w < base + 32 + (l.size + l.pre) * l.count)
    {
      assert BlocksApart(n, blocks[i]);
    }
  }

  lemma GrowOk(l: Layout, blocks: seq<Block>, elements: set<int>, base: int)
    requires l.Ok() && BlocksOk(l, blocks, 0) && Carved(l, blocks, elements) && Fresh(l, blocks, base)
    ensures BlocksOk(l, [NewBlock(l, base)] + blocks, l.count) && Carved(l, [NewBlock(l, base)] + blocks, elements)
  {
    var bs := [NewBlock(l, base)] + blocks;
    if blocks != [] { SlotFits0(l.Stride()); }
    forall a | a in elements ensures InSome(l, bs, a) {
      var i :| 0 <= i < |blocks| && Inside(l, blocks[i], a);
      assert Inside(l, bs[i + 1], a);
    }
  }

  lemma SlotFits0(stride: int)
    ensures stride * 0 == 0
  {
  }

  lemma FreshAdvance(l: Layout, blocks: seq<Block>, base: int)
    requires Fresh(l, blocks, base) && blocks != []
    ensures Fresh(l, Advance(l, blocks), base)
  {
    forall i | 0 <= i < |blocks| ensures BlocksApart(NewBlock(l, base), Advance(l, blocks)[i]) {
      assert BlocksApart(NewBlock(l, base), blocks[i]);
    }
  }

  /** A carved up block stays as it is when its pointer is set to its end. */
  lemma AtEnd(l: Layout, blocks: seq<Block>)
    requires BlocksOk(l, blocks, 0) && blocks != []
    ensures blocks[0 := blocks[0].(pointer := blocks[0].max)] == blocks
  {
    SlotFits0(l.Stride());
  }

  lemma FreshTail(l: Layout, b: Block, blocks: seq<Block>, base: int)
    requires Fresh(l, [b] + blocks, base)
    ensures Fresh(l, blocks, base)
  {
    forall i | 0 <= i < |blocks| ensures BlocksApart(NewBlock(l, base), blocks[i]) {
      assert BlocksApart(NewBlock(l, base), ([b] + blocks)[i + 1]);
    }
  }
}
