/** An area: elements of one size, handed out from a free list or carved from blocks of memory. */
module AreaAlloc {
  import opened AreaLayout
  import opened Common
  import Arith

  const NULL: int := 0
  const FREED: int := 0x01010101

  /** What allocating an element answers; the last is a slot carved behind the end of a block. */
  datatype Allocation = Element(p: int) | OutOfMemory | PastBlock

  /** What freeing an element answers. */
  datatype Outcome = Freed | IllegalPointer | FreeTwice

  ghost function Members(s: seq<int>): set<int> {
    if s == [] then {} else {s[0]} + Members(s[1..])
  }

  ghost predicate Different(s: seq<int>) {
    s == [] || (s[0] !in Members(s[1..]) && Different(s[1..]))
  }

  lemma {:induction false} CountMembers(s: seq<int>)
    requires Different(s)
    ensures |Members(s)| == |s|
  {
    if s == [] {
      assert Members(s) == {};
    } else {
      CountMembers(s[1..]);
    }
  }

  /** One more address in front. */
  lemma OneMoreMember(s: seq<int>, p: int)
    requires Different(s) && p !in Members(s)
    ensures Different([p] + s) && Members([p] + s) == Members(s) + {p}
  {
    assert ([p] + s)[1..] == s;
  }

  /** The addresses s, all different, are chained in memory from the first on. */
  ghost predicate Chained(mem: map<int, int>, first: int, s: seq<int>)
    decreases |s|
  {
    if s == [] then first == NULL
    else first == s[0] && first > 0 && first in mem && first !in Members(s[1..]) && Chained(mem, mem[first], s[1..])
  }

  /** The prefix of an element says whether it is free. */
  ghost predicate Prefixed(mem: map<int, int>, live: set<int>, freed: set<int>) {
    && (forall a :: a in live ==> a - 8 in mem && mem[a - 8] == 0)
    && (forall a :: a in freed ==> a - 8 in mem && mem[a - 8] != 0)
  }

  lemma {:induction false} ChainWrite(mem: map<int, int>, first: int, s: seq<int>, w: int, v: int)
    requires Chained(mem, first, s) && w !in Members(s)
    ensures Chained(mem[w := v], first, s)
    decreases |s|
  {
    if s == [] {
    } else {
      ChainWrite(mem, mem[first], s[1..], w, v);
    }
  }

  lemma {:induction false} ChainDiffers(mem: map<int, int>, first: int, s: seq<int>)
    requires Chained(mem, first, s)
    ensures Different(s)
    decreases |s|
  {
    if s == [] {
    } else {
      ChainDiffers(mem, mem[first], s[1..]);
    }
  }

  lemma ChainPush(mem: map<int, int>, first: int, s: seq<int>, p: int)
    requires Chained(mem, first, s) && p > 0 && p !in Members(s)
    ensures Chained(mem[p := first], p, [p] + s) && Members([p] + s) == Members(s) + {p}
  {
    ChainWrite(mem, first, s, p, first);
    assert ([p] + s)[1..] == s;
  }

  /** The free elements are chained in memory, and with checks on the prefixes say which are free. */
  ghost predicate MarkedIn(check: bool, mem: map<int, int>, first: int, live: set<int>, freeList: seq<int>) {
    Chained(mem, first, freeList) && (check ==> Prefixed(mem, live, Members(freeList)))
  }

  /** Every element is live, free or moving from one to the other. */
  ghost predicate Parts(elements: set<int>, live: set<int>, freeList: seq<int>, moving: set<int>) {
    && elements == live + Members(freeList) + moving && live !! Members(freeList) && live + Members(freeList) !! moving
  }

  /** The word at w is neither the link nor the prefix of element a. */
  predicate OffWords(w: int, a: int) {
    w != a && w != a - 8
  }

  ghost predicate Elsewhere(w: int, live: set<int>, freeList: seq<int>) {
    (forall a :: a in live ==> OffWords(w, a)) && (forall a :: a in Members(freeList) ==> OffWords(w, a))
  }

  lemma Write(check: bool, mem: map<int, int>, first: int, live: set<int>, freeList: seq<int>, w: int, v: int)
    requires MarkedIn(check, mem, first, live, freeList) && Elsewhere(w, live, freeList)
    ensures MarkedIn(check, mem[w := v], first, live, freeList)
  {
    assert !OffWords(w, w);
    ChainWrite(mem, first, freeList, w, v);
    if check {
      forall a | a in live ensures w != a - 8 { assert OffWords(w, a); }
      forall a | a in Members(freeList) ensures w != a - 8 { assert OffWords(w, a); }
    }
  }

  /** The prefix and the inside of an element are apart from the words of the others. */
  lemma ApartWords(l: Layout, blocks: seq<Block>, elements: set<int>, p: int, w: int, a: int)
    requires l.Ok() && Carved(l, blocks, elements) && p in elements && a in elements && a != p
    requires l.pre == 8 && p - 8 <= w < p + l.size
    ensures OffWords(w, a)
  {
    assert Apart(l, a, p);
  }

  lemma Pop(check: bool, mem: map<int, int>, first: int, elements: set<int>, live: set<int>, freeList: seq<int>)
    requires MarkedIn(check, mem, first, live, freeList) && Parts(elements, live, freeList, {}) && first != NULL
    ensures freeList != [] && freeList[0] == first && first in mem
    ensures MarkedIn(check, mem, mem[first], live, freeList[1..]) && Parts(elements, live, freeList[1..], {first})
  {
  }

  /** The memory after the status of p is written. */
  function Status(check: bool, mem: map<int, int>, p: int, v: int): map<int, int> {
    if check then mem[p - 8 := v] else mem
  }

  /** No other element has its link or prefix in the words of p. */
  lemma WordsElsewhere(l: Layout, blocks: seq<Block>, elements: set<int>, live: set<int>, freeList: seq<int>, p: int,
                       w: int)
    requires l.Ok() && l.pre == 8 && Carved(l, blocks, elements) && p in elements && p - 8 <= w < p + l.size
    requires live + Members(freeList) <= elements && p !in live && p !in Members(freeList)
    ensures Elsewhere(w, live, freeList)
  {
    forall a | a in live ensures OffWords(w, a) { ApartWords(l, blocks, elements, p, w, a); }
    forall a | a in Members(freeList) ensures OffWords(w, a) { ApartWords(l, blocks, elements, p, w, a); }
  }

  lemma PartsCarved(elements: set<int>, live: set<int>, freeList: seq<int>)
    requires Parts(elements, live, freeList, {})
    ensures forall p :: p !in elements ==> Parts(elements + {p}, live, freeList, {p})
  {
  }

  lemma PartsOut(elements: set<int>, live: set<int>, freeList: seq<int>, p: int)
    requires Parts(elements, live, freeList, {p})
    ensures Parts(elements, live + {p}, freeList, {})
  {
  }

  lemma MarksOut(check: bool, mem: map<int, int>, first: int, live: set<int>, freeList: seq<int>, p: int)
    requires MarkedIn(check, mem, first, live, freeList) && (check ==> Elsewhere(p - 8, live, freeList))
    ensures MarkedIn(check, Status(check, mem, p, 0), first, live + {p}, freeList)
  {
    if check { Write(check, mem, first, live, freeList, p - 8, 0); }
  }

  lemma PartsIn(elements: set<int>, live: set<int>, freeList: seq<int>, p: int)
    requires Parts(elements, live, freeList, {}) && p in live
    ensures Parts(elements, live - {p}, [p] + freeList, {})
  {
    assert ([p] + freeList)[1..] == freeList;
  }

  lemma MarksIn(check: bool, mem: map<int, int>, first: int, live: set<int>, freeList: seq<int>, p: int)
    requires MarkedIn(check, mem, first, live, freeList) && p in live && p > 0 && p !in Members(freeList)
    requires check ==> Elsewhere(p - 8, live - {p}, freeList) && Elsewhere(p, live - {p}, freeList)
    ensures MarkedIn(check, Status(check, mem, p, FREED)[p := first], p, live - {p}, [p] + freeList)
  {
    if check { Write(check, mem, first, live - {p}, freeList, p - 8, FREED); }
    var m := Status(check, mem, p, FREED);
    ChainPush(m, first, freeList, p);
    if check { PrefixKept(m, live - {p}, freeList, p, first); }
  }

  lemma PrefixKept(mem: map<int, int>, live: set<int>, freeList: seq<int>, p: int, v: int)
    requires Prefixed(mem, live, Members(freeList)) && Elsewhere(p, live, freeList) && p - 8 in mem && mem[p - 8] != 0
    ensures Prefixed(mem[p := v], live, Members(freeList) + {p})
  {
    forall a | a in live ensures p != a - 8 { assert OffWords(p, a); }
    forall a | a in Members(freeList) ensures p != a - 8 { assert OffWords(p, a); }
  }

  lemma SlotsLeft(stride: int, left: int)
    requires stride > 0 && left >= 0
    ensures stride * left / stride == left
  {
    Arith.DivModUnique(stride * left, stride, left, 0);
  }

  lemma OneMore(n: int, count: int)
    ensures (n + 1) * count == n * count + count
  {
  }

  class Area {
    const layout: Layout
    const check: bool
    var blocks: seq<Block>
    var free: int
    /** Words of memory: a free element holds the next one, and with checks on a prefix holds its status. */
    var mem: map<int, int>
    var nAllocs: int
    var nFrees: int
    var bCnt: int
    var aCnt: int
    var fCnt: int
    ghost var elements: set<int>
    ghost var live: set<int>
    ghost var freeList: seq<int>
    ghost var order: seq<int>  // the elements, the last one carved first
    ghost var left: int

    /** The elements lie apart in the blocks, and every slot is an element or left. */
    ghost predicate Laid()
      reads this`blocks, this`bCnt, this`elements, this`order, this`left
    {
      && layout.count > 0 && layout.pre == (if check then 8 else 0) && (blocks != [] ==> layout.Ok())
      && BlocksOk(layout, blocks, left) && Carved(layout, blocks, elements)
      && elements == Members(order) && Different(order) && bCnt == |blocks| && bCnt * layout.count == |order| + left
    }

    /** There is room in the first block, or no block yet. */
    ghost predicate Room()
      reads this`blocks
    {
      blocks != [] ==> blocks[0].pointer < blocks[0].max
    }

    lemma RoomLeft()
      requires Laid() && blocks != []
      ensures Room() <==> left > 0
    {
      Product(layout.Stride(), left, layout.count);
      if left > 0 { SlotFits(layout.Stride(), left); } else { SlotFits0(layout.Stride()); }
    }

    /** Every element is live, free or moving, and is counted. */
    ghost predicate Divided(moving: set<int>)
      reads this`elements, this`live, this`freeList, this`order, this`aCnt, this`fCnt, this`nAllocs, this`nFrees
    {
      && Parts(elements, live, freeList, moving) && fCnt == |freeList| && nAllocs - nFrees == aCnt
      && aCnt + fCnt + (if moving == {} then 0 else 1) == |order|
    }

    ghost predicate Marked()
      reads this`mem, this`free, this`live, this`freeList
    {
      MarkedIn(check, mem, free, live, freeList)
    }

    ghost predicate Valid()
      reads this
    {
      Laid() && Divided({}) && Marked()
    }

    /** Elements are rounded up to a multiple of eight bytes. */
    constructor (elementSize: nat, allocCount: nat, check: bool)
      requires allocCount > 0
      ensures Valid() && live == {} && blocks == [] && free == NULL && this.check == check && layout.count == allocCount
      ensures layout.size % 8 == 0 && elementSize <= layout.size < elementSize + 8
    {
      var adjust := elementSize % 8;
      var size := if adjust != 0 then elementSize + 8 - adjust else elementSize;
      layout := Layout(size, allocCount, if check then 8 else 0);
      this.check := check;
      blocks, free, mem, nAllocs, nFrees, bCnt, aCnt, fCnt := [], NULL, map[], 0, 0, 0, 0, 0;
      elements, live, freeList, order, left := {}, {}, [], [], 0;
    }

    /** Two live elements do not overlap, and each lies in a block. */
    lemma LiveApart(a: int, c: int)
      requires Valid() && a in live && c in live && a != c
      ensures a + layout.size <= c || c + layout.size <= a
      ensures exists i :: 0 <= i < |blocks| && blocks[i].data <= a && a + layout.size <= blocks[i].max
    {
      assert InSome(layout, blocks, a);
      var i :| 0 <= i < |blocks| && Inside(layout, blocks[i], a);
      if i == 0 { HeadStart(layout, blocks, left); }
      assert Apart(layout, a, c);
    }

    /** The count of elements in use is that of the live ones. */
    lemma LiveCount()
      requires Valid()
      ensures aCnt == |live| && fCnt == |Members(freeList)| && bCnt * layout.count == aCnt + fCnt + left
    {
      ChainDiffers(mem, free, freeList);
      CountMembers(freeList);
      CountMembers(order);
      assert |live + Members(freeList)| == |live| + |Members(freeList)|;
      assert elements == live + Members(freeList);
    }

    /** Take the first free element. */
    method PopFree() returns (p: int)
      requires Divided({}) && Marked() && free != NULL
      modifies this`free, this`fCnt, this`freeList
      ensures Divided({p}) && Marked() && p in old(Members(freeList)) && p > 0
    {
      Pop(check, mem, free, elements, live, freeList);
      p := free;
      free := mem[p];
      fCnt := fCnt - 1;
      freeList := freeList[1..];
    }

    /** Mark an element as live and hand it out. */
    method HandOut(p: int)
      requires Divided({p}) && Marked() && (check ==> Elsewhere(p - 8, live, freeList))
      modifies this`mem, this`nAllocs, this`aCnt, this`live
      ensures Divided({}) && Marked() && live == old(live) + {p}
    {
      PartsOut(elements, live, freeList, p);
      MarksOut(check, mem, free, live, freeList, p);
      if check {
        mem := mem[p - 8 := 0];
      }
      nAllocs := nAllocs + 1;
      aCnt := aCnt + 1;
      live := live + {p};
    }

    /** Put a live element on the free list. */
    method PushFree(p: int)
      requires Divided({}) && Marked() && p in live && p > 0
      requires check ==> Elsewhere(p - 8, live - {p}, freeList) && Elsewhere(p, live - {p}, freeList)
      modifies this`mem, this`free, this`nFrees, this`fCnt, this`aCnt, this`live, this`freeList
      ensures Divided({}) && Marked() && live == old(live) - {p} && freeList == [p] + old(freeList)
    {
      PartsIn(elements, live, freeList, p);
      MarksIn(check, mem, free, live, freeList, p);
      if check {
        mem := mem[p - 8 := FREED];
      }
      mem := mem[p := free];
      free := p;
      nFrees := nFrees + 1;
      fCnt := fCnt + 1;
      aCnt := aCnt - 1;
      live, freeList := live - {p}, [p] + freeList;
    }

    /** Put a new block in front, when the others are carved up, unless there is no memory for it. */
    method Grow(base: Option<int>) returns (ok: bool)
      requires Laid() && left == 0 && (base.Some? ==> Fresh(layout, blocks, base.value))
      modifies this`blocks, this`bCnt, this`left
      ensures Laid() && (ok <==> layout.size >= 8 && base.Some?)
      ensures if ok then blocks == [NewBlock(layout, base.value)] + old(blocks) && left == layout.count
              else blocks == old(blocks) && left == 0
    {
      if layout.size < 8 || base.None? {
        return false;
      }
      GrowOk(layout, blocks, elements, base.value);
      var size := layout.Stride() * layout.count;
      blocks := [Block(base.value + HEADER, base.value + HEADER, base.value + HEADER + size)] + blocks;
      OneMore(bCnt, layout.count);
      bCnt := bCnt + 1;
      left := layout.count;
      ok := true;
    }

    /** Carve the next slot of the first block. */
    method Carve() returns (p: int)
      requires Laid() && blocks != [] && left > 0
      modifies this`blocks, this`elements, this`order, this`left
      ensures Laid() && p > 0 && p !in old(elements) && blocks == Advance(layout, old(blocks))
      ensures elements == old(elements) + {p} && |order| == |old(order)| + 1
      ensures left == old(left) - 1 && (blocks[0].pointer >= blocks[0].max <==> left == 0)
    {
      CarveNext(layout, blocks, left, elements);
      AdvanceOk(layout, blocks, left);
      p := blocks[0].pointer + layout.pre;
      blocks := blocks[0 := blocks[0].(pointer := blocks[0].pointer + layout.Stride())];
      OneMoreMember(order, p);
      elements, order, left := elements + {p}, [p] + order, left - 1;
    }

    /** Grow when the first block is carved up. */
    method MakeRoom(base: Option<int>)
      requires Laid() && blocks != [] && (base.Some? ==> Fresh(layout, blocks, base.value))
      requires blocks[0].pointer >= blocks[0].max <==> left == 0
      modifies this`blocks, this`bCnt, this`left
      ensures Laid() && blocks != [] && (Room() <==> base.Some? || old(left) > 0)
    {
      if blocks[0].pointer >= blocks[0].max {
        AtEnd(layout, blocks);
        blocks := blocks[0 := blocks[0].(pointer := blocks[0].max)];
        var ok := Grow(base);
      }
      RoomLeft();
    }

    /** Carve a slot, and make room for the next one. */
    method CarveAndGrow(base: Option<int>) returns (p: int)
      requires Laid() && blocks != [] && left > 0 && Divided({}) && (base.Some? ==> Fresh(layout, blocks, base.value))
      modifies this`blocks, this`bCnt, this`elements, this`order, this`left
      ensures Laid() && Divided({p}) && p > 0 && (Room() <==> base.Some? || old(left) > 1)
    {
      PartsCarved(elements, live, freeList);
      if base.Some? { FreshAdvance(layout, blocks, base.value); }
      p := Carve();
      MakeRoom(base);
    }

    lemma SomeBlock(a: int)
      requires Laid() && a in elements
      ensures blocks != [] && layout.Ok()
    {
      assert InSome(layout, blocks, a);
    }

    /** With checks on, the prefix of a moving element is apart from the words of the others. */
    lemma PrefixApart(p: int)
      requires Laid() && Divided({p}) && check
      ensures Elsewhere(p - 8, live, freeList)
    {
      SomeBlock(p);
      WordsElsewhere(layout, blocks, elements, live, freeList, p, p - 8);
    }

    /** The memory found for a first block and for a block to follow is apart from the blocks and each other. */
    ghost predicate FreshMemory(first: Option<int>, second: Option<int>)
      reads this`blocks
    {
      && (first.Some? ==> Fresh(layout, blocks, first.value))
      && (second.Some? ==> Fresh(layout, (if first.Some? then [NewBlock(layout, first.value)] else []) + blocks,
                                 second.value))
    }

    lemma SecondFresh(first: Option<int>, second: int)
      requires FreshMemory(first, Some(second))
      ensures Fresh(layout, blocks, second)
    {
      if first.Some? {
        FreshTail(layout, NewBlock(layout, first.value), blocks, second);
      } else {
        assert [] + blocks == blocks;
      }
    }

    /** Make a first block if there is none, and carve a slot. */
    method CarveFresh(first: Option<int>, second: Option<int>) returns (r: Allocation)
      requires Laid() && Divided({}) && FreshMemory(first, second)
      modifies this`blocks, this`bCnt, this`elements, this`order, this`left
      ensures Laid() && (r.Element? ==> Divided({r.p}) && r.p > 0) && (!r.Element? ==> unchanged(this))
      ensures r.OutOfMemory? <==> old(blocks) == [] && (first.None? || layout.size < 8)
      ensures r.PastBlock? <==> old(!Room())
      ensures r.Element? ==> (Room() <==> second.Some? || old(left) > 1 || (old(blocks) == [] && layout.count > 1))
    {
      if second.Some? { SecondFresh(first, second.value); }
      if blocks == [] {
        var ok := Grow(first);
        if !ok {
          return OutOfMemory;
        }
      } else {
        RoomLeft();
        if blocks[0].pointer >= blocks[0].max {
          return PastBlock;
        }
      }
      var p := CarveAndGrow(second);
      r := Element(p);
    }

    /**
     * Allocate an element: the first free one, or else the next slot. The memory for a first block and for a
     * block to follow is at the addresses given, if there is any. Nothing looks whether the block to follow could be
     * made: without it, and with no free element, the next slot lies behind the end of the last block.
     */
    method Alloc(first: Option<int>, second: Option<int>) returns (r: Allocation)
      requires Valid() && FreshMemory(first, second)
      modifies this
      ensures Valid() && (!r.Element? ==> unchanged(this))
      ensures r.OutOfMemory? <==> old(free == NULL && blocks == []) && (first.None? || layout.size < 8)
      ensures r.PastBlock? <==> old(free == NULL && !Room())
      ensures r.Element? ==> r.p != NULL && r.p !in old(live) && live == old(live) + {r.p}
      ensures r.Element? && old(free) == NULL ==>
                free == NULL
                && (Room() <==> second.Some? || (if old(blocks) == [] then layout.count > 1 else old(left) > 1))
      ensures r.Element? && old(free) != NULL ==> blocks == old(blocks)
      ensures second.Some? && old(Room()) ==> Room()
    {
      var p;
      if free != NULL {
        p := PopFree();
        SomeBlock(p);
      } else {
        r := CarveFresh(first, second);
        if !r.Element? {
          return;
        }
        p := r.p;
      }
      if check { PrefixApart(p); }
      HandOut(p);
      r := Element(p);
    }

    ghost predicate InRange(a: int)
      reads this`blocks
    {
      exists i :: 0 <= i < |blocks| && blocks[i].data <= a < blocks[i].max
    }

    lemma ElementInRange(a: int)
      requires Laid() && a in elements
      ensures InRange(a) && a > 0 && layout.Ok()
    {
      SomeBlock(a);
      assert InSome(layout, blocks, a);
      var i :| 0 <= i < |blocks| && Inside(layout, blocks[i], a);
      HeadStart(layout, blocks, left);
      assert WholeBlock(layout, blocks[i]);
      assert blocks[i].data <= a < blocks[i].max;
    }

    /** Whether an address lies in a block. */
    method Validate(address: int) returns (ok: bool)
      ensures ok <==> InRange(address)
    {
      ok := false;
      var i := 0;
      while i < |blocks| && !ok
        invariant 0 <= i <= |blocks|
        invariant ok <==> exists j :: 0 <= j < i && blocks[j].data <= address < blocks[j].max
      {
        if blocks[i].data <= address && blocks[i].max > address {
          ok := true;
        }
        i := i + 1;
      }
    }

    lemma LiveWordsApart(p: int, w: int)
      requires Laid() && Divided({}) && check && p in live && p - 8 <= w < p + layout.size
      ensures Elsewhere(w, live - {p}, freeList)
    {
      SomeBlock(p);
      WordsElsewhere(layout, blocks, elements, live - {p}, freeList, p, w);
    }

    /**
     * Free an element. With checks on, an address outside the blocks and an element that is free already are
     * turned away; without, the caller frees live elements only.
     */
    method Free(p: int) returns (outcome: Outcome)
      requires Valid() && (if check then InRange(p) ==> p in elements else p in live)
      modifies this
      ensures Valid()
      ensures outcome == if p in old(live) then Freed else if old(InRange(p)) then FreeTwice else IllegalPointer
      ensures outcome == Freed ==> live == old(live) - {p}
      ensures outcome != Freed ==> unchanged(this)
    {
      if check {
        var ok := Validate(p);
        if !ok {
          if p in live { ElementInRange(p); }
          return IllegalPointer;
        }
        if mem[p - 8] != 0 {
          return FreeTwice;
        }
        LiveWordsApart(p, p - 8);
        LiveWordsApart(p, p);
      }
      ElementInRange(p);
      PushFree(p);
      outcome := Freed;
    }

    lemma WriteApart(p: int, w: int, a: int)
      requires Laid() && p in elements && a in elements && a != p && p <= w < p + layout.size
      ensures w != a
    {
      SomeBlock(p);
      assert Apart(layout, a, p);
    }

    /** What its user writes into a live element leaves the area sound. */
    method Store(p: int, w: int, v: int)
      requires Valid() && p in live && p <= w < p + layout.size
      modifies this`mem
      ensures Valid() && mem == old(mem)[w := v]
    {
      SomeBlock(p);
      if check {
        LiveWordsApart(p, w);
        Write(check, mem, free, live - {p}, freeList, w, v);
      } else {
        forall a | a in Members(freeList) ensures w != a { WriteApart(p, w, a); }
        ChainWrite(mem, free, freeList, w, v);
      }
      mem := mem[w := v];
    }

    /** Count the free list along its links. */
    method CountFree() returns (freed: int)
      requires Chained(mem, free, freeList)
      ensures freed == |freeList|
    {
      freed := 0;
      var f := free;
      ghost var rest := freeList;
      while f != NULL
        invariant Chained(mem, f, rest) && freed + |rest| == |freeList|
        decreases |rest|
      {
        freed := freed + 1;
        f := mem[f];
        rest := rest[1..];
      }
    }

    /** The number of elements in use, counted from the blocks and the free list. */
    method InUse() returns (used: int)
      requires Valid()
      ensures used == aCnt == |live|
    {
      LiveCount();
      if blocks == [] {
        return 0;
      }
      var elementSize := layout.Stride();
      var total := |blocks| * layout.count;
      var freed := CountFree();
      SlotsLeft(elementSize, left);
      var unallocated := (blocks[0].max - blocks[0].pointer) / elementSize;
      used := total - unallocated - freed;
    }
  }

  /** An area of one slot, of which no second block can be had: after its one element the next lies behind the block. */
  method OneSlot(base: int) returns (a: Area, first: Allocation, next: Allocation)
    requires base > 0
    ensures first.Element? && next == PastBlock
  {
    a := new Area(8, 1, false);
    first := a.Alloc(Some(base), None);
    next := a.Alloc(None, None);
  }
}
