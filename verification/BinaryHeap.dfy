/** A binary max-heap in a fixed array, used to keep the smallest elements and to sort. */
module BinaryHeap {
  import opened Common
  import opened HeapOrder
  import opened SortedOrder

  datatype State = Inconsistent | Consistent | SortedArray

  /** The division of the source rounds toward zero. */
  function ParentOf(i: int): (r: int)
    ensures if i >= 1 then 2 * r <= i - 1 < 2 * r + 2 else 2 * r - 2 < i - 1 <= 2 * r
  {
    if i >= 1 then (i - 1) / 2 else -((1 - i) / 2)
  }

  /** No element of low is larger than an element of high. */
  ghost predicate Separates<T(!new)>(cmp: Comparator<T>, low: multiset<T>, high: multiset<T>) {
    forall x, y :: x in low && y in high ==> Leq(cmp, x, y)
  }

  class Heap<T(!new, 0)> {
    const maxCapacity: nat
    const cmp: Comparator<T>
    const members: array<T>
    var elementCount: int
    var state: State

    ghost predicate Valid()
      reads this, members
    {
      && TotalPreorder(cmp) && members.Length == maxCapacity > 0
      && 0 <= elementCount <= maxCapacity
      && (state == Consistent ==> IsHeap(cmp, members[..], elementCount))
      && (state == SortedArray ==> Ascending(cmp, members[..elementCount]))
    }

    ghost function Contents(): multiset<T>
      reads this, members
      requires Valid()
    {
      multiset(members[..elementCount])
    }

    constructor (capacity: nat, cmp: Comparator<T>)
      requires capacity > 0 && TotalPreorder(cmp)
      ensures Valid() && fresh(members) && this.cmp == cmp && maxCapacity == capacity
      ensures state == Consistent && Contents() == multiset{}
    {
      members := new T[capacity];
      maxCapacity, this.cmp := capacity, cmp;
      elementCount, state := 0, Consistent;
    }

    /** Push the element at index up to its place. */
    method UpHeap(index: int)
      requires TotalPreorder(cmp) && 0 <= index < elementCount <= members.Length
      requires OrderedAbove(cmp, members[..], elementCount, index)
      modifies members
      ensures IsHeap(cmp, members[..], elementCount)
      ensures multiset(members[..elementCount]) == old(multiset(members[..elementCount]))
      ensures members[elementCount..] == old(members[elementCount..])
      decreases index
    {
      if index == 0 {
        return;
      }
      var parent := ParentOf(index);
      if cmp(members[parent], members[index]) == LT {
        ghost var s := members[..];
        SiftUpStep(cmp, s, elementCount, index);
        SwapPrefix(s, index, parent, elementCount);
        members[index], members[parent] := members[parent], members[index];
        assert members[..] == Swap(s, index, parent);
        UpHeap(parent);
      }
    }

    /** Push the element at index down to its place among the nodes from lo on. */
    method DownHeap(index: int, ghost lo: int)
      requires TotalPreorder(cmp) && 0 <= lo <= index && 0 <= elementCount <= members.Length
      requires index < elementCount || elementCount == 0
      requires OrderedBut(cmp, members[..], elementCount, lo, index)
      modifies members
      ensures OrderedFrom(cmp, members[..], elementCount, lo)
      ensures multiset(members[..elementCount]) == old(multiset(members[..elementCount]))
      ensures members[elementCount..] == old(members[elementCount..])
      decreases elementCount - index
    {
      var left := 2 * index + 1;
      var right := 2 * index + 2;
      var largest := index;
      if left <= elementCount - 1 && cmp(members[left], members[largest]) == GT {
        largest := left;
      }
      if right <= elementCount - 1 && cmp(members[right], members[largest]) == GT {
        largest := right;
      }
      ghost var s := members[..];
      assert forall j :: 0 < j < elementCount && Parent(j) == index ==> j == left || j == right;
      if largest != index {
        SiftDownStep(cmp, s, elementCount, lo, index, largest);
        SwapPrefix(s, index, largest, elementCount);
        members[index], members[largest] := members[largest], members[index];
        assert members[..] == Swap(s, index, largest);
        DownHeap(largest, lo);
      } else {
        SiftDownDone(cmp, s, elementCount, lo, index);
      }
    }

    /** Add an element without restoring the order. */
    method Add(elem: T) returns (ok: bool)
      requires Valid()
      modifies this`elementCount, this`state, members
      ensures Valid() && state == Inconsistent && ok == (old(elementCount) < maxCapacity)
      ensures Contents() == if ok then old(Contents()) + multiset{elem} else old(Contents())
    {
      state := Inconsistent;
      if elementCount >= maxCapacity {
        return false;
      }
      members[elementCount] := elem;
      elementCount := elementCount + 1;
      assert members[..elementCount] == old(members[..elementCount]) + [elem];
      return true;
    }

    method Insert(elem: T) returns (ok: bool)
      requires Valid() && (elementCount == 0 || state == Consistent)
      modifies this`elementCount, this`state, members
      ensures Valid() && state == Consistent && ok == (old(elementCount) < maxCapacity)
      ensures Contents() == if ok then old(Contents()) + multiset{elem} else old(Contents())
      ensures elementCount == old(elementCount) + if ok then 1 else 0
    {
      if elementCount == 0 {
        state := Consistent;
      }
      if elementCount >= maxCapacity {
        return false;
      }
      members[elementCount] := elem;
      elementCount := elementCount + 1;
      assert members[..elementCount] == old(members[..elementCount]) + [elem];
      UpHeap(elementCount - 1);
      return true;
    }

    /** Replace the largest element. */
    method ReplaceMax(elem: T) returns (replaced: T)
      requires Valid() && state == Consistent && elementCount > 0
      modifies members
      ensures Valid() && replaced in old(Contents())
      ensures forall x :: x in old(Contents()) ==> Leq(cmp, x, replaced)
      ensures Contents() == old(Contents()) - multiset{replaced} + multiset{elem}
    {
      ghost var s, n := members[..], elementCount;
      RootOfContents(cmp, s, n);
      replaced := members[0];
      members[0] := elem;
      assert members[..n] == [elem] + s[1..n] && s[..n] == [s[0]] + s[1..n];
      assert members[..] == s[0 := elem];
      DownHeap(0, 0);
    }

    /** Insert when there is room, else keep the smaller of the largest element and the new one. */
    method TryInsert(elem: T) returns (left: Option<T>)
      requires Valid() && (elementCount == 0 || state == Consistent)
      modifies this`elementCount, this`state, members
      ensures Valid() && state == Consistent
      ensures left == None <==> old(elementCount) < maxCapacity
      ensures left == None ==> Contents() == old(Contents()) + multiset{elem}
      ensures left.Some? ==> Contents() + multiset{left.value} == old(Contents()) + multiset{elem}
      ensures left.Some? ==> (left.value in old(Contents()) || left.value == elem) && Leq(cmp, elem, left.value)
      ensures left.Some? ==> forall x :: x in old(Contents()) ==> Leq(cmp, x, left.value)
      ensures elementCount == old(elementCount) + if left == None then 1 else 0
    {
      if elementCount < maxCapacity {
        var ok := Insert(elem);
        return None;
      }
      ghost var n := elementCount;
      RootOfContents(cmp, members[..], n);
      if cmp(members[0], elem) == GT {
        var replaced := ReplaceMax(elem);
        return Some(replaced);
      }
      return Some(elem);
    }

    /** Exchange the root with the last element, shrink the heap by it, and restore the order. */
    method PopRoot()
      requires TotalPreorder(cmp) && 0 < elementCount <= members.Length
      requires IsHeap(cmp, members[..], elementCount)
      modifies this`elementCount, members
      ensures elementCount == old(elementCount) - 1 && IsHeap(cmp, members[..], elementCount)
      ensures members[elementCount..] == [old(members[0])] + old(members[elementCount..])
      ensures multiset(members[..elementCount]) + multiset{old(members[0])} == old(multiset(members[..elementCount]))
    {
      ghost var t := Swap(members[..], 0, elementCount - 1);
      RootMovesLast(cmp, members[..], elementCount);
      members[0], members[elementCount - 1] := members[elementCount - 1], members[0];
      assert members[..] == t;
      elementCount := elementCount - 1;
      DownHeap(0, 0);
    }

    /** Remove the largest element. */
    method ExtractMax() returns (max: T)
      requires Valid() && state == Consistent
      modifies this`elementCount, members
      ensures Valid()
      ensures old(elementCount) == 0 ==> elementCount == 0
      ensures old(elementCount) > 0 ==>
                && max in old(Contents()) && Contents() == old(Contents()) - multiset{max}
                && forall x :: x in old(Contents()) ==> Leq(cmp, x, max)
    {
      var idx := elementCount - 1;
      if idx >= 0 { RootOfContents(cmp, members[..], elementCount); }
      if idx <= 0 {
        assert idx == 0 ==> members[..elementCount] == [members[0]];
        elementCount := 0;
        return members[0];
      }
      PopRoot();
      assert members[idx] == members[idx..][0];
      return members[idx];
    }

    /** Restore the heap order. */
    method BuildHeap()
      requires Valid()
      modifies this`state, members
      ensures Valid() && state == Consistent && Contents() == old(Contents())
    {
      if state == Consistent {
        return;
      }
      var i := ParentOf(elementCount - 1);
      while i >= 0
        invariant -1 <= i && (i < elementCount || elementCount == 0)
        invariant OrderedFrom(cmp, members[..], elementCount, i + 1)
        invariant multiset(members[..elementCount]) == old(Contents())
      {
        DownHeap(i, i);
        i := i - 1;
      }
      state := Consistent;
    }

    /** Turn the heap into an ascending array. */
    method ToSortedArray()
      requires Valid() && state == Consistent
      modifies this`elementCount, this`state, members
      ensures Valid() && state == SortedArray && elementCount == old(elementCount)
      ensures Ascending(cmp, members[..elementCount]) && Contents() == old(Contents())
    {
      var n := elementCount;
      while elementCount > 0
        invariant 0 <= elementCount <= n && IsHeap(cmp, members[..], elementCount)
        invariant HalfSorted(cmp, members[..], elementCount, n, old(Contents()))
      {
        ghost var s, c := members[..], elementCount;
        PopRoot();
        SortStep(cmp, s, members[..], c, n, old(Contents()));
      }
      state := SortedArray;
      elementCount := n;
    }

    method OfferNext(elems: seq<T>, i: int, left: seq<T>) returns (left': seq<T>)
      requires Valid() && (elementCount == 0 || state == Consistent) && 0 <= i < |elems|
      requires (left != [] ==> elementCount == maxCapacity) && KeepsSmallest(cmp, Contents(), left, elems[..i])
      modifies this`elementCount, this`state, members
      ensures Valid() && state == Consistent
      ensures elementCount == if old(elementCount) < maxCapacity then old(elementCount) + 1 else maxCapacity
      ensures (left' != [] ==> elementCount == maxCapacity) && KeepsSmallest(cmp, Contents(), left', elems[..i + 1])
    {
      ghost var before := Contents();
      var l := TryInsert(elems[i]);
      OfferStep(cmp, before, left, elems, i, l, Contents());
      left' := if l.Some? then left + [l.value] else left;
    }

    /** Offer elements one by one; the result is what was turned away or pushed out. */
    method OfferAll(elems: seq<T>) returns (left: seq<T>)
      requires Valid() && elementCount == 0
      modifies this`elementCount, this`state, members
      ensures Valid() && elementCount == (if |elems| <= maxCapacity then |elems| else maxCapacity)
      ensures KeepsSmallest(cmp, Contents(), left, elems)
    {
      left := [];
      for i := 0 to |elems|
        invariant Valid() && (elementCount == 0 || state == Consistent)
        invariant elementCount == if i <= maxCapacity then i else maxCapacity
        invariant (left != [] ==> elementCount == maxCapacity) && KeepsSmallest(cmp, Contents(), left, elems[..i])
      {
        left := OfferNext(elems, i, left);
      }
      assert elems[..|elems|] == elems;
    }
  }

  /** What is kept and what is left account for what was offered, and nothing left is smaller. */
  ghost predicate KeepsSmallest<T(!new)>(cmp: Comparator<T>, kept: multiset<T>, left: seq<T>, offered: seq<T>) {
    kept + multiset(left) == multiset(offered) && Separates(cmp, kept, multiset(left))
  }

  lemma OfferStep<T(!new)>(cmp: Comparator<T>, before: multiset<T>, left: seq<T>, elems: seq<T>, i: int,
                           l: Option<T>, after: multiset<T>)
    requires TotalPreorder(cmp) && 0 <= i < |elems| && KeepsSmallest(cmp, before, left, elems[..i])
    requires l == None ==> left == [] && after == before + multiset{elems[i]}
    requires l.Some? ==> after + multiset{l.value} == before + multiset{elems[i]}
    requires l.Some? ==> (l.value in before || l.value == elems[i]) && Leq(cmp, elems[i], l.value)
    requires l.Some? ==> forall x :: x in before ==> Leq(cmp, x, l.value)
    ensures KeepsSmallest(cmp, after, if l.Some? then left + [l.value] else left, elems[..i + 1])
  {
    assert elems[..i + 1] == elems[..i] + [elems[i]];
    assert multiset(elems[..i + 1]) == multiset(elems[..i]) + multiset{elems[i]};
    if l == None {
      assert before == multiset(elems[..i]) && after + multiset(left) == after;
    } else {
      SeparatesStep(cmp, before, multiset(left), elems[i], l.value, after);
      calc {
        after + multiset(left + [l.value]);
        (after + multiset{l.value}) + multiset(left);
        (before + multiset{elems[i]}) + multiset(left);
        (before + multiset(left)) + multiset{elems[i]};
      }
      assert multiset(left + [l.value]) == multiset(left) + multiset{l.value};
    }
  }

  lemma SeparatesStep<T(!new)>(cmp: Comparator<T>, low: multiset<T>, high: multiset<T>, e: T, l: T, low': multiset<T>)
    requires TotalPreorder(cmp) && Separates(cmp, low, high) && low' + multiset{l} == low + multiset{e}
    requires l in low || l == e
    requires (forall x :: x in low ==> Leq(cmp, x, l)) && Leq(cmp, e, l)
    ensures Separates(cmp, low', high + multiset{l})
  {
    forall x, y | x in low' && y in high + multiset{l} ensures Leq(cmp, x, y) {
      assert x in low + multiset{e};
      if y in high {
        if l in low { assert Leq(cmp, l, y); }
      }
    }
  }

  /** No element before c is larger than one from c to n. */
  ghost predicate Bounded<T>(cmp: Comparator<T>, s: seq<T>, c: int, n: int)
    requires 0 <= c <= n <= |s|
  {
    forall i, j :: 0 <= i < c <= j < n ==> Leq(cmp, s[i], s[j])
  }

  /** The n elements are those of C; from index c on they ascend, and none before is larger. */
  ghost predicate HalfSorted<T(!new)>(cmp: Comparator<T>, s: seq<T>, c: int, n: int, C: multiset<T>)
    requires 0 <= c <= n <= |s|
  {
    Ascending(cmp, s[c..n]) && Bounded(cmp, s, c, n) && multiset(s[..n]) == C
  }

  /** One round of the sort: the root has moved behind the heap. */
  lemma SortStep<T(!new)>(cmp: Comparator<T>, s: seq<T>, u: seq<T>, c: int, n: int, C: multiset<T>)
    requires TotalPreorder(cmp) && 0 < c <= n <= |s| == |u| && IsHeap(cmp, s, c) && HalfSorted(cmp, s, c, n, C)
    requires multiset(u[..c - 1]) + multiset{s[0]} == multiset(s[..c]) && u[c - 1..] == [s[0]] + s[c..]
    ensures HalfSorted(cmp, u, c - 1, n, C)
  {
    RootOfContents(cmp, s, c);
    assert u[c - 1] == s[0] by { assert u[c - 1..][0] == s[0]; }
    forall j | c <= j < n ensures u[j] == s[j] { assert u[c - 1..][j - (c - 1)] == s[c..][j - c]; }
    assert u[c - 1..n] == [s[0]] + s[c..n];
    forall i, j | 0 <= i < c - 1 <= j < n ensures Leq(cmp, u[i], u[j]) {
      assert u[..c - 1][i] in multiset(s[..c]);
      var k :| 0 <= k < c && s[..c][k] == u[i];
    }
    SortPermutes(s, u, c, n);
  }

  lemma SortPermutes<T(!new)>(s: seq<T>, u: seq<T>, c: int, n: int)
    requires 0 < c <= n <= |s| == |u| && u[c - 1..n] == [s[0]] + s[c..n]
    requires multiset(u[..c - 1]) + multiset{s[0]} == multiset(s[..c])
    ensures multiset(u[..n]) == multiset(s[..n])
  {
    assert u[..n] == u[..c - 1] + u[c - 1..n] && s[..n] == s[..c] + s[c..n];
  }

  lemma RootMovesLast<T(!new)>(cmp: Comparator<T>, s: seq<T>, n: int)
    requires 0 < n <= |s| && IsHeap(cmp, s, n)
    ensures var t := Swap(s, 0, n - 1);
            && OrderedBut(cmp, t, n - 1, 0, 0) && t[n - 1..] == [s[0]] + s[n..]
            && multiset(t[..n - 1]) + multiset{s[0]} == multiset(s[..n])
  {
    RootMovesContents(s, n);
  }

  lemma RootMovesContents<T>(s: seq<T>, n: int)
    requires 0 < n <= |s|
    ensures var t := Swap(s, 0, n - 1);
            t[n - 1..] == [s[0]] + s[n..] && multiset(t[..n - 1]) + multiset{s[0]} == multiset(s[..n])
  {
    var t := Swap(s, 0, n - 1);
    SwapPrefix(s, 0, n - 1, n);
    assert t[..n] == t[..n - 1] + [s[0]];
  }

  lemma RootOfContents<T(!new)>(cmp: Comparator<T>, s: seq<T>, n: int)
    requires TotalPreorder(cmp) && 0 < n <= |s| && IsHeap(cmp, s, n)
    ensures s[0] in multiset(s[..n])
    ensures forall x :: x in multiset(s[..n]) ==> Leq(cmp, x, s[0])
  {
    forall x | x in multiset(s[..n]) ensures Leq(cmp, x, s[0]) {
      var i :| 0 <= i < n && s[..n][i] == x;
      RootIsLargest(cmp, s, n, i);
    }
    assert s[..n][0] == s[0];
  }

  /**
   * What the filter keeps are the smallest elements: in ascending order they agree, up to ties,
   * with the beginning of any ascending arrangement of everything offered.
   */
  lemma KeptAreSmallest<T(!new)>(cmp: Comparator<T>, kept: seq<T>, left: seq<T>, offered: seq<T>, sorted: seq<T>,
                                 i: int)
    requires TotalPreorder(cmp) && KeepsSmallest(cmp, multiset(kept), left, offered)
    requires Ascending(cmp, kept) && Ascending(cmp, sorted) && multiset(sorted) == multiset(offered)
    requires 0 <= i < |kept|
    ensures |sorted| == |kept| + |left| && Leq(cmp, kept[i], sorted[i]) && Leq(cmp, sorted[i], kept[i])
  {
    var rest := Arrange(cmp, left);
    var all := kept + rest;
    assert multiset(all) == multiset(sorted);
    assert |rest| == |multiset(rest)| == |multiset(left)| == |left|;
    assert |all| == |multiset(all)| == |multiset(sorted)| == |sorted|;
    forall a, b | 0 <= a < b < |all| ensures Leq(cmp, all[a], all[b]) {
      if a < |kept| <= b {
        assert kept[a] in multiset(kept) && rest[b - |kept|] in multiset(left);
      }
    }
    AscendingArrangementsAgree(cmp, all, sorted, i);
    AscendingArrangementsAgree(cmp, sorted, all, i);
  }
}
