/** The order of a binary max-heap on a sequence, and how sifting restores it. */
module HeapOrder {

  datatype Order = LT | EQ | GT

  type Comparator<!T> = (T, T) -> Order

  ghost predicate TotalPreorder<T(!new)>(cmp: Comparator<T>) {
    && (forall x, y :: cmp(x, y) == LT <==> cmp(y, x) == GT)
    && (forall x, y, z :: cmp(x, y) != GT && cmp(y, z) != GT ==> cmp(x, z) != GT)
  }

  /** Such as the order of the integers. */
  lemma IntegersInOrder()
    ensures TotalPreorder((x: int, y: int) => if x < y then LT else if x == y then EQ else GT)
  {
  }

  ghost predicate Leq<T>(cmp: Comparator<T>, x: T, y: T) {
    cmp(x, y) != GT
  }

  function Parent(i: int): int
    requires i > 0
  {
    (i - 1) / 2
  }

  /** Among the first n elements, every node whose parent is at lo or later is in order with it. */
  ghost predicate OrderedFrom<T>(cmp: Comparator<T>, s: seq<T>, n: int, lo: int)
    requires 0 <= n <= |s|
  {
    forall j :: 0 < j < n && Parent(j) >= lo ==> Leq(cmp, s[j], s[Parent(j)])
  }

  ghost predicate IsHeap<T>(cmp: Comparator<T>, s: seq<T>, n: int)
    requires 0 <= n <= |s|
  {
    OrderedFrom(cmp, s, n, 0)
  }

  /** Only node k may be smaller than its children, and those are not larger than its parent. */
  ghost predicate OrderedBut<T>(cmp: Comparator<T>, s: seq<T>, n: int, lo: int, k: int)
    requires 0 <= n <= |s| && 0 <= lo <= k
  {
    && (forall j :: 0 < j < n && Parent(j) >= lo && Parent(j) != k ==> Leq(cmp, s[j], s[Parent(j)]))
    && (forall j :: 0 < j < n && Parent(j) == k && k > 0 && Parent(k) >= lo ==> Leq(cmp, s[j], s[Parent(k)]))
  }

  /** Only node k may be larger than its parent, which is not smaller than the children of k. */
  ghost predicate OrderedAbove<T>(cmp: Comparator<T>, s: seq<T>, n: int, k: int)
    requires 0 <= k < n <= |s|
  {
    && (forall j :: 0 < j < n && j != k ==> Leq(cmp, s[j], s[Parent(j)]))
    && (forall j :: 0 < j < n && Parent(j) == k && k > 0 ==> Leq(cmp, s[j], s[Parent(k)]))
  }

  function Swap<T>(s: seq<T>, i: int, j: int): (t: seq<T>)
    requires 0 <= i < |s| && 0 <= j < |s|
    ensures |t| == |s|
  {
    s[i := s[j]][j := s[i]]
  }

  lemma SwapPermutes<T>(s: seq<T>, i: int, j: int)
    requires 0 <= i < |s| && 0 <= j < |s|
    ensures multiset(Swap(s, i, j)) == multiset(s)
  {}

  /** Swapping within the first n elements keeps their multiset and the others. */
  lemma SwapPrefix<T>(s: seq<T>, i: int, j: int, n: int)
    requires 0 <= i < n <= |s| && 0 <= j < n
    ensures multiset(Swap(s, i, j)[..n]) == multiset(s[..n]) && Swap(s, i, j)[n..] == s[n..]
  {
    assert Swap(s, i, j)[..n] == Swap(s[..n], i, j);
    SwapPermutes(s[..n], i, j);
  }

  /** Moving node k below its largest child m, which was larger. */
  lemma SiftDownStep<T(!new)>(cmp: Comparator<T>, s: seq<T>, n: int, lo: int, k: int, m: int)
    requires TotalPreorder(cmp) && 0 <= n <= |s| && 0 <= lo <= k < m < n && Parent(m) == k
    requires OrderedBut(cmp, s, n, lo, k) && cmp(s[m], s[k]) == GT
    requires forall j :: 0 < j < n && Parent(j) == k ==> Leq(cmp, s[j], s[m])
    ensures OrderedBut(cmp, Swap(s, k, m), n, lo, m)
  {
    var t := Swap(s, k, m);
    forall j | 0 < j < n && Parent(j) >= lo && Parent(j) != m ensures Leq(cmp, t[j], t[Parent(j)]) {
      if j == m {
        assert cmp(s[k], s[m]) == LT;
      }
    }
  }

  /** When node k is not smaller than its children the order is complete. */
  lemma SiftDownDone<T(!new)>(cmp: Comparator<T>, s: seq<T>, n: int, lo: int, k: int)
    requires 0 <= n <= |s| && 0 <= lo <= k && OrderedBut(cmp, s, n, lo, k)
    requires forall j :: 0 < j < n && Parent(j) == k ==> Leq(cmp, s[j], s[k])
    ensures OrderedFrom(cmp, s, n, lo)
  {}

  lemma SiftUpStep<T(!new)>(cmp: Comparator<T>, s: seq<T>, n: int, k: int)
    requires TotalPreorder(cmp) && 0 < k < n <= |s| && OrderedAbove(cmp, s, n, k)
    requires cmp(s[Parent(k)], s[k]) == LT
    ensures OrderedAbove(cmp, Swap(s, k, Parent(k)), n, Parent(k))
  {
    var p := Parent(k);
    var t := Swap(s, k, p);
    forall j | 0 < j < n && j != p ensures Leq(cmp, t[j], t[Parent(j)]) {
      if Parent(j) == p && j != k {
        assert Leq(cmp, s[j], s[p]) && Leq(cmp, s[p], s[k]);
      }
    }
    forall j | 0 < j < n && Parent(j) == p && p > 0 ensures Leq(cmp, t[j], t[Parent(p)]) {
      assert Leq(cmp, s[p], s[Parent(p)]);
      if j != k {
        assert Leq(cmp, s[j], s[p]);
      }
    }
  }

  /** The root of a heap is a largest element. */
  lemma {:induction false} RootIsLargest<T(!new)>(cmp: Comparator<T>, s: seq<T>, n: int, i: int)
    requires TotalPreorder(cmp) && 0 <= i < n <= |s| && IsHeap(cmp, s, n)
    ensures Leq(cmp, s[i], s[0])
    decreases i
  {
    if i == 0 {
    } else {
      RootIsLargest(cmp, s, n, Parent(i));
    }
  }
}
