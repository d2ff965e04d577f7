/** Intrusive circular doubly linked lists with a header link. */
module DList {
  import opened Common

  /** A link embedded in an item; the header of a list has no item. */
  class Link<T> {
    var next: Link<T>
    var prev: Link<T>
    var item: Option<T>

    constructor (item: Option<T>)
      ensures next == this && prev == this && this.item == item
    {
      next, prev, this.item := this, this, item;
    }
  }

  /** The links of a list: the header and its members. */
  ghost function Links<T>(h: Link<T>, s: seq<Link<T>>): set<Link<T>> {
    {h} + set x | x in s
  }

  /** The k-th member; the header stands before the first and after the last. */
  ghost function At<T>(h: Link<T>, s: seq<Link<T>>, k: int): Link<T>
    requires -1 <= k <= |s|
  {
    if k == -1 || k == |s| then h else s[k]
  }

  ghost predicate Distinct<T>(h: Link<T>, s: seq<Link<T>>) {
    h !in s && forall i, j :: 0 <= i < j < |s| ==> s[i] != s[j]
  }

  /** The members of s, in order, form a circle with the header h. */
  ghost predicate Ring<T>(h: Link<T>, s: seq<Link<T>>)
    reads Links(h, s)`next, Links(h, s)`prev
  {
    && Distinct(h, s)
    && (forall k :: -1 <= k < |s| ==> At(h, s, k).next == At(h, s, k + 1))
    && (forall k :: 0 <= k <= |s| ==> At(h, s, k).prev == At(h, s, k - 1))
  }

  /** Neighbours of a member in a ring are different from it, unless it is alone. */
  lemma Neighbours<T>(h: Link<T>, s: seq<Link<T>>, k: int)
    requires Ring(h, s) && -1 <= k < |s|
    ensures At(h, s, k).next == At(h, s, k + 1) && At(h, s, k + 1).prev == At(h, s, k)
  {
    assert At(h, s, k + 1 - 1) == At(h, s, k);
  }

  /** Positions before and after removing the k-th member. */
  lemma AtRemoved<T>(h: Link<T>, s: seq<Link<T>>, k: int, i: int)
    requires 0 <= k < |s| && -1 <= i <= |s| - 1
    ensures At(h, s[..k] + s[k + 1..], i) == At(h, s, if i < k then i else i + 1)
  {}

  /** Positions before and after inserting a member at k. */
  lemma AtInserted<T>(h: Link<T>, s: seq<Link<T>>, k: int, l: Link<T>, i: int)
    requires 0 <= k <= |s| && -1 <= i <= |s| + 1
    ensures At(h, s[..k] + [l] + s[k..], i) == if i == k then l else At(h, s, if i < k then i else i - 1)
  {}

  lemma LinksInserted<T>(h: Link<T>, s: seq<Link<T>>, k: int, l: Link<T>)
    requires 0 <= k <= |s|
    ensures Links(h, s[..k] + [l] + s[k..]) == Links(h, s) + {l}
  {
    assert s == s[..k] + s[k..];
  }

  lemma AtDistinct<T>(h: Link<T>, s: seq<Link<T>>, i: int, j: int)
    requires Distinct(h, s) && -1 <= i < j <= |s| && (i, j) != (-1, |s|)
    ensures At(h, s, i) != At(h, s, j)
  {}

  /** The list without its k-th member; a link alone is a list with only a header, and stays one. */
  ghost function Dropped<T>(s: seq<Link<T>>, k: int): seq<Link<T>>
    requires -1 <= k < |s|
  {
    if k == -1 then s else s[..k] + s[k + 1..]
  }

  method Delete<T>(l: Link<T>, ghost h: Link<T>, ghost s: seq<Link<T>>, ghost k: int)
    requires Ring(h, s) && -1 <= k < |s| && At(h, s, k) == l && (k == -1 ==> s == [])
    modifies Links(h, s)`next, Links(h, s)`prev
    ensures Ring(h, Dropped(s, k))
    ensures l.next == l && l.prev == l
  {
    ghost var t := Dropped(s, k);
    Neighbours(h, s, k);
    if k >= 0 { Neighbours(h, s, k - 1); }
    assert At(h, s, k) == l;
    l.next.prev := l.prev;
    l.prev.next := l.next;
    l.next, l.prev := l, l;
    if k >= 0 {
      forall i | -1 <= i < |t| ensures At(h, t, i).next == At(h, t, i + 1) && At(h, t, i + 1).prev == At(h, t, i) {
        AtRemoved(h, s, k, i);
        AtRemoved(h, s, k, i + 1);
        if i < k - 1 {
          AtDistinct(h, s, i, k - 1);
        }
      }
    }
  }

  /** Insert ih after the member b, or after the header, which is at the front. */
  method InsertAfter<T>(ih: Link<T>, b: Link<T>, ghost h: Link<T>, ghost s: seq<Link<T>>, ghost k: int)
    requires Ring(h, s) && -1 <= k < |s| && At(h, s, k) == b && ih != h && ih !in s
    modifies Links(h, s)`next, Links(h, s)`prev, ih`next, ih`prev
    ensures Ring(h, s[..k + 1] + [ih] + s[k + 1..])
  {
    ghost var t := s[..k + 1] + [ih] + s[k + 1..];
    Neighbours(h, s, k);
    ih.prev := b;
    ih.next := b.next;
    b.next.prev := ih;
    b.next := ih;
    forall i | -1 <= i < |t| ensures At(h, t, i).next == At(h, t, i + 1) && At(h, t, i + 1).prev == At(h, t, i) {
      AtInserted(h, s, k + 1, ih, i);
      AtInserted(h, s, k + 1, ih, i + 1);
      if i < k {
        AtDistinct(h, s, i, k);
      }
    }
  }

  /** Insert ih before the member b, or before the header, which is at the end. */
  method InsertBefore<T>(ih: Link<T>, b: Link<T>, ghost h: Link<T>, ghost s: seq<Link<T>>, ghost k: int)
    requires Ring(h, s) && 0 <= k <= |s| && At(h, s, k) == b && ih != h && ih !in s
    modifies Links(h, s)`next, Links(h, s)`prev, ih`next, ih`prev
    ensures Ring(h, s[..k] + [ih] + s[k..])
  {
    ghost var t := s[..k] + [ih] + s[k..];
    Neighbours(h, s, k - 1);
    ih.next := b;
    ih.prev := b.prev;
    b.prev.next := ih;
    b.prev := ih;
    forall i | -1 <= i < |t| ensures At(h, t, i).next == At(h, t, i + 1) && At(h, t, i + 1).prev == At(h, t, i) {
      AtInserted(h, s, k, ih, i);
      AtInserted(h, s, k, ih, i + 1);
      if i < k - 1 {
        AtDistinct(h, s, i, k - 1);
      }
    }
  }
}
