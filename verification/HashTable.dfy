/** A static hash table whose buckets are circular lists; the newest element of a key comes first. */
module HashTable {
  import opened Common
  import opened DList

  /** The elements with a key, in list order. */
  ghost function Matching<E, K>(items: seq<E>, keyf: E -> K, key: K): (m: seq<E>)
    ensures forall e :: e in m ==> e in items && keyf(e) == key
    ensures forall e :: e in items && keyf(e) == key ==> e in m
  {
    if items == [] then []
    else (if keyf(items[0]) == key then [items[0]] else []) + Matching(items[1..], keyf, key)
  }

  /** No element before i has the key. */
  ghost predicate NoneBefore<E, K>(items: seq<E>, keyf: E -> K, key: K, i: int)
    requires 0 <= i <= |items|
  {
    forall j :: 0 <= j < i ==> keyf(items[j]) != key
  }

  lemma {:induction false} MatchingFrom<E, K>(items: seq<E>, keyf: E -> K, key: K, i: int)
    requires 0 <= i <= |items| && NoneBefore(items, keyf, key, i)
    ensures Matching(items, keyf, key) == Matching(items[i..], keyf, key)
    decreases |items|
  {
    if i > 0 {
      MatchingFrom(items[1..], keyf, key, i - 1);
      assert items[1..][i - 1..] == items[i..];
    } else {
      assert items[0..] == items;
    }
  }

  /** Removing the first element of a key removes it from that key's elements and from no other's. */
  lemma {:induction false} MatchingRemoved<E, K>(items: seq<E>, keyf: E -> K, key: K, k: K, i: int)
    requires 0 <= i < |items| && NoneBefore(items, keyf, key, i) && keyf(items[i]) == key
    ensures Matching(items, keyf, key) != [] && Matching(items, keyf, key)[0] == items[i]
    ensures Matching(items[..i] + items[i + 1..], keyf, k)
         == if k == key then Matching(items, keyf, key)[1..] else Matching(items, keyf, k)
    decreases |items|
  {
    var rest := items[..i] + items[i + 1..];
    if i == 0 {
      assert rest == items[1..];
    } else {
      MatchingRemoved(items[1..], keyf, key, k, i - 1);
      assert rest[1..] == items[1..][..i - 1] + items[1..][i..];
    }
  }

  class Bucket<E> {
    const head: Link<E>
    ghost var links: seq<Link<E>>
    ghost var items: seq<E>
    ghost var repr: set<object>

    ghost predicate Valid()
      reads this, repr
    {
      && this in repr && head in repr && (forall l :: l in links ==> l in repr)
      && Ring(head, links) && |items| == |links|
      && (forall i :: 0 <= i < |links| ==> links[i].item == Some(items[i]))
    }

    constructor ()
      ensures Valid() && items == [] && fresh(repr)
    {
      head := new Link<E>(None);
      links, items := [], [];
      new;
      repr := {this, head};
    }

    /** The link of the first element with a key, and its index; the header when there is none. */
    method Search<K(==)>(keyf: E -> K, key: K) returns (h: Link<E>, i: int)
      requires Valid()
      ensures 0 <= i <= |items| && h == At(head, links, i)
      ensures NoneBefore(items, keyf, key, i)
              && (i < |items| ==> h != head && h.item == Some(items[i]) && keyf(items[i]) == key)
      ensures h == head <==> i == |items|
    {
      Neighbours(head, links, -1);
      h, i := head.next, 0;
      while h != head
        invariant 0 <= i <= |items| && h == At(head, links, i) && NoneBefore(items, keyf, key, i)
        decreases |items| - i
      {
        if keyf(h.item.value) == key {
          return;
        }
        Neighbours(head, links, i);
        h, i := h.next, i + 1;
      }
    }

    method Push(e: E)
      requires Valid()
      modifies this, repr
      ensures Valid() && fresh(repr - old(repr)) && items == [e] + old(items)
    {
      var l := new Link<E>(Some(e));
      InsertAfter(l, head, head, links, -1);
      LinksInserted(head, links, 0, l);
      assert links[..0] + [l] + links[0..] == [l] + links;
      links, items, repr := [l] + links, [e] + items, repr + {l};
    }

    method Remove(h: Link<E>, ghost i: int)
      requires Valid() && 0 <= i < |links| && h == links[i]
      modifies this, repr
      ensures Valid() && repr == old(repr) && items == old(items)[..i] + old(items)[i + 1..]
    {
      DList.Delete(h, head, links, i);
      links, items := links[..i] + links[i + 1..], items[..i] + items[i + 1..];
    }
  }

  class Table<E, K(!new, ==)> {
    const hashf: K -> nat
    const keyf: E -> K
    const buckets: seq<Bucket<E>>
    ghost var repr: set<object>

    ghost function Slot(key: K): (i: int)
      requires buckets != []
      ensures 0 <= i < |buckets|
    {
      hashf(key) % |buckets|
    }

    ghost predicate BucketOk(i: int)
      requires 0 <= i < |buckets|
      reads this, repr
    {
      && buckets[i] in repr && buckets[i].repr <= repr && this !in buckets[i].repr && buckets[i].Valid()
    }

    ghost predicate Valid()
      reads this, repr
    {
      && this in repr && buckets != []
      && (forall i :: 0 <= i < |buckets| ==> BucketOk(i))
      && (forall i, j :: 0 <= i < |buckets| && 0 <= j < |buckets| && i != j ==> Apart(i, j))
    }

    ghost predicate Apart(i: int, j: int)
      requires 0 <= i < |buckets| && 0 <= j < |buckets|
      reads this, repr
    {
      buckets[i] in repr && buckets[j] in repr && buckets[i].repr !! buckets[j].repr
    }

    /** The elements of a key, newest first. */
    ghost function Stack(key: K): seq<E>
      requires Valid()
      reads this, repr
    {
      assert BucketOk(Slot(key));
      Matching(buckets[Slot(key)].items, keyf, key)
    }

    constructor (bucketSz: nat, hashf: K -> nat, keyf: E -> K)
      requires bucketSz > 0
      ensures Valid() && fresh(repr) && this.keyf == keyf && forall k :: Stack(k) == []
    {
      var bs: seq<Bucket<E>> := [];
      ghost var all: set<object> := {};
      for i := 0 to bucketSz
        invariant |bs| == i && fresh(all)
        invariant forall j :: 0 <= j < i ==> bs[j] in all && bs[j].repr <= all && bs[j].Valid() && bs[j].items == []
        invariant forall j, k :: 0 <= j < k < i ==> bs[j].repr !! bs[k].repr
      {
        var b := new Bucket<E>();
        bs := bs + [b];
        all := all + b.repr;
      }
      this.hashf, this.keyf, buckets := hashf, keyf, bs;
      new;
      repr := all + {this};
    }

    method Lookup(key: K) returns (r: Option<E>)
      requires Valid()
      ensures r == if Stack(key) == [] then None else Some(Stack(key)[0])
    {
      var b := buckets[hashf(key) % |buckets|];
      assert BucketOk(Slot(key));
      var h, i := b.Search(keyf, key);
      if h == b.head {
        MatchingFrom(b.items, keyf, key, i);
        return None;
      }
      MatchingRemoved(b.items, keyf, key, key, i);
      return Some(h.item.value);
    }

    method Insert(e: E)
      requires Valid()
      modifies repr
      ensures Valid() && fresh(repr - old(repr))
      ensures forall k :: Stack(k) == if k == keyf(e) then [e] + old(Stack(k)) else old(Stack(k))
    {
      ghost var s := Slot(keyf(e));
      var b := buckets[hashf(keyf(e)) % |buckets|];
      assert BucketOk(s);
      b.Push(e);
      repr := repr + b.repr;
      forall i | 0 <= i < |buckets| ensures BucketOk(i) && (i != s ==> unchanged(buckets[i])) {
        assert old(BucketOk(i)) && (i != s ==> old(Apart(i, s)));
      }
      forall i, j | 0 <= i < |buckets| && 0 <= j < |buckets| && i != j ensures Apart(i, j) {
        assert old(Apart(i, j));
      }
    }

    method Delete(key: K) returns (r: Option<E>)
      requires Valid()
      modifies repr
      ensures Valid() && repr == old(repr)
      ensures r == if old(Stack(key)) == [] then None else Some(old(Stack(key))[0])
      ensures forall k :: Stack(k) == if k == key && old(Stack(key)) != [] then old(Stack(k))[1..] else old(Stack(k))
    {
      var b := buckets[hashf(key) % |buckets|];
      assert BucketOk(Slot(key));
      var h, i := b.Search(keyf, key);
      if h == b.head {
        MatchingFrom(b.items, keyf, key, i);
        return None;
      }
      r := Some(h.item.value);
      MatchingRemoved(b.items, keyf, key, key, i);
      RemoveAt(key, b, h, i);
    }

    /** Take the link at index i of its bucket, the first one with its key, off the list. */
    method RemoveAt(key: K, b: Bucket<E>, h: Link<E>, ghost i: int)
      requires Valid() && b == buckets[Slot(key)] && BucketOk(Slot(key)) && 0 <= i < |b.items| && h == b.links[i]
      requires NoneBefore(b.items, keyf, key, i) && keyf(b.items[i]) == key
      modifies repr
      ensures Valid() && repr == old(repr)
      ensures forall k :: Stack(k) == if k == key then old(Stack(key))[1..] else old(Stack(k))
    {
      ghost var s, its := Slot(key), b.items;
      b.Remove(h, i);
      forall j | 0 <= j < |buckets| ensures BucketOk(j) && (j != s ==> unchanged(buckets[j])) {
        assert old(BucketOk(j)) && (j != s ==> old(Apart(j, s)));
      }
      forall j, k | 0 <= j < |buckets| && 0 <= k < |buckets| && j != k ensures Apart(j, k) {
        assert old(Apart(j, k));
      }
      forall k ensures Stack(k) == if k == key then old(Stack(key))[1..] else old(Stack(k)) {
        MatchingRemoved(its, keyf, key, k, i);
      }
    }
  }
}
