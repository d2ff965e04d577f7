/** Ascending sequences under a comparator; an ascending arrangement is determined up to ties. */
module SortedOrder {
  import opened HeapOrder

  ghost predicate Ascending<T>(cmp: Comparator<T>, s: seq<T>) {
    forall i, j :: 0 <= i < j < |s| ==> Leq(cmp, s[i], s[j])
  }

  /** How many elements of s are smaller than p. */
  ghost function CountBelow<T>(cmp: Comparator<T>, s: seq<T>, p: T): nat {
    if s == [] then 0 else CountBelow(cmp, s[..|s| - 1], p) + if cmp(s[|s| - 1], p) == LT then 1 else 0
  }

  lemma {:induction false} CountAppend<T>(cmp: Comparator<T>, s: seq<T>, t: seq<T>, p: T)
    ensures CountBelow(cmp, s + t, p) == CountBelow(cmp, s, p) + CountBelow(cmp, t, p)
  {
    if t == [] {
      assert s + t == s;
    } else {
      CountAppend(cmp, s, t[..|t| - 1], p);
      assert (s + t)[..|s + t| - 1] == s + t[..|t| - 1];
    }
  }

  lemma CountOne<T>(cmp: Comparator<T>, x: T, p: T)
    ensures CountBelow(cmp, [x], p) == if cmp(x, p) == LT then 1 else 0
  {
    assert [x][..0] == [];
  }

  lemma RemoveAt<T>(t: seq<T>, k: int)
    requires 0 <= k < |t|
    ensures multiset(t[..k] + t[k + 1..]) == multiset(t) - multiset{t[k]}
  {
    assert t == t[..k] + [t[k]] + t[k + 1..];
  }

  lemma CountRemoved<T>(cmp: Comparator<T>, t: seq<T>, k: int, p: T)
    requires 0 <= k < |t|
    ensures CountBelow(cmp, t, p) == CountBelow(cmp, t[..k] + t[k + 1..], p) + if cmp(t[k], p) == LT then 1 else 0
  {
    var u, x, v := t[..k], t[k], t[k + 1..];
    assert t == u + [x] + v;
    CountAppend(cmp, u + [x], v, p);
    CountAppend(cmp, u, [x], p);
    CountAppend(cmp, u, v, p);
    CountOne(cmp, x, p);
  }

  lemma {:induction false} CountPermuted<T>(cmp: Comparator<T>, s: seq<T>, t: seq<T>, p: T)
    requires multiset(s) == multiset(t)
    ensures CountBelow(cmp, s, p) == CountBelow(cmp, t, p)
    decreases |s|
  {
    assert |s| == |multiset(s)| == |multiset(t)| == |t|;
    if s == [] {
    } else {
      var x := s[|s| - 1];
      assert x in multiset(t);
      var k :| 0 <= k < |t| && t[k] == x;
      RemoveAt(s, |s| - 1);
      RemoveAt(t, k);
      assert s[..|s| - 1] + s[|s|..] == s[..|s| - 1];
      CountPermuted(cmp, s[..|s| - 1], t[..k] + t[k + 1..], p);
      CountRemoved(cmp, t, k, p);
    }
  }

  lemma {:induction false} CountAll<T>(cmp: Comparator<T>, s: seq<T>, p: T)
    ensures CountBelow(cmp, s, p) <= |s|
    ensures (forall i :: 0 <= i < |s| ==> cmp(s[i], p) == LT) ==> CountBelow(cmp, s, p) == |s|
    ensures (forall i :: 0 <= i < |s| ==> cmp(s[i], p) != LT) ==> CountBelow(cmp, s, p) == 0
  {
    if s == [] {
    } else {
      CountAll(cmp, s[..|s| - 1], p);
    }
  }

  lemma AtMost<T>(cmp: Comparator<T>, s: seq<T>, i: int, p: T)
    requires 0 <= i <= |s| && forall j :: i <= j < |s| ==> cmp(s[j], p) != LT
    ensures CountBelow(cmp, s, p) <= i
  {
    assert s == s[..i] + s[i..];
    CountAppend(cmp, s[..i], s[i..], p);
    CountAll(cmp, s[..i], p);
    CountAll(cmp, s[i..], p);
  }

  lemma AtLeast<T>(cmp: Comparator<T>, s: seq<T>, i: int, p: T)
    requires 0 <= i <= |s| && forall j :: 0 <= j < i ==> cmp(s[j], p) == LT
    ensures CountBelow(cmp, s, p) >= i
  {
    assert s == s[..i] + s[i..];
    CountAppend(cmp, s[..i], s[i..], p);
    CountAll(cmp, s[..i], p);
  }

  lemma NotBelow<T(!new)>(cmp: Comparator<T>, x: T, y: T)
    requires TotalPreorder(cmp) && (x == y || Leq(cmp, x, y))
    ensures cmp(y, x) != LT
  {}

  lemma BelowTransitive<T(!new)>(cmp: Comparator<T>, x: T, y: T, p: T)
    requires TotalPreorder(cmp) && Leq(cmp, x, y) && cmp(y, p) == LT
    ensures cmp(x, p) == LT
  {
    assert cmp(p, y) == GT;
    assert !(cmp(p, x) != GT && cmp(x, y) != GT);
  }

  /** Two ascending arrangements of the same elements agree at every position, up to ties. */
  lemma AscendingArrangementsAgree<T(!new)>(cmp: Comparator<T>, s: seq<T>, t: seq<T>, i: int)
    requires TotalPreorder(cmp) && multiset(s) == multiset(t) && Ascending(cmp, s) && Ascending(cmp, t)
    requires 0 <= i < |s| == |t|
    ensures Leq(cmp, s[i], t[i])
  {
    if cmp(s[i], t[i]) == GT {
      var p := s[i];
      CountPermuted(cmp, s, t, p);
      forall j | i <= j < |s| ensures cmp(s[j], p) != LT { NotBelow(cmp, p, s[j]); }
      AtMost(cmp, s, i, p);
      forall j | 0 <= j < i + 1 ensures cmp(t[j], p) == LT {
        if j < i { BelowTransitive(cmp, t[j], t[i], p); }
      }
      AtLeast(cmp, t, i + 1, p);
    }
  }

  /** An element can be put at its place in an ascending sequence. */
  lemma {:induction false} InsertInOrder<T(!new)>(cmp: Comparator<T>, x: T, s: seq<T>) returns (t: seq<T>)
    requires TotalPreorder(cmp) && Ascending(cmp, s)
    ensures Ascending(cmp, t) && multiset(t) == multiset(s) + multiset{x}
    decreases |s|
  {
    if s == [] {
      t := [x];
    } else if Leq(cmp, x, s[0]) {
      t := [x] + s;
      forall j | 0 <= j < |s| ensures Leq(cmp, x, s[j]) {
        if j > 0 { assert Leq(cmp, s[0], s[j]); }
      }
    } else {
      var rest := InsertInOrder(cmp, x, s[1..]);
      t := [s[0]] + rest;
      assert s == [s[0]] + s[1..];
      forall j | 0 <= j < |rest| ensures Leq(cmp, s[0], rest[j]) {
        assert rest[j] in multiset(rest);
        if rest[j] != x {
          assert rest[j] in multiset(s[1..]);
          var i :| 0 <= i < |s[1..]| && s[1..][i] == rest[j];
        }
      }
    }
  }

  /** Every sequence has an ascending arrangement. */
  lemma {:induction false} Arrange<T(!new)>(cmp: Comparator<T>, s: seq<T>) returns (t: seq<T>)
    requires TotalPreorder(cmp)
    ensures Ascending(cmp, t) && multiset(t) == multiset(s)
    decreases |s|
  {
    if s == [] {
      t := [];
    } else {
      var rest := Arrange(cmp, s[1..]);
      t := InsertInOrder(cmp, s[0], rest);
      assert s == [s[0]] + s[1..];
    }
  }
}
