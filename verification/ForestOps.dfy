/** The operations on a forest as a value, and what each of them keeps. */
module ForestOps {
  import opened Common
  import opened ForestModel

  /** The list without the node n. */
  ghost function Without<Id>(s: seq<Id>, n: Id): seq<Id> {
    if s == [] then []
    else if s[|s| - 1] == n then Without(s[..|s| - 1], n)
    else Without(s[..|s| - 1], n) + [s[|s| - 1]]
  }

  lemma {:induction false} WithoutMembers<Id>(s: seq<Id>, n: Id, x: Id)
    ensures x in Without(s, n) <==> x in s && x != n
  {
    if s == [] {
    } else {
      var t, c := s[..|s| - 1], s[|s| - 1];
      WithoutMembers(t, n, x);
      assert s == t + [c];
    }
  }

  lemma {:induction false} WithoutAbsent<Id>(s: seq<Id>, n: Id)
    requires n !in s
    ensures Without(s, n) == s
  {
    if s == [] {
    } else {
      WithoutAbsent(s[..|s| - 1], n);
      assert s == s[..|s| - 1] + [s[|s| - 1]];
    }
  }

  lemma {:induction false} WithoutOnce<Id>(s: seq<Id>, n: Id)
    requires NoDuplicates(s)
    ensures NoDuplicates(Without(s, n))
  {
    if s == [] {
    } else {
      var t, c := s[..|s| - 1], s[|s| - 1];
      WithoutOnce(t, n);
      WithoutMembers(t, n, c);
      assert c !in t;
    }
  }

  lemma WithoutFacts<Id>(s: seq<Id>, n: Id)
    requires NoDuplicates(s)
    ensures NoDuplicates(Without(s, n))
    ensures forall x :: x in Without(s, n) ==> x in s && x != n
    ensures forall x :: x in s && x != n ==> x in Without(s, n)
  {
    WithoutOnce(s, n);
    forall x | x in Without(s, n) ensures x in s && x != n { WithoutMembers(s, n, x); }
    forall x | x in s && x != n ensures x in Without(s, n) { WithoutMembers(s, n, x); }
  }

  /** A node on a list without duplicates is taken out at its place. */
  lemma {:induction false} WithoutAt<Id>(s: seq<Id>, k: int)
    requires NoDuplicates(s) && 0 <= k < |s|
    ensures Without(s, s[k]) == s[..k] + s[k + 1..]
    decreases |s|
  {
    var n := |s| - 1;
    if k == n {
      WithoutAbsent(s[..n], s[k]);
    } else {
      WithoutAt(s[..n], k);
      assert s[..k] + s[k + 1..] == s[..n][..k] + s[..n][k + 1..] + [s[n]];
    }
  }

  /** Add a new node that is on no list. */
  ghost function Add<Id>(f: Forest<Id>, n: Id): Forest<Id> {
    Forest(f.roots, f.loose + {n}, f.kids[n := []], f.parent[n := None], f.height[n := 0])
  }

  lemma AddKeeps<Id>(f: Forest<Id>, n: Id)
    requires WellFormed(f) && n !in f.kids
    ensures WellFormed(Add(f, n))
  {
    var g := Add(f, n);
    forall x | x in g.kids ensures NodeOk(g, x) {
      if x != n { assert NodeOk(f, x); }
    }
  }

  /** Take a node off its list. */
  ghost function Unlink<Id>(f: Forest<Id>, n: Id): Forest<Id> {
    Forest(Without(f.roots, n), f.loose + {n}, map x | x in f.kids :: Without(f.kids[x], n), f.parent[n := None],
           f.height)
  }

  lemma UnlinkKeeps<Id>(f: Forest<Id>, n: Id)
    requires WellFormed(f) && n in f.kids
    ensures WellFormed(Unlink(f, n))
  {
    var g := Unlink(f, n);
    UnlinkTops(f, n);
    UnlinkDescends(f, n);
    forall x | x in g.kids ensures NodeOk(g, x) {
      UnlinkNode(f, n, x);
    }
  }

  lemma UnlinkTops<Id>(f: Forest<Id>, n: Id)
    requires WellFormed(f) && n in f.kids
    ensures SameNodes(Unlink(f, n)) && TopsOk(Unlink(f, n))
  {
    WithoutFacts(f.roots, n);
  }

  lemma UnlinkDescends<Id>(f: Forest<Id>, n: Id)
    requires Descending(f)
    ensures Descending(Unlink(f, n))
  {
    var g := Unlink(f, n);
    forall x, c | x in g.kids && c in g.kids[x] ensures Lower(g, x, c) {
      WithoutMembers(f.kids[x], n, c);
      assert Lower(f, x, c);
    }
  }

  lemma UnlinkNode<Id>(f: Forest<Id>, n: Id, x: Id)
    requires WellFormed(f) && n in f.kids && x in f.kids
    ensures NodeOk(Unlink(f, n), x)
  {
    assert NodeOk(f, x);
    WithoutFacts(f.roots, n);
    WithoutFacts(f.kids[x], n);
    if f.parent[x].Some? { WithoutMembers(f.kids[f.parent[x].value], n, x); }
    if x == n { assert n in Unlink(f, n).loose; }
  }

  /** Put a loose node at the front of the roots. */
  ghost function Register<Id>(f: Forest<Id>, n: Id): Forest<Id> {
    f.(roots := [n] + f.roots, loose := f.loose - {n})
  }

  lemma RegisterKeeps<Id>(f: Forest<Id>, n: Id)
    requires WellFormed(f) && n in f.loose
    ensures WellFormed(Register(f, n))
  {
    var g := Register(f, n);
    forall x | x in g.kids ensures NodeOk(g, x) { assert NodeOk(f, x); }
  }

  /** Raise the ancestors of p, and p itself, above n. */
  ghost function Raised<Id>(f: Forest<Id>, n: Id, p: Id): map<Id, nat>
    requires WellFormed(f) && n in f.kids
  {
    map x | x in f.kids :: f.height[x] + (if p in Desc(f, x) then f.height[n] + 1 else 0)
  }

  /** Append a loose node to the children of p. */
  ghost function Attach<Id>(f: Forest<Id>, n: Id, p: Id): Forest<Id>
    requires WellFormed(f) && n in f.kids && p in f.kids
  {
    Forest(f.roots, f.loose - {n}, f.kids[p := f.kids[p] + [n]], f.parent[n := Some(p)], Raised(f, n, p))
  }

  lemma AttachDescends<Id>(f: Forest<Id>, n: Id, p: Id)
    requires WellFormed(f) && n in f.loose && p in f.kids && p !in Desc(f, n)
    ensures Descending(Attach(f, n, p))
  {
    var g := Attach(f, n, p);
    forall x, c | x in g.kids && c in g.kids[x] ensures Lower(g, x, c) {
      if c in f.kids[x] {
        ChildBelow(f, x, c);
      } else {
        assert x == p && c == n && p in Desc(f, p);
      }
    }
  }

  lemma AttachKeeps<Id>(f: Forest<Id>, n: Id, p: Id)
    requires WellFormed(f) && n in f.loose && p in f.kids && p !in Desc(f, n)
    ensures WellFormed(Attach(f, n, p))
  {
    AttachDescends(f, n, p);
    var g := Attach(f, n, p);
    assert NodeOk(f, p);
    assert n in f.kids && n !in f.kids[p];
    forall x | x in g.kids ensures NodeOk(g, x) { assert NodeOk(f, x); }
  }

  /** Taking a node off its list leaves its subtree as it is. */
  lemma UnlinkSubtree<Id>(f: Forest<Id>, n: Id)
    requires WellFormed(f) && n in f.kids
    ensures Descending(Unlink(f, n)) && Desc(Unlink(f, n), n) == Desc(f, n)
  {
    UnlinkDescends(f, n);
    var g := Unlink(f, n);
    forall x | x in Desc(f, n) ensures x in f.kids && f.kids[x] == g.kids[x] {
      DescLower(f, n, x);
      assert !Lower(f, x, n);
      WithoutAbsent(f.kids[x], n);
    }
    SubtreeFrame(f, g, n);
  }

  /** Appending n to the children of a node of its own subtree makes a cycle: no heights descend then. */
  lemma {:induction false} AttachInsideIsCyclic<Id>(f: Forest<Id>, g: Forest<Id>, n: Id, p: Id)
    requires WellFormed(f) && n in f.kids && p in Desc(f, n) && p in f.kids && g.kids == f.kids[p := f.kids[p] + [n]]
    ensures !Descending(g)
  {
    assert n in g.kids[p];
    if Descending(g) {
      StillBelow(f, g, n, p, p);
    }
  }

  /** With more children, what was below n still is. */
  lemma {:induction false} StillBelow<Id>(f: Forest<Id>, g: Forest<Id>, n: Id, p: Id, x: Id)
    requires Descending(f) && n in f.kids && x in Desc(f, n) && p in f.kids
    requires g.kids.Keys == f.kids.Keys && Descending(g)
             && forall y, c :: y in f.kids && c in f.kids[y] ==> c in g.kids[y]
    ensures x in g.kids && Level(g, x) <= Level(g, n)
    decreases Level(f, n)
  {
    if x == n {
    } else {
      var c := BelowChild(f, n, x);
      StillBelow(f, g, c, p, x);
      assert c in g.kids[n];
      assert Lower(g, n, c);
    }
  }

  /** Forget a loose node without children. */
  ghost function Drop<Id>(f: Forest<Id>, n: Id): Forest<Id> {
    Forest(f.roots, f.loose - {n}, f.kids - {n}, f.parent - {n}, f.height - {n})
  }

  lemma DropKeeps<Id>(f: Forest<Id>, n: Id)
    requires WellFormed(f) && n in f.loose && f.kids[n] == []
    ensures WellFormed(Drop(f, n))
  {
    var g := Drop(f, n);
    forall x | x in g.kids ensures NodeOk(g, x) { assert NodeOk(f, x); }
  }

  /** The forest g is f without the subtree of n, and otherwise unchanged. */
  ghost predicate Removed<Id>(f: Forest<Id>, g: Forest<Id>, n: Id)
    requires Descending(f) && n in f.kids && SameNodes(f)
  {
    && SameNodes(g) && g.kids.Keys == f.kids.Keys - Desc(f, n)
    && g.roots == Without(f.roots, n) && g.loose == f.loose - {n}
    && forall x :: x in g.kids ==>
         g.kids[x] == Without(f.kids[x], n) && g.parent[x] == f.parent[x] && g.height[x] == f.height[x]
  }

  /** The forest g is f without the subtrees of the first j children of n. */
  ghost predicate ChildrenRemoved<Id>(f: Forest<Id>, g: Forest<Id>, n: Id, j: int)
    requires Descending(f) && n in f.kids && SameNodes(f) && 0 <= j <= |f.kids[n]|
  {
    && SameNodes(g) && g.kids.Keys == f.kids.Keys - DescAll(f, n, f.kids[n][..j])
    && g.roots == f.roots && g.loose == f.loose
    && forall x :: x in g.kids ==>
         && g.kids[x] == (if x == n then f.kids[n][j..] else f.kids[x])
         && g.parent[x] == f.parent[x] && g.height[x] == f.height[x]
  }

  lemma NoneRemoved<Id>(f: Forest<Id>, n: Id)
    requires Descending(f) && n in f.kids && SameNodes(f)
    ensures ChildrenRemoved(f, f, n, 0)
  {}

  /** Below the next child nothing has changed. */
  lemma NextChildIntact<Id>(f: Forest<Id>, g: Forest<Id>, n: Id, j: int)
    requires WellFormed(f) && WellFormed(g) && n in f.kids && 0 <= j < |f.kids[n]| && ChildrenRemoved(f, g, n, j)
    ensures var c := f.kids[n][j];
            && IsChild(f, n, c) && n in g.kids && c in g.kids && g.kids[n] == f.kids[n][j..]
            && Desc(g, c) == Desc(f, c) && PostOrder(g, c) == PostOrder(f, c)
  {
    var c := f.kids[n][j];
    assert NodeOk(f, n);
    ChildFacts(f, n, c);
    var front := f.kids[n][..j + 1];
    assert front[..j] == f.kids[n][..j];
    LastApart(f, n, front);
    NotBelowItself(f, n);
    assert n !in DescAll(f, n, f.kids[n][..j]) by { PrefixBelow(f, n, j); }
    assert c in Desc(f, c);
    forall x | x in Desc(f, c) ensures x in f.kids && x in g.kids && f.kids[x] == g.kids[x] {
      DescLower(f, c, x);
    }
    SubtreeFrame(f, g, c);
  }

  lemma {:induction false} PrefixBelow<Id>(f: Forest<Id>, n: Id, j: int)
    requires Descending(f) && n in f.kids && 0 <= j <= |f.kids[n]|
    ensures DescAll(f, n, f.kids[n][..j]) <= DescAll(f, n, f.kids[n])
    decreases |f.kids[n]| - j
  {
    if j < |f.kids[n]| {
      PrefixBelow(f, n, j + 1);
      assert f.kids[n][..j + 1][..j] == f.kids[n][..j];
    } else {
      assert f.kids[n][..j] == f.kids[n];
    }
  }

  lemma PrefixStep<Id>(f: Forest<Id>, n: Id, j: int)
    requires Descending(f) && n in f.kids && 0 <= j < |f.kids[n]|
    ensures DescAll(f, n, f.kids[n][..j + 1]) == DescAll(f, n, f.kids[n][..j]) + Desc(f, f.kids[n][j])
    ensures PostOrderAll(f, n, f.kids[n][..j + 1]) == PostOrderAll(f, n, f.kids[n][..j]) + PostOrder(f, f.kids[n][j])
  {
    assert f.kids[n][..j + 1][..j] == f.kids[n][..j];
  }

  /** Other lists do not hold the child c of n. */
  lemma OnlyOnOneList<Id>(f: Forest<Id>, n: Id, c: Id, x: Id)
    requires WellFormed(f) && IsChild(f, n, c) && x in f.kids && x != n
    ensures c !in f.kids[x] && c !in f.roots && c !in f.loose
  {
    assert NodeOk(f, x);
  }

  /** Removing the subtree of the next child. */
  lemma RemoveNextChild<Id>(f: Forest<Id>, g: Forest<Id>, g': Forest<Id>, n: Id, j: int)
    requires WellFormed(f) && WellFormed(g) && n in f.kids && 0 <= j < |f.kids[n]| && ChildrenRemoved(f, g, n, j)
    requires f.kids[n][j] in g.kids && Removed(g, g', f.kids[n][j])
    ensures ChildrenRemoved(f, g', n, j + 1)
  {
    var c := f.kids[n][j];
    NextChildIntact(f, g, n, j);
    PrefixStep(f, n, j);
    assert NodeOk(g, n);
    ChildFacts(g, n, c);
    TopsWithout(g, n, c);
    forall x | x in g'.kids
      ensures g'.kids[x] == (if x == n then f.kids[n][j + 1..] else f.kids[x])
    {
      ListAfter(g, n, c, x);
    }
  }

  /** Without its first child c, only the list of n changes. */
  lemma ListAfter<Id>(g: Forest<Id>, n: Id, c: Id, x: Id)
    requires WellFormed(g) && IsChild(g, n, c) && g.kids[n] != [] && g.kids[n][0] == c && x in g.kids
    ensures Without(g.kids[x], c) == if x == n then g.kids[n][1..] else g.kids[x]
  {
    if x == n {
      assert NodeOk(g, n);
      WithoutAt(g.kids[n], 0);
      assert g.kids[n][..0] + g.kids[n][1..] == g.kids[n][1..];
    } else {
      OnlyOnOneList(g, n, c, x);
      WithoutAbsent(g.kids[x], c);
    }
  }

  lemma TopsWithout<Id>(g: Forest<Id>, n: Id, c: Id)
    requires WellFormed(g) && IsChild(g, n, c)
    ensures Without(g.roots, c) == g.roots && g.loose - {c} == g.loose
  {
    WithoutAbsent(g.roots, c);
  }

  /** Once the children are gone, taking the node off its list and forgetting it removes its subtree. */
  lemma RemoveNode<Id>(f: Forest<Id>, g: Forest<Id>, n: Id)
    requires WellFormed(f) && WellFormed(g) && n in f.kids && ChildrenRemoved(f, g, n, |f.kids[n]|)
    ensures n in g.kids && g.kids[n] == [] && WellFormed(Drop(Unlink(g, n), n)) && Removed(f, Drop(Unlink(g, n), n), n)
  {
    assert f.kids[n][..|f.kids[n]|] == f.kids[n];
    NotBelowItself(f, n);
    assert n in g.kids && g.kids[n] == [];
    var u := Unlink(g, n);
    UnlinkKeeps(g, n);
    DropKeeps(u, n);
    var h := Drop(u, n);
    assert h.kids.Keys == f.kids.Keys - Desc(f, n);
  }

  /** Post order is that of the children, and then the node. */
  lemma PostOrderOfNode<Id>(f: Forest<Id>, n: Id)
    requires Descending(f) && n in f.kids
    ensures PostOrder(f, n) == PostOrderAll(f, n, f.kids[n][..|f.kids[n]|]) + [n]
  {
    assert f.kids[n][..|f.kids[n]|] == f.kids[n];
  }

  /** From f, the subtrees of the first j children of n are gone and listed in order. */
  ghost predicate Cleared<Id>(f: Forest<Id>, g: Forest<Id>, done: seq<Id>, n: Id, j: int) {
    && WellFormed(f) && WellFormed(g) && n in f.kids && 0 <= j <= |f.kids[n]|
    && ChildrenRemoved(f, g, n, j) && done == PostOrderAll(f, n, f.kids[n][..j])
  }

  lemma ClearedNone<Id>(f: Forest<Id>, n: Id)
    requires WellFormed(f) && n in f.kids
    ensures Cleared(f, f, [], n, 0)
  {
    NoneRemoved(f, n);
  }

  /** The children left are those from j on. */
  lemma ClearedRest<Id>(f: Forest<Id>, g: Forest<Id>, done: seq<Id>, n: Id, j: int)
    requires Cleared(f, g, done, n, j)
    ensures n in g.kids && g.kids[n] == f.kids[n][j..]
    ensures j < |f.kids[n]| ==> f.kids[n][j] in g.kids && Level(g, f.kids[n][j]) < Level(f, n)
  {
    if j < |f.kids[n]| {
      NextChildIntact(f, g, n, j);
    } else {
      NotBelowItself(f, n);
      assert f.kids[n][..j] == f.kids[n];
    }
  }

  lemma ClearedNext<Id>(f: Forest<Id>, g: Forest<Id>, h: Forest<Id>, done: seq<Id>, n: Id, j: int)
    requires Cleared(f, g, done, n, j) && j < |f.kids[n]| && f.kids[n][j] in g.kids
    requires WellFormed(h) && Removed(g, h, f.kids[n][j])
    ensures Cleared(f, h, done + PostOrder(g, f.kids[n][j]), n, j + 1)
  {
    NextChildIntact(f, g, n, j);
    PrefixStep(f, n, j);
    RemoveNextChild(f, g, h, n, j);
  }

  lemma ClearedAll<Id>(f: Forest<Id>, g: Forest<Id>, done: seq<Id>, n: Id)
    requires WellFormed(f) && n in f.kids && Cleared(f, g, done, n, |f.kids[n]|)
    ensures n in g.kids && g.kids[n] == [] && Removed(f, Drop(Unlink(g, n), n), n) && done + [n] == PostOrder(f, n)
  {
    RemoveNode(f, g, n);
    PostOrderOfNode(f, n);
  }
}
