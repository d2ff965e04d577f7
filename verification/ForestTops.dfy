/** The whole forest: every node stands below one root, and destroying the roots one by one destroys all. */
module ForestTops {
  import opened Common
  import opened ForestModel
  import opened ForestOps

  ghost function Above<Id>(f: Forest<Id>, n: Id): set<Id>
    requires SameNodes(f) && n in f.kids
  {
    set x | x in f.kids && f.height[x] > f.height[n]
  }

  ghost predicate IsTop<Id>(f: Forest<Id>, r: Id) {
    r in f.roots || r in f.loose
  }

  /** Every node lies below a root or a loose node. */
  lemma {:induction false} TopOf<Id>(f: Forest<Id>, n: Id) returns (r: Id)
    requires WellFormed(f) && n in f.kids
    ensures IsTop(f, r) && r in f.kids && n in Desc(f, r)
    decreases Above(f, n)
  {
    assert NodeOk(f, n);
    match f.parent[n] {
      case None => r := n;
      case Some(p) =>
        assert Lower(f, p, n);
        assert p in Above(f, n) && p !in Above(f, p);
        r := TopOf(f, p);
        ChildBelow(f, p, n);
        DescTransitive(f, r, p);
    }
  }

  /** Subtrees of different tops do not meet. */
  lemma TopsApart<Id>(f: Forest<Id>, a: Id, b: Id)
    requires WellFormed(f) && IsTop(f, a) && IsTop(f, b) && a != b
    ensures a in f.kids && b in f.kids && Desc(f, a) !! Desc(f, b)
  {
    NotBelowTop(f, a, b);
    NotBelowTop(f, b, a);
    var A, B := Desc(f, a), Desc(f, b);
    forall x | x in A ensures x !in B {
      if x in B { Nested(f, a, b, x); }
    }
  }

  lemma NotBelowTop<Id>(f: Forest<Id>, a: Id, b: Id)
    requires WellFormed(f) && IsTop(f, a) && IsTop(f, b) && a != b
    ensures a in f.kids && b in f.kids && a !in Desc(f, b)
  {
    if a in Desc(f, b) { DescParent(f, b, a); }
  }

  /** The subtrees of the first j roots, and the order in which their nodes are destroyed. */
  ghost function Below<Id>(f: Forest<Id>, j: int): set<Id>
    requires WellFormed(f) && 0 <= j <= |f.roots|
  {
    if j == 0 then {} else Below(f, j - 1) + Desc(f, f.roots[j - 1])
  }

  ghost function Order<Id>(f: Forest<Id>, j: int): seq<Id>
    requires WellFormed(f) && 0 <= j <= |f.roots|
  {
    if j == 0 then [] else Order(f, j - 1) + PostOrder(f, f.roots[j - 1])
  }

  lemma {:induction false} BelowElim<Id>(f: Forest<Id>, j: int, x: Id) returns (i: int)
    requires WellFormed(f) && 0 <= j <= |f.roots| && x in Below(f, j)
    ensures 0 <= i < j && x in Desc(f, f.roots[i])
  {
    if x in Desc(f, f.roots[j - 1]) { i := j - 1; } else { i := BelowElim(f, j - 1, x); }
  }

  lemma {:induction false} BelowIntro<Id>(f: Forest<Id>, j: int, i: int)
    requires WellFormed(f) && 0 <= i < j <= |f.roots|
    ensures Desc(f, f.roots[i]) <= Below(f, j)
  {
    if i >= j - 1 {
    } else {
      BelowIntro(f, j - 1, i);
    }
  }

  /** A later root is apart from the earlier ones. */
  lemma NextRootApart<Id>(f: Forest<Id>, j: int)
    requires WellFormed(f) && 0 <= j < |f.roots|
    ensures f.roots[j] in f.kids && Below(f, j) !! Desc(f, f.roots[j])
  {
    forall x | x in Below(f, j) ensures x !in Desc(f, f.roots[j]) {
      var i := BelowElim(f, j, x);
      TopsApart(f, f.roots[i], f.roots[j]);
    }
  }

  /** The order lists each node below the roots once, children before parents. */
  lemma {:induction false} OrderFacts<Id>(f: Forest<Id>, j: int)
    requires WellFormed(f) && 0 <= j <= |f.roots|
    ensures NoDuplicates(Order(f, j)) && NodesAre(Order(f, j), Below(f, j)) && ChildrenFirst(f, Order(f, j))
  {
    if j == 0 {
    } else {
      var r := f.roots[j - 1];
      OrderFacts(f, j - 1);
      NextRootApart(f, j - 1);
      PostOrderNodes(f, r);
      PostOrderOnce(f, r);
      PostOrderChildrenFirst(f, r);
      NoDuplicatesAppend(Order(f, j - 1), Below(f, j - 1), PostOrder(f, r), Desc(f, r));
      ChildrenFirstAppend(f, Order(f, j - 1), PostOrder(f, r));
    }
  }

  /** With nothing loose, the order of all roots lists every node once, children before parents. */
  lemma DestroyOrder<Id>(f: Forest<Id>)
    requires WellFormed(f) && f.loose == {}
    ensures var s := Order(f, |f.roots|); NoDuplicates(s) && NodesAre(s, f.kids.Keys) && ChildrenFirst(f, s)
  {
    OrderFacts(f, |f.roots|);
    forall x | x in f.kids ensures x in Below(f, |f.roots|) {
      var r := TopOf(f, x);
      var i :| 0 <= i < |f.roots| && f.roots[i] == r;
      BelowIntro(f, |f.roots|, i);
    }
    forall x | x in Below(f, |f.roots|) ensures x in f.kids {
      var i := BelowElim(f, |f.roots|, x);
      DescLower(f, f.roots[i], x);
    }
  }

  /** From f, the subtrees of the first j roots are gone and listed in order. */
  ghost predicate Swept<Id>(f: Forest<Id>, g: Forest<Id>, done: seq<Id>, j: int) {
    && WellFormed(f) && WellFormed(g) && f.loose == {} == g.loose && 0 <= j <= |f.roots| && g.roots == f.roots[j..]
    && g.kids.Keys == f.kids.Keys - Below(f, j) && (forall x :: x in g.kids ==> g.kids[x] == f.kids[x])
    && done == Order(f, j)
  }

  /** Below the next root nothing has changed, and taking it off the roots changes nothing below it either. */
  lemma NextRootIntact<Id>(f: Forest<Id>, g: Forest<Id>, done: seq<Id>, j: int)
    requires Swept(f, g, done, j) && j < |f.roots|
    ensures var r := f.roots[j];
            && r in f.kids && r in g.kids && g.roots[0] == r && WellFormed(Unlink(g, r))
            && Desc(Unlink(g, r), r) == Desc(f, r) && PostOrder(Unlink(g, r), r) == PostOrder(f, r)
  {
    var r := f.roots[j];
    NextRootApart(f, j);
    assert r in Desc(f, r);
    UnlinkKeeps(g, r);
    forall x | x in Desc(f, r) ensures x in f.kids && x in g.kids && f.kids[x] == Unlink(g, r).kids[x] {
      DescLower(f, r, x);
      RootOnNoList(g, r, x);
    }
    SubtreeFrame(f, Unlink(g, r), r);
  }

  lemma RootOnNoList<Id>(g: Forest<Id>, r: Id, x: Id)
    requires WellFormed(g) && r in g.roots && x in g.kids
    ensures Unlink(g, r).kids[x] == g.kids[x]
  {
    assert NodeOk(g, x);
    WithoutAbsent(g.kids[x], r);
  }

  lemma RootsWithout<Id>(g: Forest<Id>)
    requires WellFormed(g) && g.roots != []
    ensures Without(Without(g.roots, g.roots[0]), g.roots[0]) == g.roots[1..]
  {
    FirstWithout(g.roots, g.roots[0], g.roots[1..]);
  }

  lemma FirstWithout<Id>(s: seq<Id>, r: Id, rest: seq<Id>)
    requires s == [r] + rest && NoDuplicates(s)
    ensures Without(Without(s, r), r) == rest
  {
    WithoutAt(s, 0);
    assert s[..0] + s[1..] == rest;
    WithoutAbsent(rest, r);
  }

  /** Destroying the first root that is left. */
  lemma SweptNext<Id>(f: Forest<Id>, g: Forest<Id>, h: Forest<Id>, done: seq<Id>, j: int)
    requires Swept(f, g, done, j) && j < |f.roots| && WellFormed(h) && WellFormed(Unlink(g, f.roots[j]))
             && f.roots[j] in g.kids
    requires Removed(Unlink(g, f.roots[j]), h, f.roots[j])
    ensures Swept(f, h, done + PostOrder(Unlink(g, f.roots[j]), f.roots[j]), j + 1)
  {
    var r := f.roots[j];
    NextRootIntact(f, g, done, j);
    RootsWithout(g);
    var u := Unlink(g, r);
    forall x | x in h.kids ensures h.kids[x] == f.kids[x] {
      RootOnNoList(g, r, x);
      RootOnNoListAfter(g, r, x);
    }
    assert h.loose == {};
  }

  lemma RootOnNoListAfter<Id>(g: Forest<Id>, r: Id, x: Id)
    requires WellFormed(g) && r in g.roots && x in g.kids
    ensures Without(Unlink(g, r).kids[x], r) == g.kids[x]
  {
    RootOnNoList(g, r, x);
    assert NodeOk(g, x);
    WithoutAbsent(g.kids[x], r);
  }

  /** Once the roots are gone, so is every node. */
  lemma SweptAll<Id>(f: Forest<Id>, g: Forest<Id>, done: seq<Id>)
    requires WellFormed(f) && Swept(f, g, done, |f.roots|)
    ensures g.kids == map[] && done == Order(f, |f.roots|)
  {
    if x :| x in g.kids {
      var r := TopOf(g, x);
    }
  }
}
