/** A forest of handles as a value: ordered child lists, parents, and a height that bounds every path. */
module ForestModel {
  import opened Common

  /**
   * The nodes of kids are the live ones. A node without a parent is a root, or loose: taken off its
   * list and not yet put on another.
   */
  datatype Forest<Id> = Forest(roots: seq<Id>, loose: set<Id>, kids: map<Id, seq<Id>>,
                               parent: map<Id, Option<Id>>, height: map<Id, nat>)

  ghost predicate SameNodes<Id>(f: Forest<Id>) {
    f.kids.Keys == f.parent.Keys == f.height.Keys
  }

  /** Roots and loose nodes are live, have no parent, and are apart. */
  ghost predicate TopsOk<Id>(f: Forest<Id>)
    requires SameNodes(f)
  {
    && NoDuplicates(f.roots)
    && (forall r :: r in f.roots ==> r in f.kids && f.parent[r] == None && r !in f.loose)
    && (forall r :: r in f.loose ==> r in f.kids && f.parent[r] == None)
  }

  /** The children of n are listed once and know their parent, and n is on the list its parent says. */
  ghost predicate NodeOk<Id>(f: Forest<Id>, n: Id)
    requires SameNodes(f) && n in f.kids
  {
    && NoDuplicates(f.kids[n])
    && (forall c :: c in f.kids[n] ==> c in f.kids && f.parent[c] == Some(n))
    && (match f.parent[n]
        case None => n in f.roots || n in f.loose
        case Some(p) => p in f.kids && n in f.kids[p])
  }

  /** Children are live and strictly lower than their parent, so there is no cycle. */
  ghost predicate Descending<Id>(f: Forest<Id>) {
    forall n, c {:trigger c in f.kids[n]} {:trigger f.kids[n], c in f.kids} {:trigger Lower(f, n, c)} ::
      n in f.kids && c in f.kids[n] ==> Lower(f, n, c)
  }

  ghost predicate Lower<Id>(f: Forest<Id>, n: Id, c: Id) {
    n in f.height && c in f.kids && c in f.height && f.height[c] < f.height[n]
  }

  ghost predicate WellFormed<Id>(f: Forest<Id>) {
    && SameNodes(f) && TopsOk(f) && Descending(f)
    && forall n {:trigger NodeOk(f, n)} :: n in f.kids ==> NodeOk(f, n)
  }

  ghost function Level<Id>(f: Forest<Id>, n: Id): nat {
    if n in f.height then f.height[n] else 0
  }

  /** The nodes of the subtree of n. */
  ghost function Desc<Id>(f: Forest<Id>, n: Id): set<Id>
    requires Descending(f) && n in f.kids
    decreases Level(f, n), 1, 0
  {
    {n} + DescAll(f, n, f.kids[n])
  }

  ghost function DescAll<Id>(f: Forest<Id>, n: Id, cs: seq<Id>): set<Id>
    requires Descending(f) && n in f.kids && forall c :: c in cs ==> c in f.kids[n]
    decreases Level(f, n), 0, |cs|
  {
    if cs == [] then {} else DescAll(f, n, cs[..|cs| - 1]) + Desc(f, cs[|cs| - 1])
  }

  /** The nodes of the subtree of n, children before their parent. */
  ghost function PostOrder<Id>(f: Forest<Id>, n: Id): seq<Id>
    requires Descending(f) && n in f.kids
    decreases Level(f, n), 1, 0
  {
    PostOrderAll(f, n, f.kids[n]) + [n]
  }

  ghost function PostOrderAll<Id>(f: Forest<Id>, n: Id, cs: seq<Id>): seq<Id>
    requires Descending(f) && n in f.kids && forall c :: c in cs ==> c in f.kids[n]
    decreases Level(f, n), 0, |cs|
  {
    if cs == [] then [] else PostOrderAll(f, n, cs[..|cs| - 1]) + PostOrder(f, cs[|cs| - 1])
  }

  lemma {:induction false} DescAllIntro<Id>(f: Forest<Id>, n: Id, cs: seq<Id>, i: int)
    requires Descending(f) && n in f.kids && (forall c :: c in cs ==> c in f.kids[n]) && 0 <= i < |cs|
    ensures Desc(f, cs[i]) <= DescAll(f, n, cs)
    decreases |cs|
  {
    if i >= |cs| - 1 {
    } else {
      DescAllIntro(f, n, cs[..|cs| - 1], i);
    }
  }

  lemma {:induction false} DescAllElim<Id>(f: Forest<Id>, n: Id, cs: seq<Id>, x: Id) returns (i: int)
    requires Descending(f) && n in f.kids && (forall c :: c in cs ==> c in f.kids[n]) && x in DescAll(f, n, cs)
    ensures 0 <= i < |cs| && x in Desc(f, cs[i])
    decreases |cs|
  {
    if x in Desc(f, cs[|cs| - 1]) {
      i := |cs| - 1;
    } else {
      i := DescAllElim(f, n, cs[..|cs| - 1], x);
    }
  }

  /** A proper descendant lies below a child. */
  lemma BelowChild<Id>(f: Forest<Id>, n: Id, x: Id) returns (c: Id)
    requires Descending(f) && n in f.kids && x in Desc(f, n) && x != n
    ensures c in f.kids[n] && x in Desc(f, c)
  {
    var i := DescAllElim(f, n, f.kids[n], x);
    c := f.kids[n][i];
  }

  lemma ChildBelow<Id>(f: Forest<Id>, n: Id, c: Id)
    requires Descending(f) && n in f.kids && c in f.kids[n]
    ensures Desc(f, c) <= Desc(f, n) && c in Desc(f, n)
  {
    var i :| 0 <= i < |f.kids[n]| && f.kids[n][i] == c;
    DescAllIntro(f, n, f.kids[n], i);
  }

  /** Descendants are live and lower. */
  lemma {:induction false} DescLower<Id>(f: Forest<Id>, n: Id, x: Id)
    requires Descending(f) && n in f.kids && x in Desc(f, n)
    ensures x in f.kids && (x != n ==> Level(f, x) < Level(f, n))
    decreases Level(f, n)
  {
    if x == n {
    } else {
      var c := BelowChild(f, n, x);
      DescLower(f, c, x);
    }
  }

  lemma {:induction false} DescTransitive<Id>(f: Forest<Id>, n: Id, x: Id)
    requires Descending(f) && n in f.kids && x in Desc(f, n)
    ensures x in f.kids && Desc(f, x) <= Desc(f, n)
    decreases Level(f, n)
  {
    if x == n {
    } else {
      var c := BelowChild(f, n, x);
      DescTransitive(f, c, x);
      ChildBelow(f, n, c);
    }
  }

  /** The parent of a proper descendant is a descendant. */
  lemma {:induction false} DescParent<Id>(f: Forest<Id>, n: Id, x: Id)
    requires WellFormed(f) && n in f.kids && x in Desc(f, n) && x != n
    ensures x in f.kids && f.parent[x].Some? && f.parent[x].value in Desc(f, n)
    decreases Level(f, n)
  {
    var c := BelowChild(f, n, x);
    if x == c {
      assert NodeOk(f, n);
    } else {
      DescParent(f, c, x);
      ChildBelow(f, n, c);
    }
  }

  /** Two subtrees that meet are nested. */
  lemma {:induction false} Nested<Id>(f: Forest<Id>, a: Id, b: Id, x: Id)
    requires WellFormed(f) && a in f.kids && b in f.kids && x in Desc(f, a) && x in Desc(f, b)
    ensures a in Desc(f, b) || b in Desc(f, a)
    decreases Level(f, a) - Level(f, x)
  {
    if x != a && x != b {
      DescParent(f, a, x);
      DescParent(f, b, x);
      var p := f.parent[x].value;
      assert NodeOk(f, x);
      DescLower(f, a, p);
      Nested(f, a, b, p);
    }
  }

  ghost predicate IsChild<Id>(f: Forest<Id>, n: Id, c: Id) {
    n in f.kids && c in f.kids && c in f.parent && f.parent[c] == Some(n) && Level(f, c) < Level(f, n)
  }

  lemma ChildFacts<Id>(f: Forest<Id>, n: Id, c: Id)
    requires WellFormed(f) && n in f.kids && c in f.kids[n]
    ensures IsChild(f, n, c)
  {
    assert NodeOk(f, n);
  }

  /** Subtrees of different children of one node do not meet. */
  lemma SiblingsApart<Id>(f: Forest<Id>, n: Id, c: Id, d: Id)
    requires WellFormed(f) && IsChild(f, n, c) && IsChild(f, n, d) && c != d
    ensures Desc(f, c) !! Desc(f, d)
  {
    NotBelowSibling(f, n, c, d);
    NotBelowSibling(f, n, d, c);
    var C, D := Desc(f, c), Desc(f, d);
    forall x | x in C ensures x !in D {
      if x in D { Nested(f, c, d, x); }
    }
  }

  lemma NotBelowSibling<Id>(f: Forest<Id>, n: Id, c: Id, d: Id)
    requires WellFormed(f) && IsChild(f, n, c) && IsChild(f, n, d) && c != d
    ensures c !in Desc(f, d)
  {
    if c in Desc(f, d) {
      DescParent(f, d, c);
      DescLower(f, d, n);
    }
  }

  /** f and g have the same child lists below n. */
  ghost predicate SameBelow<Id>(f: Forest<Id>, g: Forest<Id>, ns: set<Id>) {
    forall x :: x in ns ==> x in f.kids && x in g.kids && f.kids[x] == g.kids[x]
  }

  /** The subtree and its order depend only on the child lists in it. */
  lemma {:induction false} SubtreeFrame<Id>(f: Forest<Id>, g: Forest<Id>, n: Id)
    requires Descending(f) && Descending(g) && n in f.kids && n in g.kids && SameBelow(f, g, Desc(f, n))
    ensures Desc(g, n) == Desc(f, n) && PostOrder(g, n) == PostOrder(f, n)
    decreases Level(f, n), 1, 0
  {
    assert n in Desc(f, n);
    SubtreesFrame(f, g, n, f.kids[n]);
  }

  lemma {:induction false} SubtreesFrame<Id>(f: Forest<Id>, g: Forest<Id>, n: Id, cs: seq<Id>)
    requires Descending(f) && Descending(g) && n in f.kids && n in g.kids && f.kids[n] == g.kids[n]
    requires (forall c :: c in cs ==> c in f.kids[n]) && SameBelow(f, g, DescAll(f, n, cs))
    ensures DescAll(g, n, cs) == DescAll(f, n, cs) && PostOrderAll(g, n, cs) == PostOrderAll(f, n, cs)
    decreases Level(f, n), 0, |cs|
  {
    if cs == [] {
    } else {
      assert Lower(f, n, cs[|cs| - 1]);
      SubtreesFrame(f, g, n, cs[..|cs| - 1]);
      SubtreeFrame(f, g, cs[|cs| - 1]);
    }
  }

  ghost predicate NodesAre<Id>(s: seq<Id>, ns: set<Id>) {
    (forall x :: x in s ==> x in ns) && (forall x :: x in ns ==> x in s)
  }

  /** The order lists exactly the subtree. */
  lemma {:induction false} PostOrderNodes<Id>(f: Forest<Id>, n: Id)
    requires Descending(f) && n in f.kids
    ensures NodesAre(PostOrder(f, n), Desc(f, n))
    decreases Level(f, n), 1, 0
  {
    PostOrderAllNodes(f, n, f.kids[n]);
  }

  lemma {:induction false} PostOrderAllNodes<Id>(f: Forest<Id>, n: Id, cs: seq<Id>)
    requires Descending(f) && n in f.kids && forall c :: c in cs ==> c in f.kids[n]
    ensures NodesAre(PostOrderAll(f, n, cs), DescAll(f, n, cs))
    decreases Level(f, n), 0, |cs|
  {
    if cs == [] {
    } else {
      assert Lower(f, n, cs[|cs| - 1]);
      PostOrderAllNodes(f, n, cs[..|cs| - 1]);
      PostOrderNodes(f, cs[|cs| - 1]);
    }
  }

  lemma NoDuplicatesAppend<Id>(s: seq<Id>, ns: set<Id>, t: seq<Id>, nt: set<Id>)
    requires NoDuplicates(s) && NoDuplicates(t) && NodesAre(s, ns) && NodesAre(t, nt) && ns !! nt
    ensures NoDuplicates(s + t)
  {
    var u := s + t;
    forall i, j | 0 <= i < j < |u| ensures u[i] != u[j] {
      if i < |s| <= j { assert s[i] in ns && t[j - |s|] in nt; }
    }
  }

  lemma NotBelowItself<Id>(f: Forest<Id>, n: Id)
    requires Descending(f) && n in f.kids
    ensures n !in DescAll(f, n, f.kids[n])
  {
    if n in DescAll(f, n, f.kids[n]) {
      var i := DescAllElim(f, n, f.kids[n], n);
      DescLower(f, f.kids[n][i], n);
    }
  }

  /** The order lists no node twice. */
  lemma {:induction false} PostOrderOnce<Id>(f: Forest<Id>, n: Id)
    requires WellFormed(f) && n in f.kids
    ensures NoDuplicates(PostOrder(f, n))
    decreases Level(f, n), 1, 0
  {
    assert NodeOk(f, n);
    PostOrderAllOnce(f, n, f.kids[n]);
    PostOrderAllNodes(f, n, f.kids[n]);
    NotBelowItself(f, n);
    NoDuplicatesAppend(PostOrderAll(f, n, f.kids[n]), DescAll(f, n, f.kids[n]), [n], {n});
  }

  lemma {:induction false} PostOrderAllOnce<Id>(f: Forest<Id>, n: Id, cs: seq<Id>)
    requires WellFormed(f) && n in f.kids && (forall c :: c in cs ==> c in f.kids[n]) && NoDuplicates(cs)
    ensures NoDuplicates(PostOrderAll(f, n, cs))
    decreases Level(f, n), 0, |cs|
  {
    if cs == [] {
    } else {
      var front, c := cs[..|cs| - 1], cs[|cs| - 1];
      PostOrderAllOnce(f, n, front);
      PostOrderOnce(f, c);
      PostOrderAllNodes(f, n, front);
      PostOrderNodes(f, c);
      LastApart(f, n, cs);
      NoDuplicatesAppend(PostOrderAll(f, n, front), DescAll(f, n, front), PostOrder(f, c), Desc(f, c));
    }
  }

  lemma LastApart<Id>(f: Forest<Id>, n: Id, cs: seq<Id>)
    requires WellFormed(f) && n in f.kids && (forall c :: c in cs ==> c in f.kids[n]) && NoDuplicates(cs) && cs != []
    ensures cs[|cs| - 1] in f.kids && DescAll(f, n, cs[..|cs| - 1]) !! Desc(f, cs[|cs| - 1])
  {
    var front, c := cs[..|cs| - 1], cs[|cs| - 1];
    ChildFacts(f, n, c);
    var A := DescAll(f, n, front);
    forall x | x in A ensures x !in Desc(f, c) {
      var i := DescAllElim(f, n, front, x);
      ChildFacts(f, n, front[i]);
      SiblingsApart(f, n, front[i], c);
    }
  }

  ghost predicate Covers<Id>(s: seq<Id>, ns: set<Id>) {
    forall y :: y in ns ==> y in s
  }

  /** The i-th node of s comes after all its descendants. */
  ghost predicate FirstAt<Id>(f: Forest<Id>, s: seq<Id>, i: int)
    requires Descending(f) && 0 <= i < |s|
  {
    s[i] in f.kids && Covers(s[..i + 1], Desc(f, s[i]))
  }

  /** Every node of s comes after all its descendants. */
  ghost predicate ChildrenFirst<Id>(f: Forest<Id>, s: seq<Id>)
    requires Descending(f)
  {
    forall i {:trigger FirstAt(f, s, i)} :: 0 <= i < |s| ==> FirstAt(f, s, i)
  }

  lemma FirstAtAppend<Id>(f: Forest<Id>, s: seq<Id>, t: seq<Id>, i: int)
    requires Descending(f) && 0 <= i < |s| && FirstAt(f, s, i)
    ensures FirstAt(f, s + t, i)
  {
    assert (s + t)[..i + 1] == s[..i + 1];
  }

  lemma FirstAtPrepend<Id>(f: Forest<Id>, s: seq<Id>, t: seq<Id>, i: int)
    requires Descending(f) && 0 <= i < |t| && FirstAt(f, t, i)
    ensures FirstAt(f, s + t, |s| + i)
  {
    assert (s + t)[|s| + i] == t[i] && (s + t)[..|s| + i + 1] == s + t[..i + 1];
  }

  lemma ChildrenFirstAppend<Id>(f: Forest<Id>, s: seq<Id>, t: seq<Id>)
    requires Descending(f) && ChildrenFirst(f, s) && ChildrenFirst(f, t)
    ensures ChildrenFirst(f, s + t)
  {
    forall i | 0 <= i < |s + t| ensures FirstAt(f, s + t, i) {
      if i < |s| {
        assert FirstAt(f, s, i);
        FirstAtAppend(f, s, t, i);
      } else {
        assert FirstAt(f, t, i - |s|);
        FirstAtPrepend(f, s, t, i - |s|);
      }
    }
  }

  /** Descendants come before ancestors. */
  lemma {:induction false} PostOrderChildrenFirst<Id>(f: Forest<Id>, n: Id)
    requires Descending(f) && n in f.kids
    ensures ChildrenFirst(f, PostOrder(f, n))
    decreases Level(f, n), 1, 0
  {
    var s := PostOrderAll(f, n, f.kids[n]);
    PostOrderAllChildrenFirst(f, n, f.kids[n]);
    PostOrderNodes(f, n);
    RootLast(f, s, n);
  }

  lemma RootLast<Id>(f: Forest<Id>, s: seq<Id>, n: Id)
    requires Descending(f) && ChildrenFirst(f, s) && n in f.kids && Covers(s + [n], Desc(f, n))
    ensures ChildrenFirst(f, s + [n])
  {
    forall i | 0 <= i < |s + [n]| ensures FirstAt(f, s + [n], i) {
      if i < |s| {
        assert FirstAt(f, s, i);
        FirstAtAppend(f, s, [n], i);
      } else {
        assert (s + [n])[..i + 1] == s + [n];
      }
    }
  }

  lemma {:induction false} PostOrderAllChildrenFirst<Id>(f: Forest<Id>, n: Id, cs: seq<Id>)
    requires Descending(f) && n in f.kids && forall c :: c in cs ==> c in f.kids[n]
    ensures ChildrenFirst(f, PostOrderAll(f, n, cs))
    decreases Level(f, n), 0, |cs|
  {
    if cs == [] {
    } else {
      assert Lower(f, n, cs[|cs| - 1]);
      PostOrderAllChildrenFirst(f, n, cs[..|cs| - 1]);
      PostOrderChildrenFirst(f, cs[|cs| - 1]);
      ChildrenFirstAppend(f, PostOrderAll(f, n, cs[..|cs| - 1]), PostOrder(f, cs[|cs| - 1]));
    }
  }
}
