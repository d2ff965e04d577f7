/** What fixes a subtree and its post order: the least closed set of nodes, and siblings in the order of their list. */
module ForestOrder {
  import opened ForestModel
  import opened ForestOps

  /** A set of nodes that has the children of its nodes. */
  ghost predicate Closed<Id>(f: Forest<Id>, S: set<Id>) {
    forall x :: x in S && x in f.kids ==> forall c :: c in f.kids[x] ==> c in S
  }

  lemma SubtreeClosed<Id>(f: Forest<Id>, n: Id)
    requires Descending(f) && n in f.kids
    ensures n in Desc(f, n) && Closed(f, Desc(f, n))
  {
    forall x, c | x in Desc(f, n) && x in f.kids && c in f.kids[x] ensures c in Desc(f, n) {
      ChildInSubtree(f, n, x, c);
    }
  }

  lemma {:induction false} ChildInSubtree<Id>(f: Forest<Id>, n: Id, x: Id, c: Id)
    requires Descending(f) && n in f.kids && x in Desc(f, n) && x in f.kids && c in f.kids[x]
    ensures c in Desc(f, n)
    decreases Level(f, n)
  {
    if x == n {
      var i :| 0 <= i < |f.kids[n]| && f.kids[n][i] == c;
      DescAllIntro(f, n, f.kids[n], i);
    } else {
      var i := DescAllElim(f, n, f.kids[n], x);
      assert Lower(f, n, f.kids[n][i]);
      ChildInSubtree(f, f.kids[n][i], x, c);
      DescAllIntro(f, n, f.kids[n], i);
    }
  }

  /** The subtree is the least such set. */
  lemma {:induction false} SubtreeLeast<Id>(f: Forest<Id>, n: Id, S: set<Id>)
    requires Descending(f) && n in f.kids && n in S && Closed(f, S)
    ensures Desc(f, n) <= S
    decreases Level(f, n)
  {
    forall x | x in Desc(f, n) ensures x in S {
      if x != n {
        var i := DescAllElim(f, n, f.kids[n], x);
        assert Lower(f, n, f.kids[n][i]);
        SubtreeLeast(f, f.kids[n][i], S);
      }
    }
  }

  /** u stands before v. */
  ghost predicate Before<Id>(s: seq<Id>, u: Id, v: Id) {
    exists p, q :: 0 <= p < q < |s| && s[p] == u && s[q] == v
  }

  lemma BeforeWithin<Id>(a: seq<Id>, s: seq<Id>, b: seq<Id>, u: Id, v: Id)
    requires Before(s, u, v)
    ensures Before(a + s + b, u, v)
  {
    var p, q :| 0 <= p < q < |s| && s[p] == u && s[q] == v;
    var t := a + s + b;
    assert t[|a| + p] == u && t[|a| + q] == v;
  }

  lemma BeforeAcross<Id>(s: seq<Id>, t: seq<Id>, u: Id, v: Id)
    requires u in s && v in t
    ensures Before(s + t, u, v)
  {
    var p :| 0 <= p < |s| && s[p] == u;
    var q :| 0 <= q < |t| && t[q] == v;
    assert (s + t)[p] == u && (s + t)[|s| + q] == v;
  }

  /** The orders of the first children come first. */
  lemma {:induction false} FirstChildrenFirst<Id>(f: Forest<Id>, n: Id, k: int) returns (more: seq<Id>)
    requires Descending(f) && n in f.kids && 0 <= k <= |f.kids[n]|
    ensures PostOrder(f, n) == PostOrderAll(f, n, f.kids[n][..k]) + more
    decreases |f.kids[n]| - k
  {
    if k == |f.kids[n]| {
      PostOrderOfNode(f, n);
      more := [n];
    } else {
      var rest := FirstChildrenFirst(f, n, k + 1);
      PrefixStep(f, n, k);
      more := PostOrder(f, f.kids[n][k]) + rest;
    }
  }

  lemma ChildrenInOrder<Id>(f: Forest<Id>, n: Id, i: int, j: int, u: Id, v: Id)
    requires Descending(f) && n in f.kids && 0 <= i < j < |f.kids[n]|
    requires u in Desc(f, f.kids[n][i]) && v in Desc(f, f.kids[n][j])
    ensures Before(PostOrder(f, n), u, v)
  {
    var more := FirstChildrenFirst(f, n, j + 1);
    PrefixStep(f, n, j);
    var s, t := PostOrderAll(f, n, f.kids[n][..j]), PostOrder(f, f.kids[n][j]);
    assert u in s by {
      PostOrderAllNodes(f, n, f.kids[n][..j]);
      DescAllIntro(f, n, f.kids[n][..j], i);
    }
    assert v in t by { PostOrderNodes(f, f.kids[n][j]); }
    BeforeAcross(s, t, u, v);
    BeforeWithin([], s + t, more, u, v);
    assert [] + (s + t) + more == s + t + more;
  }

  lemma ChildOrderWithin<Id>(f: Forest<Id>, m: Id, k: int, u: Id, v: Id)
    requires Descending(f) && m in f.kids && 0 <= k < |f.kids[m]| && Before(PostOrder(f, f.kids[m][k]), u, v)
    ensures Before(PostOrder(f, m), u, v)
  {
    var more := FirstChildrenFirst(f, m, k + 1);
    PrefixStep(f, m, k);
    BeforeWithin(PostOrderAll(f, m, f.kids[m][..k]), PostOrder(f, f.kids[m][k]), more, u, v);
  }

  /** All of an earlier sibling's subtree comes before all of a later one's. */
  lemma {:induction false} SiblingsInOrder<Id>(f: Forest<Id>, m: Id, n: Id, i: int, j: int, u: Id, v: Id)
    requires Descending(f) && m in f.kids && n in f.kids && n in Desc(f, m) && 0 <= i < j < |f.kids[n]|
    requires u in Desc(f, f.kids[n][i]) && v in Desc(f, f.kids[n][j])
    ensures Before(PostOrder(f, m), u, v)
    decreases Level(f, m)
  {
    if m == n {
      ChildrenInOrder(f, n, i, j, u, v);
    } else {
      var k := DescAllElim(f, m, f.kids[m], n);
      assert Lower(f, m, f.kids[m][k]);
      SiblingsInOrder(f, f.kids[m][k], n, i, j, u, v);
      ChildOrderWithin(f, m, k, u, v);
    }
  }
}
