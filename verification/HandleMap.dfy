/** Calling a function on a node and all below it, in post order, until it answers with an error. */
module HandleMap {
  import opened Common
  import opened ForestModel
  import opened ForestOps
  import opened NodeLists

  /** The nodes a function is called on, when it is called in this order until it fails. */
  ghost function Until(mf: Node -> int, s: seq<Node>): seq<Node> {
    if s == [] then [] else if mf(s[0]) != 0 then [s[0]] else [s[0]] + Until(mf, s[1..])
  }

  /** The answer of the last call, which is the first error. */
  ghost function Answer(mf: Node -> int, s: seq<Node>): int {
    if s == [] then 0 else if mf(s[0]) != 0 then mf(s[0]) else Answer(mf, s[1..])
  }

  /** Going on with t after s, unless s has failed. */
  lemma {:induction false} UntilAppend(mf: Node -> int, s: seq<Node>, t: seq<Node>)
    ensures Answer(mf, s) == 0 ==>
            Until(mf, s) == s && Until(mf, s + t) == s + Until(mf, t) && Answer(mf, s + t) == Answer(mf, t)
    ensures Answer(mf, s) != 0 ==> Until(mf, s + t) == Until(mf, s) && Answer(mf, s + t) == Answer(mf, s)
    decreases |s|
  {
    if s == [] {
      assert s + t == t;
      assert s + Until(mf, t) == Until(mf, t);
    } else {
      assert (s + t)[0] == s[0] && (s + t)[1..] == s[1..] + t;
      UntilAppend(mf, s[1..], t);
      Associative([s[0]], s[1..], Until(mf, t));
      assert [s[0]] + s[1..] == s;
    }
  }

  /** The calls go through s in order up to the first that fails, and the answer is that of the last call. */
  ghost predicate Called(mf: Node -> int, s: seq<Node>, visited: seq<Node>, res: int) {
    && visited != [] && visited <= s && res == mf(visited[|visited| - 1]) && (res == 0 ==> visited == s)
    && forall i :: 0 <= i < |visited| - 1 ==> mf(visited[i]) == 0
  }

  lemma {:induction false} UntilCalls(mf: Node -> int, s: seq<Node>)
    requires s != []
    ensures Called(mf, s, Until(mf, s), Answer(mf, s))
    decreases |s|
  {
    assert [s[0]] + s[1..] == s;
    if mf(s[0]) == 0 && |s| > 1 {
      UntilCalls(mf, s[1..]);
      var u := Until(mf, s[1..]);
      assert Until(mf, s) == [s[0]] + u;
      assert u == s[1..][..|u|];
    }
  }

  /** An error below one of the first j children ends the walk. */
  lemma {:induction false} FailedBelow(f: Model, mf: Node -> int, n: Node, j: int)
    requires WellFormed(f) && n in f.kids && 0 <= j <= |f.kids[n]|
             && Answer(mf, PostOrderAll(f, n, f.kids[n][..j])) != 0
    ensures var s := PostOrderAll(f, n, f.kids[n][..j]);
            Until(mf, PostOrder(f, n)) == Until(mf, s) && Answer(mf, PostOrder(f, n)) == Answer(mf, s)
    decreases |f.kids[n]| - j
  {
    var s := PostOrderAll(f, n, f.kids[n][..j]);
    if j < |f.kids[n]| {
      PrefixStep(f, n, j);
      UntilAppend(mf, s, PostOrder(f, f.kids[n][j]));
      FailedBelow(f, mf, n, j + 1);
    } else {
      PostOrderOfNode(f, n);
      UntilAppend(mf, s, [n]);
    }
  }

  /** Call mf on the nodes below n and then on n. */
  method MapWorker(lists: Lists, n: Node, mf: Node -> int) returns (res: int, ghost visited: seq<Node>)
    requires lists.Valid() && n in lists.m.kids
    ensures WellFormed(lists.m) && res == Answer(mf, PostOrder(lists.m, n))
            && visited == Until(mf, PostOrder(lists.m, n))
    ensures Called(mf, PostOrder(lists.m, n), visited, res)
    decreases Level(lists.m, n)
  {
    ghost var f, j := lists.m, 0;
    visited := [];
    var c := lists.First(n.children, n);
    while c != null
      invariant 0 <= j <= |f.kids[n]| && c == (if j == |f.kids[n]| then null else f.kids[n][j])
      invariant visited == PostOrderAll(f, n, f.kids[n][..j]) && Answer(mf, visited) == 0
      decreases |f.kids[n]| - j
    {
      assert Lower(f, n, c);
      ghost var below;
      res, below := MapWorker(lists, c, mf);
      PrefixStep(f, n, j);
      UntilAppend(mf, visited, PostOrder(f, c));
      visited := visited + below;
      if res != 0 {
        FailedBelow(f, mf, n, j + 1);
        PostOrderOfNode(f, n);
        UntilCalls(mf, PostOrder(f, n));
        return;
      }
      UntilAppend(mf, PostOrder(f, c), []);
      c := lists.Following(c, n.children, n, j);
      j := j + 1;
    }
    PostOrderOfNode(f, n);
    UntilAppend(mf, visited, [n]);
    visited := visited + [n];
    res := mf(n);
    UntilCalls(mf, PostOrder(f, n));
  }
}
