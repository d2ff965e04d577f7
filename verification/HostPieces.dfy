/** Host lists by their pieces, with the characters that part them written out. */
module HostPieces {
  import opened Common
  import opened HostNames
  import opened Splitting

  /** What parts the names of a host list. */
  const BETWEEN := {':', ' ', '\t', '\r', '\n', '\U{c}', '\U{b}'}

  /** The strings of fewer than 64 characters. */
  function Short(ps: seq<string>): seq<string> {
    if ps == [] then [] else (if |ps[0]| < 64 then [ps[0]] else []) + Short(ps[1..])
  }

  lemma SplitKinds(c: char)
    ensures Splits(c) <==> c in BETWEEN
  {
  }

  lemma {:induction false} SplitsSkipped(s: string)
    ensures Pieces(UpToNul(SkipSplits(s)), BETWEEN) == Pieces(UpToNul(s), BETWEEN)
    ensures var p := SkipSplits(s); Ended(p) || p[0] !in BETWEEN
    decreases |s|
  {
    if s != "" { SplitKinds(s[0]); }
    if !Ended(s) && s[0] in BETWEEN {
      SplitsSkipped(s[1..]);
      PiecesCons(s[0], UpToNul(s[1..]), BETWEEN);
    }
  }

  lemma {:induction false} NameFirst(p: string)
    ensures var n := HostLen(p);
            && UpToNul(p) == p[..n] + UpToNul(p[n..]) && Free(p[..n], BETWEEN)
            && (UpToNul(p[n..]) == "" || UpToNul(p[n..])[0] in BETWEEN)
    decreases |p|
  {
    var n := HostLen(p);
    if p != "" { SplitKinds(p[0]); }
    if Ended(p) || Splits(p[0]) {
      assert p[..0] == "" && p[0..] == p && "" + UpToNul(p) == UpToNul(p);
    } else {
      NameFirst(p[1..]);
      var m := HostLen(p[1..]);
      assert p[1..][m..] == p[n..] && p[..n] == [p[0]] + p[1..][..m];
      Associative([p[0]], p[1..][..m], UpToNul(p[n..]));
    }
  }

  lemma ShortFirst(h: string, ps: seq<string>)
    ensures Short([h] + ps) == (if |h| < 64 then [h] else []) + Short(ps)
  {
    assert ([h] + ps)[1..] == ps;
  }

  /** The names of a list are its pieces of fewer than 64 characters. */
  lemma {:induction false} NamesByPieces(s: string)
    ensures Names(s) == Short(Pieces(UpToNul(s), BETWEEN))
    decreases |s|
  {
    if Ended(s) {
    } else {
      var p := SkipSplits(s);
      var n := HostLen(p);
      SplitsSkipped(s);
      NameFirst(p);
      if n > 0 {
        PiecesFirst(p[..n], UpToNul(p[n..]), BETWEEN);
        ShortFirst(p[..n], Pieces(UpToNul(p[n..]), BETWEEN));
        NamesByPieces(p[n..]);
      } else {
        if p != "" { SplitKinds(p[0]); }
        assert Ended(p) && p[0..] == p;
      }
    }
  }

  // ---- the hosts in order ----

  lemma {:induction false} AddNewTwice(hs: seq<string>, a: seq<string>, b: seq<string>)
    ensures AddNew(hs, a + b) == AddNew(AddNew(hs, a), b)
    decreases |a|
  {
    if a == [] {
      assert a + b == b;
    } else {
      AddNewTwice(if a[0] in hs then hs else hs + [a[0]], a[1..], b);
      assert (a + b)[0] == a[0] && (a + b)[1..] == a[1..] + b;
    }
  }

  /** The first occurrence of u is before every occurrence of v. */
  ghost predicate FirstBefore(all: seq<string>, u: string, v: string) {
    exists k :: 0 <= k < |all| && all[k] == u && v !in all[..k + 1]
  }

  /** hs has the strings of all, each once, in the order of their first occurrences. */
  ghost predicate FirstOccurrences(hs: seq<string>, all: seq<string>) {
    && NoDuplicates(hs) && (forall h :: h in hs <==> h in all)
    && forall i, j :: 0 <= i < j < |hs| ==> FirstBefore(all, hs[i], hs[j])
  }

  lemma {:induction false} FirstIndex(all: seq<string>, u: string) returns (k: nat)
    requires u in all
    ensures k < |all| && all[k] == u && u !in all[..k]
    decreases |all|
  {
    if all[0] == u {
      k := 0;
    } else {
      k := FirstIndex(all[1..], u);
      k := k + 1;
      assert all[..k] == [all[0]] + all[1..][..k - 1];
    }
  }

  lemma AddNewLast(all: seq<string>, k: nat)
    requires k < |all| && all[k] !in all[..k]
    ensures AddNew([], all[..k + 1]) == AddNew([], all[..k]) + [all[k]]
  {
    assert all[..k + 1] == all[..k] + [all[k]];
    AddNewTwice([], all[..k], [all[k]]);
    AddNewFacts([], all[..k]);
    assert [all[k]][1..] == [];
  }

  lemma OrderOfTwo(all: seq<string>, hs: seq<string>, i: int, j: int)
    requires hs == AddNew([], all) && 0 <= i < j < |hs|
    ensures FirstBefore(all, hs[i], hs[j])
  {
    AddNewFacts([], all);
    var k := FirstIndex(all, hs[i]);
    var before := AddNew([], all[..k]);
    AddNewLast(all, k);
    AddNewFacts([], all[..k + 1]);
    AddNewOrder([], all, k + 1);
    assert before + [hs[i]] <= hs;
    assert hs[|before|] == hs[i];
    assert |before| == i;
  }

  lemma AddNewInOrder(all: seq<string>)
    ensures FirstOccurrences(AddNew([], all), all)
  {
    var hs := AddNew([], all);
    AddNewFacts([], all);
    forall i, j | 0 <= i < j < |hs| ensures FirstBefore(all, hs[i], hs[j]) { OrderOfTwo(all, hs, i, j); }
  }

  lemma HostsAtOnce(primary: string, configured: string, includeLocal: bool)
    ensures Hosts(primary, configured, includeLocal) ==
            AddNew([], Names(primary) + Names(configured) + if includeLocal then ["localhost"] else [])
  {
    AddNewTwice([], Names(primary), Names(configured));
    AddNewTwice([], Names(primary) + Names(configured), if includeLocal then ["localhost"] else []);
  }

  /** The hosts: the names of the list, then the configured ones, then the local host, where they first occur. */
  lemma HostsInOrder(primary: string, configured: string, includeLocal: bool)
    ensures FirstOccurrences(Hosts(primary, configured, includeLocal),
                             Short(Pieces(UpToNul(primary), BETWEEN)) + Short(Pieces(UpToNul(configured), BETWEEN))
                             + if includeLocal then ["localhost"] else [])
  {
    NamesByPieces(primary);
    NamesByPieces(configured);
    HostsAtOnce(primary, configured, includeLocal);
    AddNewInOrder(Names(primary) + Names(configured) + if includeLocal then ["localhost"] else []);
  }
}
