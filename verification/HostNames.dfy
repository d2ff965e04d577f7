/** Lists of host names in one string, separated by colons or white space. */
module HostNames {
  import opened Common

  const SEPARATOR := ':'
  const NUL := '\0'
  const MAXHOSTNAMELEN := 64

  predicate IsEol(c: char) {
    c == '\r' || c == '\n'
  }

  predicate IsSpace(c: char) {
    c == ' ' || c == '\t' || c == '\U{c}' || c == '\U{b}' || IsEol(c)
  }

  predicate Splits(c: char) {
    c == SEPARATOR || IsSpace(c)
  }

  /** A string ends at its end or at a NUL. */
  predicate Ended(s: string) {
    s == "" || s[0] == NUL
  }

  /** The character at an index, and NUL after the last. */
  function CharAt(s: string, i: nat): char {
    if i < |s| then s[i] else NUL
  }

  lemma SuffixStep(s: string, i: nat)
    requires i < |s|
    ensures s[i..] != "" && s[i..][0] == s[i] && s[i..][1..] == s[i + 1..]
  {
  }

  /** The length of a string up to its end. */
  function StrLen(s: string): (n: nat)
    ensures n <= |s|
  {
    if Ended(s) then 0 else 1 + StrLen(s[1..])
  }

  function SkipSplits(s: string): (r: string)
    ensures |r| <= |s| && (if !Ended(s) && Splits(s[0]) then |r| < |s| else r == s)
  {
    if !Ended(s) && Splits(s[0]) then SkipSplits(s[1..]) else s
  }

  function HostLen(s: string): (n: nat)
    ensures n <= |s| && (!Ended(s) && !Splits(s[0]) ==> n > 0)
  {
    if Ended(s) || Splits(s[0]) then 0 else 1 + HostLen(s[1..])
  }

  /** The names in a string, without those too long. */
  function Names(s: string): seq<string>
    decreases |s|
  {
    if Ended(s) then []
    else
      var p := SkipSplits(s);
      var n := HostLen(p);
      (if 0 < n < MAXHOSTNAMELEN then [p[..n]] else []) + Names(p[n..])
  }

  /** A character of a field: neither NUL nor space, tab, carriage return, line feed, form feed or vertical tab. */
  predicate InField(c: char) {
    c != '\0' && c != ' ' && c != '\t' && c != '\r' && c != '\n' && c != '\U{c}' && c != '\U{b}'
  }

  predicate GoodName(h: string) {
    0 < |h| < 64 && forall i :: 0 <= i < |h| ==> InField(h[i]) && h[i] != ':'
  }

  /** Add the names that are not there yet, in order. */
  function AddNew(hs: seq<string>, names: seq<string>): seq<string>
    decreases |names|
  {
    if names == [] then hs
    else AddNew(if names[0] in hs then hs else hs + [names[0]], names[1..])
  }

  /** The first occurrences of the names: each once, in the order they first come. */
  lemma {:induction false} AddNewFacts(hs: seq<string>, names: seq<string>)
    requires NoDuplicates(hs)
    ensures NoDuplicates(AddNew(hs, names)) && hs <= AddNew(hs, names)
    ensures forall h :: h in AddNew(hs, names) <==> h in hs || h in names
    decreases |names|
  {
    if names == [] {
    } else {
      var hs' := if names[0] in hs then hs else hs + [names[0]];
      AddNewFacts(hs', names[1..]);
      forall h ensures h in AddNew(hs, names) <==> h in hs || h in names {
        assert h in names <==> h == names[0] || h in names[1..];
      }
    }
  }

  /** Each name stands before the names that first occur after it. */
  lemma {:induction false} AddNewOrder(hs: seq<string>, names: seq<string>, k: int)
    requires NoDuplicates(hs) && 0 <= k <= |names|
    ensures AddNew(hs, names[..k]) <= AddNew(hs, names)
    decreases |names|
  {
    if k == 0 {
      AddNewFacts(hs, names);
    } else {
      var hs' := if names[0] in hs then hs else hs + [names[0]];
      AddNewOrder(hs', names[1..], k - 1);
      assert names[..k][1..] == names[1..][..k - 1];
    }
  }

  lemma {:induction false} AddNewAppend(hs: seq<string>, names: seq<string>)
    requires NoDuplicates(hs + names)
    ensures AddNew(hs, names) == hs + names
    decreases |names|
  {
    if names != [] {
      forall i | 0 <= i < |hs| ensures hs[i] != names[0] {
        assert (hs + names)[i] == hs[i] && (hs + names)[|hs|] == names[0];
      }
      assert hs + [names[0]] + names[1..] == hs + names;
      AddNewAppend(hs + [names[0]], names[1..]);
    } else {
      assert hs + names == hs;
    }
  }

  /** Names joined by separators. */
  function Join(hs: seq<string>): string {
    if hs == [] then ""
    else if |hs| == 1 then hs[0]
    else hs[0] + [SEPARATOR] + Join(hs[1..])
  }

  lemma {:induction false} HostLenOf(h: string, rest: string)
    requires (forall i :: 0 <= i < |h| ==> h[i] != NUL && !Splits(h[i])) && (Ended(rest) || Splits(rest[0]))
    ensures HostLen(h + rest) == |h|
  {
    if h != "" {
      assert (h + rest)[1..] == h[1..] + rest;
      HostLenOf(h[1..], rest);
    } else {
      assert h + rest == rest;
    }
  }

  /** A good name in front, with or without a separator before it, is the first name. */
  lemma NamesFirst(h: string, rest: string)
    requires GoodName(h) && (Ended(rest) || Splits(rest[0]))
    ensures Names(h + rest) == [h] + Names(rest)
    ensures Names([SEPARATOR] + h + rest) == [h] + Names(rest)
  {
    var s := h + rest;
    HostLenOf(h, rest);
    assert s[0] == h[0];
    assert SkipSplits(s) == s && s[..|h|] == h && s[|h|..] == rest;
    var t := [SEPARATOR] + h + rest;
    assert t[1..] == s;
    assert SkipSplits(t) == s;
  }

  /** What follows the first name. */
  function AfterFirst(hs: seq<string>): string
    requires hs != []
  {
    if |hs| == 1 then "" else [SEPARATOR] + Join(hs[1..])
  }

  lemma JoinFirst(hs: seq<string>)
    requires hs != []
    ensures Join(hs) == hs[0] + AfterFirst(hs) && (Ended(AfterFirst(hs)) || Splits(AfterFirst(hs)[0]))
  {
    if |hs| == 1 {
      assert hs[0] + "" == hs[0];
    } else {
      assert hs[0] + [SEPARATOR] + Join(hs[1..]) == hs[0] + ([SEPARATOR] + Join(hs[1..]));
    }
  }

  lemma JoinedNames(hs: seq<string>, rest: string)
    requires hs != [] && GoodName(hs[0]) && rest == AfterFirst(hs) && Names(rest) == hs[1..]
    ensures Names(Join(hs)) == hs
  {
    JoinFirst(hs);
    NamesFirst(hs[0], rest);
    assert [hs[0]] + hs[1..] == hs;
  }

  /** Splitting joined names gives them back. */
  lemma {:induction false} NamesJoin(hs: seq<string>)
    requires forall h :: h in hs ==> GoodName(h)
    ensures Names(Join(hs)) == hs
    decreases |hs|
  {
    if hs == [] {
    } else {
      var rest := AfterFirst(hs);
      assert Names(rest) == hs[1..] by {
        if |hs| > 1 {
          SeparatorFirst(hs[1..]);
          NamesJoin(hs[1..]);
        }
      }
      JoinedNames(hs, rest);
    }
  }

  lemma SeparatorFirst(hs: seq<string>)
    requires hs != [] && forall h :: h in hs ==> GoodName(h)
    ensures Names([SEPARATOR] + Join(hs)) == Names(Join(hs))
  {
    JoinFirst(hs);
    NamesFirst(hs[0], AfterFirst(hs));
    assert [SEPARATOR] + Join(hs) == [SEPARATOR] + hs[0] + AfterFirst(hs);
  }

  /** The hosts of a list: its names, those of the configured list, and the local host, each once. */
  function Hosts(primary: string, configured: string, includeLocal: bool): seq<string> {
    AddNew(AddNew(AddNew([], Names(primary)), Names(configured)), if includeLocal then ["localhost"] else [])
  }

  /** Distinct good names that were joined come back in order. */
  lemma HostsJoin(hs: seq<string>)
    requires NoDuplicates(hs) && forall h :: h in hs ==> GoodName(h)
    ensures Hosts(Join(hs), "", false) == hs
  {
    NamesJoin(hs);
    assert [] + hs == hs;
    AddNewAppend([], hs);
  }

  /** Where the builder of the host list ends before its buffer: there is a list, no name in it, and no local host. */
  predicate StepsBefore(primary: string, configured: string, includeLocal: bool) {
    && !(Ended(primary) && Ended(configured)) && !includeLocal
    && Names(primary) == [] && Names(configured) == []
  }

  /** That is when there are no hosts but the list is not empty. */
  lemma NoHosts(primary: string, configured: string, includeLocal: bool)
    ensures Hosts(primary, configured, includeLocal) == [] <==>
            !includeLocal && Names(primary) == [] && Names(configured) == []
    ensures StepsBefore(primary, configured, includeLocal) <==>
            Hosts(primary, configured, includeLocal) == [] && !(Ended(primary) && Ended(configured))
  {
    AddNewEmpty([], Names(primary));
    AddNewEmpty(AddNew([], Names(primary)), Names(configured));
    AddNewEmpty(AddNew(AddNew([], Names(primary)), Names(configured)), if includeLocal then ["localhost"] else []);
  }

  lemma AddNewEmpty(hs: seq<string>, names: seq<string>)
    requires NoDuplicates(hs)
    ensures NoDuplicates(AddNew(hs, names)) && (AddNew(hs, names) == [] <==> hs == [] && names == [])
  {
    AddNewFacts(hs, names);
    assert names != [] ==> names[0] in AddNew(hs, names);
  }

  /** A separator alone holds no name, and neither does a name that is too long. */
  lemma NoName(h: string)
    requires h == [SEPARATOR] || (|h| >= MAXHOSTNAMELEN && forall i :: 0 <= i < |h| ==> h[i] != NUL && !Splits(h[i]))
    ensures !Ended(h) && Names(h) == [] && StepsBefore(h, "", false)
  {
    if h == [SEPARATOR] {
      assert h[1..] == "" && SkipSplits(h) == "";
    } else {
      HostLenOf(h, "");
      assert h + "" == h && SkipSplits(h) == h && h[|h|..] == "";
    }
  }
}
