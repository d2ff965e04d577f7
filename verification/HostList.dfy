/** The host list builder: names are popped off strings and kept, each once, in a buffer with separators. */
module HostList {
  import opened Common
  import opened HostNames

  /** What building a list comes to; the last case reads and may write the cell before its buffer. */
  datatype Built<T> = Made(value: T) | Nothing | BeforeBuffer

  /** The string s stands in the buffer from index k on, with the NUL that ends it. */
  ghost predicate StringAt(buf: seq<char>, k: int, s: string) {
    0 <= k && k + |s| < |buf| && buf[k..k + |s|] == s && buf[k + |s|] == NUL && NUL !in s
  }

  lemma CharOf(buf: seq<char>, k: int, s: string, i: int)
    requires StringAt(buf, k, s) && 0 <= i < |s|
    ensures buf[k + i] == s[i]
  {
    assert buf[k..k + |s|][i] == buf[k + i];
  }

  /** Writing outside a string leaves it. */
  lemma WriteElsewhere(buf: seq<char>, k: int, s: string, w: nat, c: char)
    requires StringAt(buf, k, s) && w < |buf| && (w < k || k + |s| < w)
    ensures StringAt(buf[w := c], k, s)
  {
    assert buf[w := c][k..k + |s|] == buf[k..k + |s|];
  }

  /** A NUL in a string cuts it in two. */
  lemma CutString(buf: seq<char>, k: int, s: string, n: nat)
    requires StringAt(buf, k, s) && n < |s|
    ensures StringAt(buf[k + n := NUL], k, s[..n]) && StringAt(buf[k + n := NUL], k + n + 1, s[n + 1..])
  {
    var after := buf[k + n := NUL];
    assert after[k..k + n] == buf[k..k + |s|][..n];
    assert after[k + n + 1..k + |s|] == buf[k..k + |s|][n + 1..];
  }

  method SkipSeparators(text: string, i: nat) returns (j: nat)
    requires i <= |text|
    ensures i <= j <= |text| && text[j..] == SkipSplits(text[i..])
  {
    j := i;
    while Splits(CharAt(text, j)) && CharAt(text, j) != NUL
      invariant i <= j <= |text| && SkipSplits(text[j..]) == SkipSplits(text[i..])
      decreases |text| - j
    {
      SuffixStep(text, j);
      j := j + 1;
    }
    if j < |text| { SuffixStep(text, j); }
  }

  method ScanHost(text: string, i: nat) returns (j: nat)
    requires i <= |text|
    ensures i <= j <= |text| && j - i == HostLen(text[i..])
  {
    j := i;
    while CharAt(text, j) != SEPARATOR && !IsSpace(CharAt(text, j)) && CharAt(text, j) != NUL
      invariant i <= j <= |text| && HostLen(text[i..]) == j - i + HostLen(text[j..])
      decreases |text| - j
    {
      SuffixStep(text, j);
      j := j + 1;
    }
    if j < |text| { SuffixStep(text, j); }
  }

  /** The next name in s, or nothing where there is none or it is longer than the buffer of a name. */
  function Popped(s: string): (h: string)
    ensures |h| <= |s|
  {
    var p := SkipSplits(s);
    var n := HostLen(p);
    if 0 < n <= MAXHOSTNAMELEN then p[..n] else ""
  }

  /** What follows the next name in s. */
  function AfterName(s: string): string {
    var p := SkipSplits(s);
    p[HostLen(p)..]
  }

  /** Copy a string and its end into the buffer. */
  method CopyString(h: string, buf: array<char>, at: nat)
    requires at + |h| < buf.Length && NUL !in h
    modifies buf
    ensures StringAt(buf[..], at, h) && buf[..at] == old(buf[..at])
  {
    forall k | 0 <= k < |h| { buf[at + k] := h[k]; }
    buf[at + |h|] := NUL;
    assert buf[at..at + |h|] == h;
  }

  /**
   * Pop the next name into the buffer at an index: the name unless it is far too long, its length or -1, and where
   * it ends.
   */
  method PopHost(text: string, i: nat, buf: array<char>, at: nat) returns (length: int, j: nat)
    requires i <= |text| && at + |Popped(text[i..])| < buf.Length
    modifies buf
    ensures i <= j <= |text| && text[j..] == AfterName(text[i..])
    ensures var n := HostLen(SkipSplits(text[i..])); length == if n >= MAXHOSTNAMELEN then -1 else n
    ensures StringAt(buf[..], at, Popped(text[i..])) && buf[..at] == old(buf[..at])
  {
    CopyString("", buf, at);
    var start := SkipSeparators(text, i);
    j := ScanHost(text, start);
    length := j - start;
    PoppedText(text, i, start, j);
    if 0 < length <= MAXHOSTNAMELEN {
      CopyString(text[start..j], buf, at);
    }
    if length >= MAXHOSTNAMELEN {
      length := -1;
    }
  }

  lemma PoppedText(text: string, i: nat, start: nat, j: nat)
    requires i <= |text| && start <= j <= |text| && text[start..] == SkipSplits(text[i..])
             && j - start == HostLen(text[start..])
    ensures text[j..] == AfterName(text[i..]) && NUL !in text[start..j]
    ensures Popped(text[i..]) == if 0 < j - start <= MAXHOSTNAMELEN then text[start..j] else ""
  {
    HostPlain(text[start..]);
    assert text[start..][j - start..] == text[j..] && text[start..][..j - start] == text[start..j];
  }

  function FirstSeparator(s: string): (k: nat)
    ensures k <= |s| && (k < |s| ==> s[k] == SEPARATOR) && SEPARATOR !in s[..k]
  {
    if s == "" || s[0] == SEPARATOR then 0
    else
      var k := FirstSeparator(s[1..]);
      assert s[..k + 1] == [s[0]] + s[1..][..k];
      1 + k
  }

  /** The items of a list between its separators. */
  function Items(s: string): (r: seq<string>)
    ensures r != []
    decreases |s|
  {
    var k := FirstSeparator(s);
    if k == |s| then [s] else [s[..k]] + Items(s[k + 1..])
  }

  method FindSeparator(s: string, i: nat) returns (k: nat)
    requires i <= |s|
    ensures i <= k <= |s| && k - i == FirstSeparator(s[i..])
  {
    k := i;
    while k < |s| && s[k] != SEPARATOR
      invariant i <= k <= |s| && FirstSeparator(s[i..]) == k - i + FirstSeparator(s[k..])
    {
      SuffixStep(s, k);
      k := k + 1;
    }
  }

  /** The items from an item on. */
  method NextItem(list: string, current: nat) returns (item: string, sep: nat)
    requires current <= |list|
    ensures current <= sep <= |list| && item == list[current..sep]
    ensures sep == |list| ==> Items(list[current..]) == [item]
    ensures sep < |list| ==> Items(list[current..]) == [item] + Items(list[sep + 1..])
  {
    sep := FindSeparator(list, current);
    item := list[current..sep];
    ghost var s := list[current..];
    assert s[..sep - current] == item;
    if sep < |list| {
      assert s[sep - current + 1..] == list[sep + 1..];
    } else {
      assert s == item;
    }
  }

  predicate Among(items: seq<string>, name: string, num: nat) {
    num > 0 && items != [] && (items[0] == name || Among(items[1..], name, num - 1))
  }

  /** Whether a name is among the first num items of a list. */
  method HostExists(list: string, name: string, num: nat) returns (found: bool)
    ensures found == Among(Items(list), name, num)
  {
    var current, i := 0, 0;
    ghost var all, rest := Items(list), Items(list);
    assert list[0..] == list;
    while i < num
      invariant 0 <= i <= num && current <= |list| && rest == Items(list[current..])
      invariant Among(all, name, num) == Among(rest, name, num - i)
    {
      var item, sep := NextItem(list, current);
      if sep == |list| {
        AmongLast(item, name, num - i);
        return item == name;
      }
      rest := Items(list[sep + 1..]);
      AmongRest(item, rest, name, num - i);
      if item == name {
        return true;
      }
      i := i + 1;
      current := sep + 1;
    }
    return false;
  }

  lemma AmongLast(item: string, name: string, num: nat)
    requires num > 0
    ensures Among([item], name, num) == (item == name)
  {
    assert [item][1..] == [];
  }

  lemma AmongRest(first: string, rest: seq<string>, name: string, num: nat)
    requires num > 0
    ensures Among([first] + rest, name, num) == (first == name || Among(rest, name, num - 1))
  {
    assert ([first] + rest)[1..] == rest;
  }

  lemma {:induction false} AmongAll(hs: seq<string>, more: seq<string>, name: string)
    ensures Among(hs + more, name, |hs|) <==> name in hs
    decreases |hs|
  {
    if hs == [] {
    } else {
      assert (hs + more)[1..] == hs[1..] + more;
      AmongAll(hs[1..], more, name);
      assert name in hs <==> hs[0] == name || name in hs[1..];
    }
  }

  /** The buffer holding these names, each followed by a separator. */
  ghost function Listed(hs: seq<string>): string {
    if hs == [] then "" else Listed(hs[..|hs| - 1]) + (hs[|hs| - 1] + [SEPARATOR])
  }

  ghost predicate Plain(hs: seq<string>) {
    forall i :: 0 <= i < |hs| ==> hs[i] != "" && SEPARATOR !in hs[i] && NUL !in hs[i]
  }

  lemma {:induction false} FirstSeparatorAfter(h: string, rest: string)
    requires SEPARATOR !in h && (rest == "" || rest[0] == SEPARATOR)
    ensures FirstSeparator(h + rest) == |h|
  {
    if h == "" {
      assert h + rest == rest;
    } else {
      assert (h + rest)[1..] == h[1..] + rest;
      FirstSeparatorAfter(h[1..], rest);
    }
  }

  lemma ItemsFirst(h: string, rest: string)
    requires SEPARATOR !in h
    ensures Items(h + [SEPARATOR] + rest) == [h] + Items(rest) && Items(h) == [h]
  {
    var s := h + [SEPARATOR] + rest;
    assert s == h + ([SEPARATOR] + rest) && h + "" == h;
    FirstSeparatorAfter(h, [SEPARATOR] + rest);
    FirstSeparatorAfter(h, "");
    assert s[..|h|] == h && s[|h| + 1..] == rest;
  }

  lemma {:induction false} ItemsListed(hs: seq<string>, tail: string)
    requires Plain(hs)
    ensures Items(Listed(hs) + tail) == hs + Items(tail)
    decreases |hs|
  {
    if hs == [] {
      assert "" + tail == tail;
      assert hs + Items(tail) == Items(tail);
    } else {
      var front, last := hs[..|hs| - 1], hs[|hs| - 1];
      Associative(Listed(front), last + [SEPARATOR], tail);
      ItemsListed(front, last + [SEPARATOR] + tail);
      ItemsFirst(last, tail);
      Associative(front, [last], Items(tail));
      assert front + [last] == hs;
    }
  }

  /** A name is found in the buffer exactly when it is one of those held. */
  lemma FoundListed(hs: seq<string>, name: string)
    requires Plain(hs)
    ensures Among(Items(Listed(hs) + name), name, |hs|) <==> name in hs
  {
    ItemsListed(hs, name);
    AmongAll(hs, Items(name), name);
  }

  lemma ListedAppend(hs: seq<string>, h: string)
    ensures Listed(hs + [h]) == Listed(hs) + h + [SEPARATOR]
  {
    assert (hs + [h])[..|hs|] == hs;
  }

  /** A name holds no separator and no NUL. */
  lemma {:induction false} HostPlain(s: string)
    ensures SEPARATOR !in s[..HostLen(s)] && NUL !in s[..HostLen(s)]
    decreases |s|
  {
    if HostLen(s) == 0 {
      assert s[..0] == "";
    } else {
      HostPlain(s[1..]);
      assert s[..HostLen(s)] == [s[0]] + s[1..][..HostLen(s[1..])];
    }
  }

  /** The names after the next one are added. */
  lemma AddNewStep(hs: seq<string>, s: string)
    requires !Ended(s)
    ensures var h := Popped(s);
            AddNew(hs, Names(s)) ==
              AddNew(if 0 < |h| < MAXHOSTNAMELEN && h !in hs then hs + [h] else hs, Names(AfterName(s)))
  {
    var p := SkipSplits(s);
    var n := HostLen(p);
    var rest := Names(p[n..]);
    if 0 < n < MAXHOSTNAMELEN {
      assert ([p[..n]] + rest)[1..] == rest;
    } else {
      assert [] + rest == rest;
    }
  }

  // ---- the names fit into the buffer ----

  /** Between names stands a separator, or the end. */
  predicate Stopped(s: string) {
    Ended(s) || Splits(s[0])
  }

  lemma {:induction false} HostStops(s: string)
    ensures HostLen(s) + StrLen(s[HostLen(s)..]) == StrLen(s) && Stopped(s[HostLen(s)..])
    decreases |s|
  {
    if HostLen(s) == 0 {
      assert s[0..] == s;
    } else {
      HostStops(s[1..]);
      assert s[HostLen(s)..] == s[1..][HostLen(s[1..])..];
    }
  }

  lemma {:induction false} SkipShortens(s: string)
    ensures StrLen(SkipSplits(s)) <= StrLen(s)
    ensures !Ended(s) && Splits(s[0]) ==> StrLen(SkipSplits(s)) < StrLen(s)
    decreases |s|
  {
    if !Ended(s) && Splits(s[0]) {
      SkipShortens(s[1..]);
    } else {
      assert SkipSplits(s) == s;
    }
  }

  /** A name and, after another name, a separator before it are taken off the string. */
  lemma PoppedShortens(s: string, later: bool)
    requires later ==> Stopped(s)
    ensures |Popped(s)| + StrLen(AfterName(s)) <= StrLen(s) && Stopped(AfterName(s))
    ensures later && Popped(s) != "" ==> |Popped(s)| + 1 + StrLen(AfterName(s)) <= StrLen(s)
    ensures !Ended(s) ==> |AfterName(s)| < |s|
  {
    var p := SkipSplits(s);
    SkipShortens(s);
    HostStops(p);
  }

  /**
   * There is room for the rest of a text: from index at on the buffer takes what is left of it, and the separator
   * after a first name.
   */
  ghost predicate Roomy(size: nat, at: nat, rest: string, later: bool) {
    at + StrLen(rest) + (if later then 0 else 1) < size && (later ==> Stopped(rest))
  }

  lemma RoomAfter(size: nat, at: nat, s: string, later: bool)
    requires Roomy(size, at, s, later)
    ensures at + |Popped(s)| < size
    ensures Roomy(size, at, AfterName(s), true)
    ensures Popped(s) != "" ==> Roomy(size, at + |Popped(s)| + 1, AfterName(s), true)
  {
    PoppedShortens(s, later);
  }

  // ---- building the list ----

  /** The buffer holds these names up to index at, and a string ends somewhere behind. */
  ghost predicate Holds(buf: seq<char>, at: nat, hs: seq<string>) {
    && Plain(hs) && at < |buf| && buf[..at] == Listed(hs)
    && exists k :: at <= k < |buf| && buf[k] == NUL
  }

  /** With one more name at the end, the items of the buffer are the names and that one. */
  lemma ItemsWith(hs: seq<string>, h: string)
    requires Plain(hs) && SEPARATOR !in h
    ensures Items(Listed(hs) + h) == hs + [h]
  {
    ItemsListed(hs, h);
    ItemsFirst(h, "");
  }

  /** Without its last separator, the items of the buffer are the names. */
  lemma ItemsWithout(hs: seq<string>)
    requires Plain(hs) && hs != []
    ensures Listed(hs) != "" && Listed(hs)[|Listed(hs)| - 1] == SEPARATOR && Items(Listed(hs)[..|Listed(hs)| - 1]) == hs
  {
    var front, last := hs[..|hs| - 1], hs[|hs| - 1];
    assert Listed(hs) == Listed(front) + last + [SEPARATOR];
    assert Listed(hs)[..|Listed(hs)| - 1] == Listed(front) + last;
    ItemsWith(front, last);
    assert front + [last] == hs;
  }


  lemma {:induction false} ListedHasNoNul(hs: seq<string>)
    requires Plain(hs)
    ensures NUL !in Listed(hs)
    decreases |hs|
  {
    if hs == [] {
      assert Listed(hs) == "";
    } else {
      ListedHasNoNul(hs[..|hs| - 1]);
    }
  }

  /** Read the string at an index up to its end. */
  method ReadString(buf: array<char>, k: nat, ghost e: nat) returns (s: string)
    requires k <= e < buf.Length && buf[e] == NUL
    ensures StringAt(buf[..], k, s)
  {
    var i := k;
    while buf[i] != NUL
      invariant k <= i <= e && NUL !in buf[k..i]
      decreases e - i
    {
      assert buf[k..i + 1] == buf[k..i] + [buf[i]];
      i := i + 1;
    }
    s := buf[k..i];
  }

  lemma NotLonger(buf: seq<char>, k: int, s: string, t: string)
    requires StringAt(buf, k, s) && StringAt(buf, k, t)
    ensures |t| <= |s|
  {
    assert forall i :: 0 <= i < |t| ==> t[i] == buf[k + i];
  }

  lemma SameString(buf: seq<char>, k: int, s: string, t: string)
    requires StringAt(buf, k, s) && StringAt(buf, k, t)
    ensures s == t
  {
    NotLonger(buf, k, s, t);
    NotLonger(buf, k, t, s);
  }

  lemma StringAfter(buf: seq<char>, at: nat, hs: seq<string>, h: string)
    requires Plain(hs) && at <= |buf| && buf[..at] == Listed(hs) && StringAt(buf, at, h)
    ensures StringAt(buf, 0, Listed(hs) + h)
  {
    ListedHasNoNul(hs);
    assert buf[0..at + |h|] == buf[..at] + buf[at..at + |h|];
  }

  /** Whether the name popped behind these names is one of them. */
  method Known(buf: array<char>, at: nat, count: nat, ghost hs: seq<string>, ghost h: string) returns (found: bool)
    requires Plain(hs) && at <= buf.Length && buf[..at] == Listed(hs) && StringAt(buf[..], at, h) && count == |hs|
    ensures found <==> h in hs
  {
    StringAfter(buf[..], at, hs, h);
    var list := ReadString(buf, 0, at + |h|);
    var name := ReadString(buf, at, at + |h|);
    SameString(buf[..], 0, list, Listed(hs) + h);
    SameString(buf[..], at, name, h);
    FoundListed(hs, h);
    found := HostExists(list, name, count);
  }

  lemma NameKept(buf: seq<char>, at: nat, hs: seq<string>, h: string)
    requires at <= |buf| && buf[..at] == Listed(hs) && StringAt(buf, at, h) && at + |h| + 1 < |buf|
    ensures buf[at + |h| := SEPARATOR][at + |h| + 1 := NUL][..at + |h| + 1] == Listed(hs + [h])
  {
    var n := at + |h|;
    ListedAppend(hs, h);
    assert buf[..n] == buf[..at] + buf[at..n];
  }

  /** Keep the name popped at an index by a separator behind it. */
  method KeepName(buf: array<char>, at: nat, length: nat, ghost hs: seq<string>, ghost h: string) returns (at': nat)
    requires at <= buf.Length && Plain(hs) && buf[..at] == Listed(hs) && StringAt(buf[..], at, h)
    requires length == |h| > 0 && SEPARATOR !in h && at + length + 1 < buf.Length
    modifies buf
    ensures at' == at + length + 1 && Holds(buf[..], at', hs + [h])
  {
    NameKept(buf[..], at, hs, h);
    buf[at + length] := SEPARATOR;
    at' := at + length + 1;
    buf[at'] := NUL;
    assert buf[..] == old(buf[..])[at + length := SEPARATOR][at' := NUL];
  }

  /** Pop the next name of a text, and keep it if it is new. */
  method AddHost(text: string, i: nat, buf: array<char>, at: nat, count: nat, ghost hs: seq<string>, ghost later: bool,
                 ghost limit: nat)
      returns (at': nat, count': nat, j: nat, ghost hs': seq<string>)
    requires i < |text| && text[i] != NUL && Holds(buf[..], at, hs) && count == |hs|
    requires limit <= buf.Length && Roomy(limit, at, text[i..], later)
    modifies buf
    ensures i < j <= |text| && Roomy(limit, at', text[j..], true)
    ensures Holds(buf[..], at', hs') && count' == |hs'|
    ensures AddNew(hs', Names(text[j..])) == AddNew(hs, Names(text[i..]))
  {
    ghost var s, h := text[i..], Popped(text[i..]);
    SuffixStep(text, i);
    RoomAfter(limit, at, s, later);
    PoppedShortens(s, later);
    AddNewStep(hs, s);
    at', count', hs' := at, count, hs;
    var length;
    length, j := PopHost(text, i, buf, at);
    assert buf[at + |h|] == NUL;
    if length > 0 {
      HostPlain(SkipSplits(s));
      var found := Known(buf, at, count, hs, h);
      if !found {
        at' := KeepName(buf, at, length, hs, h);
        count', hs' := count + 1, hs + [h];
      } else {
        buf[at] := NUL;
      }
    }
  }

  /** Add the names of a text to the buffer. */
  method AddHosts(text: string, buf: array<char>, at: nat, count: nat, ghost hs: seq<string>)
      returns (at': nat, count': nat)
    requires Holds(buf[..], at, hs) && count == |hs| && at + StrLen(text) + 1 < buf.Length
    modifies buf
    ensures at' <= at + StrLen(text) + 1
    ensures var all := AddNew(hs, Names(text)); Holds(buf[..], at', all) && count' == |all|
  {
    at', count' := at, count;
    ghost var now, later, limit := hs, false, at + StrLen(text) + 2;
    var i := 0;
    assert text[0..] == text;
    while CharAt(text, i) != NUL
      invariant 0 <= i <= |text| && Holds(buf[..], at', now) && count' == |now|
      invariant Roomy(limit, at', text[i..], later)
      invariant AddNew(now, Names(text[i..])) == AddNew(hs, Names(text))
      decreases |text| - i
    {
      at', count', i, now := AddHost(text, i, buf, at', count', now, later, limit);
      later := true;
    }
    if i < |text| { SuffixStep(text, i); }
  }

  /** Behind the names of a buffer, the local host is found exactly when it is one of them. */
  method KnownLocal(buf: array<char>, at: nat, count: nat, ghost hs: seq<string>) returns (found: bool)
    requires Holds(buf[..], at, hs) && count == |hs|
    ensures found <==> "localhost" in hs
  {
    ghost var e :| at <= e < buf.Length && buf[e] == NUL;
    var list := ReadString(buf, 0, e);
    ghost var rest := NamesFirstInString(buf[..], at, hs, list);
    ItemsListed(hs, rest);
    AmongAll(hs, Items(rest), "localhost");
    found := HostExists(list, "localhost", count);
  }

  /** The string in the buffer starts with the names. */
  lemma NamesFirstInString(buf: seq<char>, at: nat, hs: seq<string>, list: string) returns (rest: string)
    requires Plain(hs) && at <= |buf| && buf[..at] == Listed(hs) && StringAt(buf, 0, list)
    ensures list == Listed(hs) + rest
  {
    ListedHasNoNul(hs);
    assert forall i :: 0 <= i < at ==> buf[i] == Listed(hs)[i];
    rest := list[at..];
    assert list[..at] == buf[..at];
  }

  /** Put the local host behind the names if it is not one of them. */
  method AddLocalHost(buf: array<char>, at: nat, count: nat, ghost hs: seq<string>) returns (at': nat, count': nat)
    requires Holds(buf[..], at, hs) && count == |hs| && at + |"localhost"| < buf.Length
    modifies buf
    ensures count' == |AddNew(hs, ["localhost"])|
    ensures "localhost" in hs ==> at' == at && Holds(buf[..], at, hs)
    ensures "localhost" !in hs ==>
              at' == at + |"localhost"| && buf[..at] == Listed(hs) && StringAt(buf[..], at, "localhost")
  {
    at', count' := at, count;
    assert ["localhost"][1..] == [];
    var found := KnownLocal(buf, at, count, hs);
    if !found {
      CopyString("localhost", buf, at);
      at', count' := at + |"localhost"|, count + 1;
    }
  }

  /** The buffer holds these names up to index at, with the local host last if it was added. */
  ghost predicate Filled(buf: seq<char>, at: nat, hs: seq<string>, added: bool) {
    if added then
      && Plain(hs) && |"localhost"| <= at <= |buf| && buf[..at - |"localhost"|] == Listed(hs)
      && StringAt(buf, at - |"localhost"|, "localhost")
    else Holds(buf, at, hs)
  }

  /** Without the last separator, the string in the buffer has the names as its items. */
  lemma SeparatorDropped(buf: seq<char>, at: nat, hs: seq<string>) returns (data: string)
    requires Holds(buf, at, hs) && hs != []
    ensures at > 0 && buf[at - 1] == SEPARATOR && StringAt(buf[at - 1 := NUL], 0, data) && Items(data) == hs
  {
    ItemsWithout(hs);
    ListedHasNoNul(hs);
    data := Listed(hs)[..at - 1];
    assert buf[at - 1] == buf[..at][at - 1];
    assert buf[at - 1 := NUL][0..at - 1] == data;
  }

  lemma NameLast(buf: seq<char>, at: nat, hs: seq<string>, h: string) returns (data: string)
    requires h != "" && SEPARATOR !in h && Plain(hs) && |h| <= at <= |buf|
    requires buf[..at - |h|] == Listed(hs) && StringAt(buf, at - |h|, h)
    ensures buf[at - 1] != SEPARATOR && StringAt(buf, 0, data) && Items(data) == hs + [h]
  {
    data := Listed(hs) + h;
    StringAfter(buf, at - |h|, hs, h);
    ItemsWith(hs, h);
    CharOf(buf, at - |h|, h, |h| - 1);
  }

  lemma LocalHostLast(buf: seq<char>, at: nat, hs: seq<string>) returns (data: string)
    requires Filled(buf, at, hs, true)
    ensures at > 0 && buf[at - 1] != SEPARATOR && StringAt(buf, 0, data) && Items(data) == hs + ["localhost"]
  {
    data := NameLast(buf, at, hs, "localhost");
  }

  /** Step back and remove the last separator. With nothing in the buffer the step leads before it. */
  method RemoveLast(buf: array<char>, at: nat, ghost hs: seq<string>, ghost added: bool)
      returns (inside: bool, ghost data: string)
    requires Filled(buf[..], at, hs, added)
    modifies buf
    ensures inside <==> hs != [] || added
    ensures inside ==> StringAt(buf[..], 0, data) && Items(data) == if added then hs + ["localhost"] else hs
  {
    data := "";
    if at == 0 {
      if hs != [] { ItemsWithout(hs); }
      return false, data;
    }
    if added {
      data := LocalHostLast(buf[..], at, hs);
    } else {
      data := SeparatorDropped(buf[..], at, hs);
    }
    if buf[at - 1] == SEPARATOR {
      buf[at - 1] := NUL;
    }
    inside := true;
  }

  /** Add the local host if wanted, and remove the last separator. */
  method CloseList(buf: array<char>, at: nat, count: nat, includeLocal: bool, ghost hs: seq<string>)
      returns (inside: bool, count': nat, ghost data: string)
    requires Holds(buf[..], at, hs) && count == |hs| && (includeLocal ==> at + |"localhost"| < buf.Length)
    modifies buf
    ensures var all := AddNew(hs, if includeLocal then ["localhost"] else []);
            && count' == |all| && (inside <==> all != [])
            && (inside ==> StringAt(buf[..], 0, data) && Items(data) == all)
  {
    var end := at;
    count' := count;
    assert ["localhost"][1..] == [];
    if includeLocal {
      end, count' := AddLocalHost(buf, at, count, hs);
    }
    inside, data := RemoveLast(buf, end, hs, includeLocal && "localhost" !in hs);
  }

  /** How much of the buffer a list takes. */
  function Extent(text: string): nat {
    if Ended(text) then 0 else StrLen(text) + 1
  }

  /** Add the names of a list to the buffer, if there is a list. */
  method AddList(text: string, buf: array<char>, at: nat, count: nat, ghost hs: seq<string>)
      returns (at': nat, count': nat)
    requires Holds(buf[..], at, hs) && count == |hs| && at + Extent(text) < buf.Length
    modifies buf
    ensures at' <= at + Extent(text)
    ensures var all := AddNew(hs, Names(text)); Holds(buf[..], at', all) && count' == |all|
  {
    at', count' := at, count;
    if !Ended(text) {
      at', count' := AddHosts(text, buf, at, count, hs);
    }
  }

  /**
   * The host list and its length, or nothing when there is no list at all. With a list but no name in it, and no
   * local host, the last step leads before the buffer.
   */
  method CreateHostList(primary: string, configured: string, includeLocal: bool)
      returns (r: Built<array<char>>, count: nat, ghost data: string)
    ensures r.BeforeBuffer? <==> StepsBefore(primary, configured, includeLocal)
    ensures r.Nothing? <==> Ended(primary) && Ended(configured) && !includeLocal
    ensures count == |Hosts(primary, configured, includeLocal)|
    ensures r.Made? ==>
              fresh(r.value) && StringAt(r.value[..], 0, data)
              && Items(data) == Hosts(primary, configured, includeLocal)
    ensures r.Made? ==>
              r.value.Length == (if includeLocal then 10 else 0) + (if Ended(primary) then 0 else StrLen(primary) + 1)
                                + (if Ended(configured) then 0 else StrLen(configured) + 1) + 1
  {
    NoHosts(primary, configured, includeLocal);
    var length := (if includeLocal then |"localhost"| + 1 else 0) + Extent(primary) + Extent(configured);
    if length == 0 {
      return Nothing, 0, "";
    }
    var buf := new char[length + 1];
    buf[0] := NUL;
    var at;
    at, count := AddList(primary, buf, 0, 0, []);
    ghost var hs := AddNew([], Names(primary));
    at, count := AddList(configured, buf, at, count, hs);
    var inside;
    inside, count, data := CloseList(buf, at, count, includeLocal, AddNew(hs, Names(configured)));
    r := if inside then Made(buf) else BeforeBuffer;
  }

  /** The items stand as strings of their own at these indices, all before index current. */
  ghost predicate SplitUp(buf: seq<char>, starts: seq<nat>, items: seq<string>, current: nat) {
    && |starts| == |items|
    && forall i {:trigger starts[i]} :: 0 <= i < |starts| ==>
         StringAt(buf, starts[i], items[i]) && starts[i] + |items[i]| < current
  }

  /** Find the separator after an item, or the end of the string. */
  method FindSeparatorAt(buf: array<char>, current: nat, ghost rest: string) returns (sep: nat)
    requires StringAt(buf[..], current, rest)
    ensures sep == current + FirstSeparator(rest)
  {
    sep := current;
    assert rest[0..] == rest;
    while buf[sep] != NUL && buf[sep] != SEPARATOR
      invariant current <= sep <= current + |rest|
      invariant FirstSeparator(rest) == sep - current + FirstSeparator(rest[sep - current..])
      decreases current + |rest| - sep
    {
      CharOf(buf[..], current, rest, sep - current);
      SuffixStep(rest, sep - current);
      sep := sep + 1;
    }
    if sep < current + |rest| {
      CharOf(buf[..], current, rest, sep - current);
      SuffixStep(rest, sep - current);
    }
  }

  /** The first item of the rest, and what follows it. */
  ghost predicate Cut(rest: string, first: string, more: string) {
    FirstSeparator(rest) < |rest| && first == rest[..FirstSeparator(rest)] && more == rest[FirstSeparator(rest) + 1..]
  }

  /** Ending the item at its separator leaves the items before it, and the rest behind it. */
  lemma EndItem(buf: seq<char>, starts: seq<nat>, items: seq<string>, current: nat, rest: string,
                after: seq<char>, first: string, more: string)
    requires SplitUp(buf, starts, items, current) && StringAt(buf, current, rest) && Cut(rest, first, more)
    requires after == buf[current + |first| := NUL]
    ensures SplitUp(after, starts + [current], items + [first], current + |first| + 1)
    ensures StringAt(after, current + |first| + 1, more)
  {
    CutString(buf, current, rest, |first|);
    forall i | 0 <= i < |starts| ensures StringAt(after, starts[i], items[i]) {
      WriteElsewhere(buf, starts[i], items[i], current + |first|, NUL);
    }
    LastItem(after, starts, items, current, first);
  }

  lemma LastItem(buf: seq<char>, starts: seq<nat>, items: seq<string>, current: nat, rest: string)
    requires SplitUp(buf, starts, items, current) && StringAt(buf, current, rest)
    ensures SplitUp(buf, starts + [current], items + [rest], current + |rest| + 1)
  {
  }

  /** The items so far and those of the rest are all. */
  ghost predicate Splitting(buf: seq<char>, starts: seq<nat>, items: seq<string>, current: nat, rest: string,
                            all: seq<string>)
  {
    SplitUp(buf, starts, items, current) && StringAt(buf, current, rest) && items + Items(rest) == all
  }

  lemma SplitLast(buf: seq<char>, starts: seq<nat>, items: seq<string>, current: nat, rest: string, all: seq<string>)
    requires Splitting(buf, starts, items, current, rest, all) && FirstSeparator(rest) == |rest|
    ensures SplitUp(buf, starts + [current], all, current + |rest| + 1)
  {
    LastItem(buf, starts, items, current, rest);
  }

  lemma SplitNext(buf: seq<char>, starts: seq<nat>, items: seq<string>, current: nat, rest: string, all: seq<string>,
                  after: seq<char>, first: string, more: string)
    requires Splitting(buf, starts, items, current, rest, all) && Cut(rest, first, more)
    requires after == buf[current + |first| := NUL]
    ensures Splitting(after, starts + [current], items + [first], current + |first| + 1, more, all)
  {
    EndItem(buf, starts, items, current, rest, after, first, more);
    assert Items(rest) == [first] + Items(more);
    Associative(items, [first], Items(more));
  }

  /** End every item of the list in the buffer by a NUL, and find where each starts. */
  method SplitHosts(buf: array<char>, count: nat, ghost data: string) returns (starts: seq<nat>, ghost end: nat)
    requires StringAt(buf[..], 0, data) && |Items(data)| == count
    modifies buf
    ensures SplitUp(buf[..], starts, Items(data), end)
  {
    starts := [];
    var current, i := 0, 0;
    ghost var items: seq<string>, rest, all := [], data, Items(data);
    assert [] + all == all;
    while i < count
      invariant 0 <= i <= count && |starts| == i && Splitting(buf[..], starts, items, current, rest, all)
    {
      var sep := FindSeparatorAt(buf, current, rest);
      ghost var before, n := buf[..], FirstSeparator(rest);
      SeparatorIn(before, current, rest, n);
      if buf[sep] == NUL {
        SplitLast(before, starts, items, current, rest, all);
        starts, end := starts + [current], current + |rest| + 1;
        return;
      }
      buf[sep] := NUL;
      ghost var first, more := rest[..n], rest[n + 1..];
      SplitNext(before, starts, items, current, rest, all, buf[..], first, more);
      starts, items, rest := starts + [current], items + [first], more;
      current := sep + 1;
      i := i + 1;
    }
  }

  lemma SeparatorIn(buf: seq<char>, current: nat, rest: string, n: nat)
    requires StringAt(buf, current, rest) && n <= |rest| && (n < |rest| ==> rest[n] == SEPARATOR)
    ensures buf[current + n] == if n == |rest| then NUL else SEPARATOR
  {
    if n < |rest| { CharOf(buf, current, rest, n); }
  }

  /** Read the strings that start at these indices. */
  method ReadStrings(buf: array<char>, starts: seq<nat>, ghost items: seq<string>, ghost end: nat)
      returns (hosts: seq<string>)
    requires SplitUp(buf[..], starts, items, end)
    ensures hosts == items
  {
    hosts := [];
    var i := 0;
    while i < |starts|
      invariant 0 <= i <= |starts| && hosts == items[..i]
    {
      var h := ReadString(buf, starts[i], starts[i] + |items[i]|);
      SameString(buf[..], starts[i], h, items[i]);
      hosts := hosts + [h];
      i := i + 1;
    }
  }

  /** The hosts of a list as an array, or nothing when there is no list; or the builder went before its buffer. */
  method GetHosts(primary: string, configured: string, includeLocal: bool) returns (r: Built<seq<string>>)
    ensures r.BeforeBuffer? <==> StepsBefore(primary, configured, includeLocal)
    ensures !r.BeforeBuffer? ==>
            r == var hs := Hosts(primary, configured, includeLocal); if hs == [] then Nothing else Made(hs)
  {
    NoHosts(primary, configured, includeLocal);
    var list, count;
    ghost var data;
    list, count, data := CreateHostList(primary, configured, includeLocal);
    if list.BeforeBuffer? {
      return BeforeBuffer;
    }
    if count == 0 || list.Nothing? {
      return Nothing;
    }
    var starts;
    ghost var end;
    starts, end := SplitHosts(list.value, count, data);
    var hosts := ReadStrings(list.value, starts, Items(data), end);
    r := Made(hosts);
  }
}
