/** Scanning and printing the database directory, and that it does what the text says. */
module DirectoryFile {
  import opened Common
  import opened DirectoryRows
  import opened DirectoryText
  import opened HostNames
  import HostList

  method NextChar(text: string, i: nat) returns (p: nat)
    requires i <= |text|
    ensures i <= p <= |text| && text[p..] == SkipSpaces(text[i..])
  {
    p := i;
    while IsSpace(CharAt(text, p)) && CharAt(text, p) != NUL
      invariant i <= p <= |text| && SkipSpaces(text[p..]) == SkipSpaces(text[i..])
      decreases |text| - p
    {
      SuffixStep(text, p);
      p := p + 1;
    }
    if p < |text| { SuffixStep(text, p); }
  }

  method NextLineAt(text: string, i: nat) returns (p: nat)
    requires i <= |text|
    ensures i <= p <= |text| && text[p..] == NextLine(text[i..])
  {
    p := i;
    while !IsEol(CharAt(text, p)) && CharAt(text, p) != NUL
      invariant i <= p <= |text| && SkipLine(text[p..]) == SkipLine(text[i..])
      decreases |text| - p
    {
      SuffixStep(text, p);
      p := p + 1;
    }
    if p < |text| { SuffixStep(text, p); }
    ghost var line := p;
    while IsEol(CharAt(text, p)) && CharAt(text, p) != NUL
      invariant line <= p <= |text| && SkipEols(text[p..]) == SkipEols(text[line..])
      decreases |text| - p
    {
      SuffixStep(text, p);
      p := p + 1;
    }
    if p < |text| { SuffixStep(text, p); }
  }

  method SkipBlanksAt(text: string, i: nat) returns (p: nat)
    requires i <= |text|
    ensures i <= p <= |text| && text[p..] == SkipBlanks(text[i..])
  {
    p := i;
    while IsSpace(CharAt(text, p)) && !IsEol(CharAt(text, p)) && CharAt(text, p) != NUL
      invariant i <= p <= |text| && SkipBlanks(text[p..]) == SkipBlanks(text[i..])
      decreases |text| - p
    {
      SuffixStep(text, p);
      p := p + 1;
    }
    if p < |text| { SuffixStep(text, p); }
  }

  method TokenEnd(text: string, i: nat) returns (end: nat)
    requires i <= |text|
    ensures i <= end <= |text| && end - i == TokenLen(text[i..])
  {
    end := i;
    while !IsSpace(CharAt(text, end)) && CharAt(text, end) != NUL
      invariant i <= end <= |text| && TokenLen(text[i..]) == end - i + TokenLen(text[end..])
      decreases |text| - end
    {
      SuffixStep(text, end);
      end := end + 1;
    }
    if end < |text| { SuffixStep(text, end); }
  }

  /** Pop the next token of the line. */
  method PopLineToken(text: string, i: nat) returns (token: Option<string>, end: nat)
    requires i <= |text|
    ensures i <= end <= |text| && (token, text[end..]) == LineToken(text[i..])
  {
    if IsEol(CharAt(text, i)) {
      SuffixStep(text, i);
      return None, i;
    }
    var p := SkipBlanksAt(text, i);
    end := TokenEnd(text, p);
    assert text[p..][..end - p] == text[p..end] && text[p..][end - p..] == text[end..];
    token := if end > p then Some(text[p..end]) else None;
  }

  /** Read the entry at an index. */
  method ReadEntryAt(text: string, i: nat, configured: string) returns (d: Reading, end: nat)
    requires i <= |text|
    ensures i <= end <= |text| && (d, text[end..]) == Entry(text[i..], configured)
  {
    var name, path, primary, log, lob;
    name, end := PopLineToken(text, i);
    path, end := PopLineToken(text, end);
    primary, end := PopLineToken(text, end);
    var hosts := HostList.GetHosts(OrEmpty(primary), configured, false);
    log, end := PopLineToken(text, end);
    lob, end := PopLineToken(text, end);
    NoHosts(OrEmpty(primary), configured, false);
    if hosts.BeforeBuffer? {
      d := OutOfBuffer;
    } else if name.None? || path.None? || hosts.Nothing? || log.None? {
      d := Invalid;
    } else {
      d := Found(Database(name.value, path.value, hosts.value, log, lob));
    }
  }

  /** The databases read so far, and those still to be read. */
  function Before(ds: seq<Database>, rest: Result): Result {
    match rest
    case Ok(more) => Ok(ds + more)
    case failed => failed
  }

  lemma BeforeOneMore(ds: seq<Database>, d: Database, rest: Result)
    ensures Before(ds, Before([d], rest)) == Before(ds + [d], rest)
  {
    if rest.Ok? { assert ds + ([d] + rest.databases) == ds + [d] + rest.databases; }
  }

  lemma ReadFromEntry(s: string, configured: string)
    requires !Ended(s) && !IsSpace(s[0]) && s[0] != '#' && Entry(s, configured).0.Found?
    ensures var (d, rest) := Entry(s, configured);
            ReadFrom(s, configured) == Before([d.database], ReadFrom(SkipSpaces(NextLine(rest)), configured))
  {
  }

  /** Read the text of a directory. */
  method ReadDirectory(text: string, configured: string) returns (r: Result)
    ensures r == Read(text, configured) == ReadRows(Rows(text), configured)
  {
    ReadByRows(text, configured);
    var databases: seq<Database> := [];
    assert text[0..] == text;
    var i := NextChar(text, 0);
    while CharAt(text, i) != NUL
      invariant i <= |text| && (Ended(text[i..]) || !IsSpace(text[i..][0]))
      invariant Read(text, configured) == Before(databases, ReadFrom(text[i..], configured))
      decreases |text| - i
    {
      var failure;
      failure, databases, i := ReadLine(text, i, configured, databases);
      if failure.Some? {
        return failure.value;
      }
    }
    if i < |text| { SuffixStep(text, i); }
    r := Ok(databases);
    assert databases + [] == databases;
  }

  method ReadLine(text: string, i: nat, configured: string, ds: seq<Database>)
      returns (failure: Option<Result>, ds': seq<Database>, j: nat)
    requires i < |text| && text[i] != NUL && !IsSpace(text[i])
    ensures !Ended(text[i..]) && !IsSpace(text[i..][0])
    ensures failure.None? ==> i < j <= |text| && (Ended(text[j..]) || !IsSpace(text[j..][0]))
    ensures failure.None? ==>
            Before(ds, ReadFrom(text[i..], configured)) == Before(ds', ReadFrom(text[j..], configured))
    ensures failure.Some? ==> !failure.value.Ok? && ReadFrom(text[i..], configured) == failure.value
  {
    SuffixStep(text, i);
    failure, ds', j := None, ds, i;
    if text[i] != '#' {
      var d;
      d, j := ReadEntryAt(text, i, configured);
      EntryProgress(text[i..], configured);
      if !d.Found? {
        return Some(if d == Invalid then InvalidDatabases else BeforeBuffer), ds, j;
      }
      ReadFromEntry(text[i..], configured);
      BeforeOneMore(ds, d.database, ReadFrom(SkipSpaces(NextLine(text[j..])), configured));
      ds' := ds + [d.database];
    }
    j := NextLineAt(text, j);
    j := NextChar(text, j);
  }

  lemma {:induction false} JoinAppend(hs: seq<string>, h: string)
    requires hs != []
    ensures Join(hs + [h]) == Join(hs) + ([SEPARATOR] + h)
    decreases |hs|
  {
    assert (hs + [h])[0] == hs[0] && (hs + [h])[1..] == hs[1..] + [h];
    if |hs| == 1 {
      assert hs[1..] + [h] == [h];
      Associative(hs[0], [SEPARATOR], h);
    } else {
      JoinAppend(hs[1..], h);
      Associative(hs[0] + [SEPARATOR], Join(hs[1..]), [SEPARATOR] + h);
    }
  }

  /** The line buffer holds the text printed so far, or that text was too long for it. */
  ghost predicate Holds(line: array<char>, at: nat, inside: bool, s: string)
    reads line
  {
    (inside <==> |s| < line.Length) && (inside ==> at == |s| && line[..at] == s)
  }

  /** Print a text and its NUL behind what the line buffer holds, unless that leads out of it. */
  method Sprint(line: array<char>, at: nat, inside: bool, ghost s: string, x: string) returns (at': nat, inside': bool)
    requires Holds(line, at, inside, s)
    modifies line
    ensures Holds(line, at', inside', s + x)
  {
    if !inside || at + |x| >= line.Length {
      return at, false;
    }
    var i := 0;
    while i < |x|
      invariant 0 <= i <= |x| && line[..at] == s && line[at..at + i] == x[..i]
    {
      line[at + i] := x[i];
      i := i + 1;
    }
    line[at + i] := NUL;
    at', inside' := at + i, true;
    assert line[..at'] == line[..at] + line[at..at'];
  }

  method WriteHosts(line: array<char>, at: nat, inside: bool, ghost s: string, hosts: seq<string>)
      returns (at': nat, inside': bool)
    requires Holds(line, at, inside, s)
    modifies line
    ensures Holds(line, at', inside', s + HostsField(hosts))
  {
    if hosts == [] {
      at', inside' := Sprint(line, at, inside, s, "localhost");
      return;
    }
    at', inside' := Sprint(line, at, inside, s, hosts[0]);
    assert hosts[..1] == [hosts[0]];
    var i := 1;
    while i < |hosts|
      invariant 1 <= i <= |hosts| && Holds(line, at', inside', s + Join(hosts[..i]))
    {
      JoinAppend(hosts[..i], hosts[i]);
      assert hosts[..i + 1] == hosts[..i] + [hosts[i]];
      Associative(s, Join(hosts[..i]), [SEPARATOR] + hosts[i]);
      at', inside' := Sprint(line, at', inside', s + Join(hosts[..i]), [SEPARATOR] + hosts[i]);
      i := i + 1;
    }
    assert hosts[..i] == hosts;
  }

  method WriteOptional(line: array<char>, at: nat, inside: bool, ghost s: string, field: Option<string>)
      returns (at': nat, inside': bool)
    requires Holds(line, at, inside, s)
    modifies line
    ensures Holds(line, at', inside', s + Optional(field))
  {
    at', inside' := at, inside;
    if field.Some? {
      at', inside' := Sprint(line, at, inside, s, "\t" + field.value);
    } else {
      assert s + "" == s;
    }
  }

  /** Print the line of a database. It stays in the buffer exactly if it is shorter. */
  method WriteLine(line: array<char>, d: Database) returns (text: Option<string>)
    modifies line
    ensures text == if |Line(d)| < line.Length then Some(Line(d)) else None
  {
    var s := d.name + (if |d.name| < 8 then "\t" else "") + "\t" + d.path + "\t";
    var at, inside := 0, 0 < line.Length;
    assert "" + s == s;
    at, inside := Sprint(line, at, inside, "", s);
    at, inside := WriteHosts(line, at, inside, s, d.hosts);
    at, inside := WriteOptional(line, at, inside, s + HostsField(d.hosts), d.log);
    at, inside := WriteOptional(line, at, inside, s + HostsField(d.hosts) + Optional(d.log), d.lob);
    ghost var all := s + HostsField(d.hosts) + Optional(d.log) + Optional(d.lob);
    at, inside := Sprint(line, at, inside, all, "\n");
    assert all + "\n" == Line(d);
    text := if inside then Some(line[..at]) else None;
  }

  lemma {:induction false} LinesAppend(ds: seq<Database>, d: Database)
    ensures Lines(ds + [d]) == Lines(ds) + Line(d)
    decreases |ds|
  {
    if ds == [] {
      assert [] + [d] == [d] && [d][1..] == [];
      assert Line(d) + "" == Line(d) && "" + Line(d) == Line(d);
    } else {
      assert (ds + [d])[0] == ds[0] && (ds + [d])[1..] == ds[1..] + [d];
      LinesAppend(ds[1..], d);
      Associative(Line(ds[0]), Lines(ds[1..]), Line(d));
    }
  }

  lemma LinesStep(head: string, ds: seq<Database>, i: nat)
    requires i < |ds|
    ensures head + Lines(ds[..i]) + Line(ds[i]) == head + Lines(ds[..i + 1])
  {
    LinesAppend(ds[..i], ds[i]);
    assert ds[..i + 1] == ds[..i] + [ds[i]];
    Associative(head, Lines(ds[..i]), Line(ds[i]));
  }

  predicate Fits(d: Database, lineMax: nat) {
    |Line(d)| < lineMax
  }

  ghost predicate AllFit(ds: seq<Database>, lineMax: nat) {
    forall i :: 0 <= i < |ds| ==> Fits(ds[i], lineMax)
  }

  lemma OneMoreFits(ds: seq<Database>, i: nat, lineMax: nat)
    requires i < |ds| && AllFit(ds[..i], lineMax) && Fits(ds[i], lineMax)
    ensures AllFit(ds[..i + 1], lineMax)
  {
    var front, more := ds[..i], ds[..i + 1];
    forall j | 0 <= j < |more| ensures Fits(more[j], lineMax) {
      if j < i { assert more[j] == front[j]; }
    }
  }

  /** The titles and all lines are shorter than the line buffer. */
  ghost predicate LinesFit(ds: seq<Database>, lineMax: nat) {
    |TITLES| + 1 < lineMax && AllFit(ds, lineMax)
  }

  /** Print the next line and write it out. */
  method WriteNext(line: array<char>, head: string, ds: seq<Database>, i: nat, all: string)
    returns (text: Option<string>)
    requires i < |ds| && all == head + Lines(ds[..i])
    modifies line
    ensures text.Some? <==> Fits(ds[i], line.Length)
    ensures text.Some? ==> text.value == head + Lines(ds[..i + 1])
  {
    LinesStep(head, ds, i);
    var next := WriteLine(line, ds[i]);
    text := if next.Some? then Some(all + next.value) else None;
  }

  /** Print the lines one after the other, each in the line buffer. */
  method WriteLines(line: array<char>, head: string, ds: seq<Database>) returns (text: Option<string>)
    modifies line
    ensures text.Some? <==> AllFit(ds, line.Length)
    ensures text.Some? ==> text.value == head + Lines(ds)
  {
    text := Some(head);
    var i := 0;
    assert head + "" == head && ds[..0] == [];
    while i < |ds|
      invariant 0 <= i <= |ds| && text == Some(head + Lines(ds[..i])) && AllFit(ds[..i], line.Length)
    {
      text := WriteNext(line, head, ds, i, text.value);
      if text.None? {
        return;
      }
      OneMoreFits(ds, i, line.Length);
      i := i + 1;
    }
    assert ds[..i] == ds;
  }

  /** Print the titles. */
  method WriteTitles(line: array<char>) returns (text: Option<string>)
    modifies line
    ensures text == if |TITLES| + 1 < line.Length then Some(TITLES + "\n") else None
  {
    var head := TITLES + "\n";
    assert "" + head == head && |head| == |TITLES| + 1;
    var at, inside := Sprint(line, 0, 0 < line.Length, "", head);
    text := if inside then Some(line[..at]) else None;
  }

  /** Write the text of a directory, unless a line leads out of the line buffer. */
  method WriteDirectory(ds: seq<Database>, lineMax: nat) returns (text: Option<string>)
    ensures text.Some? <==> LinesFit(ds, lineMax)
    ensures text.Some? ==> text.value == Text(ds)
  {
    var line := new char[lineMax];
    text := WriteTitles(line);
    if text.Some? {
      text := WriteLines(line, text.value, ds);
    }
  }

  /**
   * Writing a directory and reading it back gives its databases, exactly when all have log paths and all lines fit into
   * the line buffer of the writer.
   */
  method WriteAndRead(ds: seq<Database>, configured: string, lineMax: nat) returns (r: Option<Result>)
    requires AllWellFormed(ds)
    ensures r == Some(Ok(KeptAll(ds, configured))) <==> HaveLogs(ds) && LinesFit(ds, lineMax)
    ensures r.None? <==> !LinesFit(ds, lineMax)
    ensures r != Some(BeforeBuffer)
  {
    var text := WriteDirectory(ds, lineMax);
    if text.None? {
      return None;
    }
    var read := ReadDirectory(text.value, configured);
    ReadBack(ds, configured);
    r := Some(read);
  }
}
