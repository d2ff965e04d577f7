/** The text of the database directory: one line for each database, and how it is read back. */
module DirectoryText {
  import opened Common
  import opened HostNames

  datatype Database = Database(name: string, path: string, hosts: seq<string>, log: Option<string>, lob: Option<string>)

  /** What reading comes to; in the last case the host list of an entry was built before its buffer. */
  datatype Result = Ok(databases: seq<Database>) | InvalidDatabases | BeforeBuffer

  datatype Reading = Found(database: Database) | Invalid | OutOfBuffer

  const TITLES := "#db-name" + ("\tvol-path" + ("\t\tdb-host" + ("\t\tlog-path" + "\t\tlob-base-path")))

  // ---- writing ----

  function Optional(field: Option<string>): string {
    if field.None? then "" else "\t" + field.value
  }

  function HostsField(hosts: seq<string>): string {
    if hosts == [] then "localhost" else Join(hosts)
  }

  function Line(d: Database): string {
    d.name + (if |d.name| < 8 then "\t" else "") + "\t" + d.path + "\t" + HostsField(d.hosts)
    + Optional(d.log) + Optional(d.lob) + "\n"
  }

  function Lines(ds: seq<Database>): string {
    if ds == [] then "" else Line(ds[0]) + Lines(ds[1..])
  }

  function Text(ds: seq<Database>): string {
    TITLES + "\n" + Lines(ds)
  }

  // ---- reading ----

  function SkipSpaces(s: string): (r: string)
    ensures |r| <= |s| && (Ended(r) || !IsSpace(r[0]))
  {
    if !Ended(s) && IsSpace(s[0]) then SkipSpaces(s[1..]) else s
  }

  /** White space up to the end of the line. */
  function SkipBlanks(s: string): (r: string)
    ensures |r| <= |s|
  {
    if !Ended(s) && IsSpace(s[0]) && !IsEol(s[0]) then SkipBlanks(s[1..]) else s
  }

  function TokenLen(s: string): (n: nat)
    ensures n <= |s| && (!Ended(s) && !IsSpace(s[0]) ==> n > 0)
  {
    if Ended(s) || IsSpace(s[0]) then 0 else 1 + TokenLen(s[1..])
  }

  /** The next token on the line, and what follows it. */
  function LineToken(s: string): (r: (Option<string>, string))
    ensures |r.1| <= |s| && (!Ended(s) && !IsSpace(s[0]) ==> |r.1| < |s|)
  {
    if s != "" && IsEol(s[0]) then (None, s)
    else
      var p := SkipBlanks(s);
      var n := TokenLen(p);
      (if n > 0 then Some(p[..n]) else None, p[n..])
  }

  function SkipLine(s: string): (r: string)
    ensures |r| <= |s|
  {
    if !Ended(s) && !IsEol(s[0]) then SkipLine(s[1..]) else s
  }

  function SkipEols(s: string): (r: string)
    ensures |r| <= |s|
  {
    if !Ended(s) && IsEol(s[0]) then SkipEols(s[1..]) else s
  }

  function NextLine(s: string): (r: string)
    ensures |r| <= |s|
  {
    SkipEols(SkipLine(s))
  }

  function OrEmpty(t: Option<string>): string {
    if t.None? then "" else t.value
  }

  /**
   * The entry at the start of s, and what follows it. It is invalid without a name, a path, a host or a log path.
   */
  function Entry(s: string, configured: string): (Reading, string) {
    var (name, s1) := LineToken(s);
    var (path, s2) := LineToken(s1);
    var (primary, s3) := LineToken(s2);
    var hosts := Hosts(OrEmpty(primary), configured, false);
    var (log, s4) := LineToken(s3);
    var (lob, s5) := LineToken(s4);
    if StepsBefore(OrEmpty(primary), configured, false) then (OutOfBuffer, s5)
    else if name.None? || path.None? || hosts == [] || log.None? then (Invalid, s5)
    else (Found(Database(name.value, path.value, hosts, log, lob)), s5)
  }

  lemma EntryProgress(s: string, configured: string)
    requires !Ended(s) && !IsSpace(s[0])
    ensures |Entry(s, configured).1| < |s|
  {
  }

  /** The databases from s on, which starts at an entry, a comment or the end. */
  function ReadFrom(s: string, configured: string): Result
    requires Ended(s) || !IsSpace(s[0])
    decreases |s|
  {
    if Ended(s) then Ok([])
    else if s[0] == '#' then
      assert |SkipLine(s)| < |s|;
      ReadFrom(SkipSpaces(NextLine(s)), configured)
    else
      var (d, rest) := Entry(s, configured);
      EntryProgress(s, configured);
      match d
      case OutOfBuffer => BeforeBuffer
      case Invalid => InvalidDatabases
      case Found(database) =>
        match ReadFrom(SkipSpaces(NextLine(rest)), configured)
        case Ok(ds) => Ok([database] + ds)
        case failed => failed
  }

  /** Read the databases of a text, with the hosts that are configured for all of them. */
  function Read(text: string, configured: string): Result {
    ReadFrom(SkipSpaces(text), configured)
  }

  // ---- what is written is read back ----

  predicate Field(f: string) {
    f != "" && forall i :: 0 <= i < |f| ==> InField(f[i])
  }

  predicate Stops(s: string) {
    Ended(s) || IsSpace(s[0])
  }

  predicate OptionalField(f: Option<string>) {
    f.Some? ==> Field(f.value)
  }

  ghost predicate WellFormed(d: Database) {
    && Field(d.name) && d.name[0] != '#' && Field(d.path) && OptionalField(d.log) && OptionalField(d.lob)
    && NoDuplicates(d.hosts) && forall h :: h in d.hosts ==> GoodName(h)
  }

  lemma {:induction false} TokenLenOf(f: string, rest: string)
    requires (forall i :: 0 <= i < |f| ==> InField(f[i])) && Stops(rest)
    ensures TokenLen(f + rest) == |f|
  {
    if f == "" {
      assert f + rest == rest;
    } else {
      assert (f + rest)[1..] == f[1..] + rest;
      TokenLenOf(f[1..], rest);
    }
  }

  lemma TokenFirst(f: string, rest: string)
    requires Field(f) && Stops(rest)
    ensures LineToken(f + rest) == (Some(f), rest)
  {
    TokenLenOf(f, rest);
    var s := f + rest;
    assert s[0] == f[0] && InField(f[0]);
    assert SkipBlanks(s) == s && s[..|f|] == f && s[|f|..] == rest;
  }

  /** White space before a token is skipped. */
  lemma TokenAfterTab(f: string, rest: string)
    requires Field(f) && Stops(rest)
    ensures LineToken("\t" + f + rest) == (Some(f), rest)
    ensures LineToken("\t" + "\t" + f + rest) == (Some(f), rest)
  {
    TokenFirst(f, rest);
    var s := f + rest;
    var t := "\t" + f + rest;
    assert s[0] == f[0] && InField(f[0]);
    assert SkipBlanks(s) == s;
    assert t[0] == '\t' && t[1..] == s;
    assert SkipBlanks(t) == s;
    var u := "\t" + "\t" + f + rest;
    assert u[0] == '\t' && u[1..] == t;
    assert SkipBlanks(u) == SkipBlanks(t);
  }

  lemma OptionalToken(f: Option<string>, rest: string)
    requires OptionalField(f) && Stops(rest)
    ensures f.Some? ==> LineToken(Optional(f) + rest) == (f, rest)
    ensures f.None? ==> Optional(f) + rest == rest
    ensures Stops(Optional(f) + rest)
  {
    if f.Some? {
      TokenAfterTab(f.value, rest);
    }
  }

  lemma {:induction false} JoinField(hs: seq<string>)
    requires hs != [] && forall h :: h in hs ==> GoodName(h)
    ensures Field(Join(hs))
    decreases |hs|
  {
    assert GoodName(hs[0]);
    if |hs| <= 1 {
    } else {
      JoinField(hs[1..]);
      var a, b := hs[0] + [SEPARATOR], Join(hs[1..]);
      forall i | 0 <= i < |a + b| ensures InField((a + b)[i]) {
        if i < |hs[0]| { assert (a + b)[i] == hs[0][i]; }
        if i > |hs[0]| { assert (a + b)[i] == b[i - |a|]; }
      }
    }
  }

  // What follows each field of a line, with more text after it.

  function AfterLog(d: Database, more: string): string {
    Optional(d.lob) + ("\n" + more)
  }

  function AfterHosts(d: Database, more: string): string {
    Optional(d.log) + AfterLog(d, more)
  }

  function AfterPath(d: Database, more: string): string {
    "\t" + HostsField(d.hosts) + AfterHosts(d, more)
  }

  function AfterName(d: Database, more: string): string {
    if |d.name| < 8 then "\t" + "\t" + d.path + AfterPath(d, more) else "\t" + d.path + AfterPath(d, more)
  }

  lemma TabsFirst(name: string, path: string, rest: string)
    ensures var tabs := if |name| < 8 then "\t" else "";
            name + tabs + "\t" + (path + rest) ==
              name + (if |name| < 8 then "\t" + "\t" + path + rest else "\t" + path + rest)
  {
    Associative("\t", path, rest);
    if |name| < 8 {
      Associative("\t" + "\t", path, rest);
      Associative(name, "\t", "\t");
      Associative(name, "\t" + "\t", path + rest);
    } else {
      assert name + "" == name;
      Associative(name, "\t", path + rest);
    }
  }

  lemma LineParts(d: Database, more: string)
    ensures Line(d) + more == d.name + AfterName(d, more)
  {
    var start := d.name + (if |d.name| < 8 then "\t" else "") + "\t";
    var hosts := HostsField(d.hosts);
    var toHosts := start + d.path + "\t" + hosts;
    Associative(toHosts + Optional(d.log) + Optional(d.lob), "\n", more);
    Associative(toHosts + Optional(d.log), Optional(d.lob), "\n" + more);
    Associative(toHosts, Optional(d.log), AfterLog(d, more));
    Associative(start + d.path + "\t", hosts, AfterHosts(d, more));
    Associative(start + d.path, "\t", hosts + AfterHosts(d, more));
    Associative("\t", hosts, AfterHosts(d, more));
    Associative(start, d.path, AfterPath(d, more));
    TabsFirst(d.name, d.path, AfterPath(d, more));
  }

  /** A database as it is read back: with the local host if it has no host, and the configured hosts. */
  function Kept(d: Database, configured: string): Database {
    d.(hosts := AddNew(if d.hosts == [] then ["localhost"] else d.hosts, Names(configured)))
  }

  lemma LocalHostIsGood()
    ensures GoodName("localhost")
  {
  }

  lemma HostsOfField(hs: seq<string>, configured: string)
    requires NoDuplicates(hs) && forall h :: h in hs ==> GoodName(h)
    ensures Field(HostsField(hs))
    ensures var all := AddNew(if hs == [] then ["localhost"] else hs, Names(configured));
            Hosts(HostsField(hs), configured, false) == all && all != []
    ensures !StepsBefore(HostsField(hs), configured, false)
  {
    NoHosts(HostsField(hs), configured, false);
    LocalHostIsGood();
    var gs := if hs == [] then ["localhost"] else hs;
    assert HostsField(hs) == Join(gs);
    JoinField(gs);
    HostsJoin(gs);
    AddNewFacts(gs, Names(configured));
  }

  /** The tokens of a line after its name. */
  lemma TokensOfLine(d: Database, more: string)
    requires WellFormed(d)
    ensures Stops(AfterName(d, more)) && LineToken(AfterName(d, more)) == (Some(d.path), AfterPath(d, more))
    ensures LineToken(AfterPath(d, more)) == (Some(HostsField(d.hosts)), AfterHosts(d, more))
    ensures d.log.Some? ==> LineToken(AfterHosts(d, more)) == (d.log, AfterLog(d, more))
    ensures d.lob.Some? ==> LineToken(AfterLog(d, more)) == (d.lob, "\n" + more)
    ensures d.lob.None? ==> LineToken(AfterLog(d, more)) == (None, "\n" + more)
    ensures d.log.None? ==> AfterHosts(d, more) == AfterLog(d, more)
    ensures LineToken("\n" + more) == (None, "\n" + more)
  {
    HostsOfField(d.hosts, "");
    OptionalToken(d.lob, "\n" + more);
    OptionalToken(d.log, AfterLog(d, more));
    TokenAfterTab(HostsField(d.hosts), AfterHosts(d, more));
    TokenAfterTab(d.path, AfterPath(d, more));
  }

  /** A line with a log path is read back as its database. */
  lemma EntryOfLine(d: Database, more: string, configured: string)
    requires WellFormed(d) && d.log.Some?
    ensures Entry(Line(d) + more, configured) == (Found(Kept(d, configured)), "\n" + more)
  {
    LineParts(d, more);
    TokensOfLine(d, more);
    TokenFirst(d.name, AfterName(d, more));
    HostsOfField(d.hosts, configured);
  }

  /** A line without a log path is taken for one whose log path is its lob path, or is invalid. */
  lemma EntryWithoutLog(d: Database, more: string, configured: string)
    requires WellFormed(d) && d.log.None?
    ensures Entry(Line(d) + more, configured) ==
            (if d.lob.None? then Invalid else Found(Kept(d, configured).(log := d.lob, lob := None)), "\n" + more)
  {
    LineParts(d, more);
    TokensOfLine(d, more);
    TokenFirst(d.name, AfterName(d, more));
    HostsOfField(d.hosts, configured);
  }

  function KeptAll(ds: seq<Database>, configured: string): seq<Database> {
    if ds == [] then [] else [Kept(ds[0], configured)] + KeptAll(ds[1..], configured)
  }

  ghost predicate AllWellFormed(ds: seq<Database>) {
    forall i :: 0 <= i < |ds| ==> WellFormed(ds[i])
  }

  predicate HaveLogs(ds: seq<Database>) {
    forall i :: 0 <= i < |ds| ==> ds[i].log.Some?
  }

  predicate Begins(s: string) {
    s == "" || InField(s[0])
  }

  lemma AfterEol(s: string)
    requires Begins(s)
    ensures SkipSpaces(s) == s && NextLine("\n" + s) == s
  {
    var t := "\n" + s;
    assert t[0] == '\n' && t[1..] == s;
    assert SkipLine(t) == t && SkipEols(s) == s;
  }

  /** The text starts with the name of a database, or is empty. */
  lemma LinesBegin(ds: seq<Database>)
    requires AllWellFormed(ds)
    ensures Begins(Lines(ds)) && (ds == [] <==> Lines(ds) == "") && (ds != [] ==> Lines(ds)[0] != '#')
  {
    if ds != [] {
      assert WellFormed(ds[0]);
      LineParts(ds[0], Lines(ds[1..]));
      assert Lines(ds)[0] == ds[0].name[0];
    }
  }

  /** Reading an entry, and then the next lines. */
  lemma ReadEntry(s: string, more: string, d: Reading, configured: string)
    requires s != "" && InField(s[0]) && s[0] != '#' && Begins(more) && Entry(s, configured) == (d, "\n" + more)
    ensures d == Invalid ==> ReadFrom(s, configured) == InvalidDatabases
    ensures d == OutOfBuffer ==> ReadFrom(s, configured) == BeforeBuffer
    ensures d.Found? && ReadFrom(more, configured).Ok? ==>
              ReadFrom(s, configured) == Ok([d.database] + ReadFrom(more, configured).databases)
    ensures d.Found? && !ReadFrom(more, configured).Ok? ==> ReadFrom(s, configured) == ReadFrom(more, configured)
  {
    AfterEol(more);
  }

  lemma ConsEqual<T>(x: T, xs: seq<T>, y: T, ys: seq<T>)
    ensures [x] + xs == [y] + ys <==> x == y && xs == ys
  {
    assert ([x] + xs)[0] == x && ([x] + xs)[1..] == xs && ([y] + ys)[0] == y && ([y] + ys)[1..] == ys;
  }

  lemma HaveLogsStep(ds: seq<Database>)
    requires ds != []
    ensures HaveLogs(ds) <==> ds[0].log.Some? && HaveLogs(ds[1..])
  {
    assert forall i :: 0 < i < |ds| ==> ds[i] == ds[1..][i - 1];
  }

  /** The lines of databases are read back exactly when all have log paths. */
  lemma {:induction false} LinesReadBack(ds: seq<Database>, configured: string)
    requires AllWellFormed(ds)
    ensures Begins(Lines(ds))
    ensures ReadFrom(Lines(ds), configured) == Ok(KeptAll(ds, configured)) <==> HaveLogs(ds)
    ensures ReadFrom(Lines(ds), configured) != BeforeBuffer
    decreases |ds|
  {
    LinesBegin(ds);
    if ds == [] {
    } else {
      var d, more := ds[0], Lines(ds[1..]);
      LinesReadBack(ds[1..], configured);
      HaveLogsStep(ds);
      var read := if d.log.Some? then Found(Kept(d, configured))
                  else if d.lob.None? then Invalid else Found(Kept(d, configured).(log := d.lob, lob := None));
      if d.log.Some? {
        EntryOfLine(d, more, configured);
      } else {
        EntryWithoutLog(d, more, configured);
      }
      ReadEntry(Lines(ds), more, read, configured);
      if read.Found? && ReadFrom(more, configured).Ok? {
        ConsEqual(read.database, ReadFrom(more, configured).databases, Kept(d, configured),
                  KeptAll(ds[1..], configured));
      }
    }
  }

  predicate OnOneLine(s: string) {
    forall i :: 0 <= i < |s| ==> s[i] != NUL && !IsEol(s[i])
  }

  lemma {:induction false} SkipOneLine(s: string, rest: string)
    requires OnOneLine(s)
    ensures SkipLine(s + rest) == SkipLine(rest)
  {
    if s == "" {
      assert s + rest == rest;
    } else {
      assert (s + rest)[1..] == s[1..] + rest;
      SkipOneLine(s[1..], rest);
    }
  }

  /** A comment line in front is skipped. */
  lemma ReadAfterComment(comment: string, lines: string, configured: string)
    requires comment != "" && comment[0] == '#' && OnOneLine(comment) && Begins(lines)
    ensures Read(comment + "\n" + lines, configured) == ReadFrom(lines, configured)
  {
    var text := comment + ("\n" + lines);
    Associative(comment, "\n", lines);
    assert text[0] == '#';
    assert SkipSpaces(text) == text;
    SkipOneLine(comment, "\n" + lines);
    AfterEol(lines);
    assert NextLine(text) == lines;
  }

  lemma OneLineAppend(a: string, b: string)
    requires OnOneLine(a) && OnOneLine(b)
    ensures OnOneLine(a + b)
  {
  }

  lemma TitlesAreComment()
    ensures TITLES != "" && TITLES[0] == '#' && OnOneLine(TITLES)
  {
    var log := "\t\tlog-path" + "\t\tlob-base-path";
    OneLineAppend("\t\tlog-path", "\t\tlob-base-path");
    OneLineAppend("\t\tdb-host", log);
    OneLineAppend("\tvol-path", "\t\tdb-host" + log);
    OneLineAppend("#db-name", "\tvol-path" + ("\t\tdb-host" + log));
  }

  /**
   * A directory that was written is read back, in order and with the configured hosts added, exactly when every
   * database has a log path.
   */
  lemma ReadBack(ds: seq<Database>, configured: string)
    requires AllWellFormed(ds)
    ensures Read(Text(ds), configured) == Ok(KeptAll(ds, configured)) <==> HaveLogs(ds)
    ensures Read(Text(ds), configured) != BeforeBuffer
  {
    LinesReadBack(ds, configured);
    TitlesAreComment();
    ReadAfterComment(TITLES, Lines(ds), configured);
  }

  /** Without configured hosts, databases with hosts and log paths are read back as they were. */
  lemma {:induction false} SameReadBack(ds: seq<Database>)
    requires AllWellFormed(ds) && HaveLogs(ds) && forall i :: 0 <= i < |ds| ==> ds[i].hosts != []
    ensures Read(Text(ds), "") == Ok(ds)
  {
    ReadBack(ds, "");
    KeptAsIs(ds);
  }

  lemma {:induction false} KeptAsIs(ds: seq<Database>)
    requires forall i :: 0 <= i < |ds| ==> ds[i].hosts != []
    ensures KeptAll(ds, "") == ds
  {
    if ds == [] {
    } else {
      KeptAsIs(ds[1..]);
      assert Kept(ds[0], "") == ds[0];
      assert [ds[0]] + ds[1..] == ds;
    }
  }

  /** A line whose host token holds no name, without configured names, makes the reader go before its buffer. */
  lemma EntryWithoutName(name: string, path: string, token: string, rest: string, configured: string)
    requires Field(name) && Field(path) && Field(token) && Stops(rest) && Names(token) == [] && Names(configured) == []
    ensures Entry(name + ("\t" + path + ("\t" + token + rest)), configured).0 == OutOfBuffer
  {
    TokenAfterTab(token, rest);
    TokenAfterTab(path, "\t" + token + rest);
    TokenFirst(name, "\t" + path + ("\t" + token + rest));
    assert InField(token[0]);
  }

  /** A lone separator is such a token. */
  lemma LoneSeparator(name: string, path: string, rest: string)
    requires Field(name) && Field(path) && Stops(rest)
    ensures Entry(name + ("\t" + path + ("\t" + ":" + rest)), "").0 == OutOfBuffer
  {
    NoName([SEPARATOR]);
    assert Field(":");
    EntryWithoutName(name, path, ":", rest, "");
  }
}
