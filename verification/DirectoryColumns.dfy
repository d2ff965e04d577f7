/** What is written into the database directory: its words, and where they stand. */
module DirectoryColumns {
  import opened Common
  import opened DirectoryRows
  import opened DirectoryText
  import opened HostNames
  import opened Splitting

  /** The words of a database's line. */
  function RowOf(d: Database): seq<string> {
    [d.name, d.path, HostsField(d.hosts)] + (if d.log.Some? then [d.log.value] else [])
    + (if d.lob.Some? then [d.lob.value] else [])
  }

  function RowsOfAll(ds: seq<Database>): seq<seq<string>> {
    if ds == [] then [] else [RowOf(ds[0])] + RowsOfAll(ds[1..])
  }

  const TITLE_WORDS := ["#db-name", "vol-path", "db-host", "log-path", "lob-base-path"]

  lemma TokenAhead(s: string, token: Option<string>, rest: string)
    requires LineToken(s) == (token, rest)
    ensures Ahead(s) == (if token.None? then [] else [token.value] + Ahead(rest)) && SkipLine(s) == SkipLine(rest)
  {
    TokenIsWord(s);
    if token.Some? { assert [Ahead(s)[0]] + Ahead(s)[1..] == Ahead(s); }
  }

  lemma FirstAhead(d: Database, more: string)
    requires WellFormed(d)
    ensures Ahead(Line(d) + more) == [d.name] + Ahead(AfterName(d, more))
    ensures SkipLine(Line(d) + more) == SkipLine(AfterName(d, more))
  {
    LineParts(d, more);
    TokensOfLine(d, more);
    TokenFirst(d.name, AfterName(d, more));
    TokenAhead(d.name + AfterName(d, more), Some(d.name), AfterName(d, more));
  }

  lemma NextAhead(d: Database, more: string)
    requires WellFormed(d)
    ensures Ahead(AfterName(d, more)) == [d.path] + Ahead(AfterPath(d, more))
    ensures Ahead(AfterPath(d, more)) == [HostsField(d.hosts)] + Ahead(AfterHosts(d, more))
    ensures SkipLine(AfterName(d, more)) == SkipLine(AfterHosts(d, more))
  {
    TokensOfLine(d, more);
    TokenAhead(AfterName(d, more), Some(d.path), AfterPath(d, more));
    TokenAhead(AfterPath(d, more), Some(HostsField(d.hosts)), AfterHosts(d, more));
  }

  lemma LastAhead(d: Database, more: string)
    requires WellFormed(d)
    ensures Ahead(AfterHosts(d, more)) == (if d.log.Some? then [d.log.value] else []) + Ahead(AfterLog(d, more))
    ensures Ahead(AfterLog(d, more)) == if d.lob.Some? then [d.lob.value] else []
    ensures SkipLine(AfterHosts(d, more)) == "\n" + more
  {
    var end := "\n" + more;
    TokensOfLine(d, more);
    if d.log.Some? { TokenAhead(AfterHosts(d, more), d.log, AfterLog(d, more)); }
    TokenAhead(AfterLog(d, more), d.lob, end);
    TokenAhead(end, None, end);
    assert SkipLine(end) == end;
  }

  lemma RowParts(d: Database)
    ensures RowOf(d) == [d.name] + ([d.path] + ([HostsField(d.hosts)] + ((if d.log.Some? then [d.log.value] else [])
                        + (if d.lob.Some? then [d.lob.value] else []))))
  {
  }

  /** The line of a database holds the words of its row. */
  lemma LineWords(d: Database, more: string)
    requires WellFormed(d)
    ensures Ahead(Line(d) + more) == RowOf(d) && SkipLine(Line(d) + more) == "\n" + more
  {
    FirstAhead(d, more);
    NextAhead(d, more);
    LastAhead(d, more);
    RowParts(d);
  }

  lemma {:induction false} LinesRows(ds: seq<Database>)
    requires AllWellFormed(ds)
    ensures Rows(Lines(ds)) == RowsOfAll(ds)
    decreases |ds|
  {
    if ds == [] {
    } else {
      var more := Lines(ds[1..]);
      LinesRows(ds[1..]);
      assert WellFormed(ds[0]);
      LineWords(ds[0], more);
      RowsAhead(Lines(ds));
      AfterLine(more);
    }
  }

  lemma AfterLine(more: string)
    ensures Rows("\n" + more) == Rows(more)
  {
    var s := "\n" + more;
    assert s[1..] == more && UpToNul(s) == "\n" + UpToNul(more);
    PiecesCons('\n', UpToNul(more), EOLS);
  }

  lemma {:induction false} WholeLine(s: string, more: string)
    requires OnOneLine(s)
    ensures RestOfLine(s + ("\n" + more)) == s && SkipLine(s + ("\n" + more)) == "\n" + more
    decreases |s|
  {
    var t := s + ("\n" + more);
    if s == "" {
      assert t == "\n" + more;
    } else {
      assert t[0] == s[0] && t[1..] == s[1..] + ("\n" + more);
      WholeLine(s[1..], more);
      assert [s[0]] + s[1..] == s;
    }
  }

  lemma WordThenTabs(w: string, tabs: string, rest: string)
    requires w != "" && Free(w, BLANKS) && (tabs == "\t" || tabs == "\t\t")
    ensures Pieces(w + (tabs + rest), BLANKS) == [w] + Pieces(rest, BLANKS)
  {
    PiecesFirst(w, tabs + rest, BLANKS);
    PiecesCons('\t', rest, BLANKS);
    if tabs == "\t\t" {
      PiecesCons('\t', "\t" + rest, BLANKS);
      assert tabs + rest == "\t" + ("\t" + rest);
    } else {
      assert tabs + rest == "\t" + rest;
    }
  }

  predicate IsWord(w: string) {
    w != "" && Free(w, BLANKS)
  }

  /** The title line of five words. */
  function Titles(a: string, b: string, c: string, d: string, e: string): string {
    a + ("\t" + (b + ("\t\t" + (c + ("\t\t" + (d + ("\t\t" + e)))))))
  }

  lemma FiveWords(a: string, b: string, c: string, d: string, e: string)
    requires IsWord(a) && IsWord(b) && IsWord(c) && IsWord(d) && IsWord(e)
    ensures Pieces(Titles(a, b, c, d, e), BLANKS) == [a, b, c, d, e]
  {
    var s3 := d + ("\t\t" + e);
    var s2 := c + ("\t\t" + s3);
    var s1 := b + ("\t\t" + s2);
    OnePiece(e, BLANKS);
    WordThenTabs(d, "\t\t", e);
    WordThenTabs(c, "\t\t", s3);
    WordThenTabs(b, "\t\t", s2);
    WordThenTabs(a, "\t", s1);
  }

  lemma TitlesByWords()
    ensures TITLES == Titles("#db-name", "vol-path", "db-host", "log-path", "lob-base-path")
  {
    var s4 := "lob-base-path";
    var s3 := "log-path" + ("\t\t" + s4);
    var s2 := "db-host" + ("\t\t" + s3);
    assert "\t\tlob-base-path" == "\t\t" + s4;
    assert "\t\tlog-path" + ("\t\t" + s4) == "\t\t" + s3;
    assert "\t\tdb-host" + ("\t\t" + s3) == "\t\t" + s2;
    assert "\tvol-path" + ("\t\t" + s2) == "\t" + ("vol-path" + ("\t\t" + s2));
  }

  /** The words of the titles. */
  lemma TitleWords()
    ensures Pieces(TITLES, BLANKS) == TITLE_WORDS
  {
    TitlesByWords();
    assert IsWord("#db-name") && IsWord("vol-path") && IsWord("db-host");
    assert IsWord("log-path") && IsWord("lob-base-path");
    FiveWords("#db-name", "vol-path", "db-host", "log-path", "lob-base-path");
  }

  /** The written text has a row of titles and a row for each database. */
  lemma TextRows(ds: seq<Database>)
    requires AllWellFormed(ds)
    ensures Rows(Text(ds)) == [TITLE_WORDS] + RowsOfAll(ds)
  {
    var lines := Lines(ds);
    TitlesAreComment();
    Associative(TITLES, "\n", lines);
    WholeLine(TITLES, lines);
    TitleWords();
    RowsAhead(TITLES + ("\n" + lines));
    AfterLine(lines);
    LinesRows(ds);
  }

  // ---- where the words stand ----

  /** The column behind a text, with tab stops at every eighth. */
  function Column(s: string): nat {
    if s == "" then 0
    else
      var c := Column(s[..|s| - 1]);
      if s[|s| - 1] == '\t' then (c / 8 + 1) * 8 else c + 1
  }

  lemma {:induction false} ColumnOfWord(w: string)
    requires Free(w, {'\t'})
    ensures Column(w) == |w|
  {
    if w == "" {
    } else {
      ColumnOfWord(w[..|w| - 1]);
    }
  }

  lemma ColumnOfTab(s: string)
    ensures Column(s + "\t") == (Column(s) / 8 + 1) * 8
  {
    assert (s + "\t")[..|s|] == s;
  }

  /** The path stands at column 16 behind every name of fewer than 16 characters, as its title does. */
  lemma PathColumn(d: Database) returns (before: string)
    requires Free(d.name, {'\t'}) && |d.name| < 16
    ensures before + d.path <= Line(d) && Column(before) == 16
  {
    var name := d.name;
    before := if |name| < 8 then name + "\t" + "\t" else name + "\t";
    assert name + "" == name;
    ColumnOfWord(name);
    ColumnOfTab(name);
    ColumnOfTab(name + "\t");
  }

  lemma TitleColumn() returns (before: string)
    ensures before + "vol-path" <= TITLES && Column(before) == 16
  {
    before := "#db-name" + "\t";
    ColumnOfWord("#db-name");
    ColumnOfTab("#db-name");
    assert "#db-name" + "\tvol-path" == before + "vol-path";
  }

  /** A text without its tabs and line feeds. */
  function Letters(s: string): string {
    if s == "" then "" else (if s[0] == '\t' || s[0] == '\n' then "" else s[..1]) + Letters(s[1..])
  }

  lemma {:induction false} LettersAppend(a: string, b: string)
    ensures Letters(a + b) == Letters(a) + Letters(b)
  {
    if a == "" {
      assert a + b == b;
    } else {
      LettersAppend(a[1..], b);
      assert (a + b)[1..] == a[1..] + b && (a + b)[..1] == a[..1];
      Associative(if a[0] == '\t' || a[0] == '\n' then "" else a[..1], Letters(a[1..]), Letters(b));
    }
  }

  lemma OptionalLetters(f: Option<string>)
    ensures Letters(Optional(f)) == if f.Some? then Letters(f.value) else ""
  {
    if f.Some? { LettersAppend("\t", f.value); }
  }

  lemma TabLetters(s: string)
    ensures Letters(s + "\t") == Letters(s)
  {
    LettersAppend(s, "\t");
    assert Letters("\t") == "" && Letters(s) + "" == Letters(s);
  }

  lemma StartLetters(name: string, tabs: string, path: string, hosts: string)
    requires tabs == "" || tabs == "\t"
    ensures Letters(name + tabs + "\t" + path + "\t" + hosts) == Letters(name) + Letters(path) + Letters(hosts)
  {
    var start := name + tabs + "\t";
    if tabs == "\t" { TabLetters(name); } else { assert name + tabs == name; }
    TabLetters(name + tabs);
    LettersAppend(start, path);
    TabLetters(start + path);
    LettersAppend(start + path + "\t", hosts);
  }

  /** Nothing else is written but tabs between the words and the line feed. */
  lemma OnlyTabs(d: Database)
    ensures Letters(Line(d)) == Letters(d.name) + Letters(d.path) + Letters(HostsField(d.hosts))
                                + (if d.log.Some? then Letters(d.log.value) else "")
                                + (if d.lob.Some? then Letters(d.lob.value) else "")
  {
    var b := d.name + (if |d.name| < 8 then "\t" else "") + "\t" + d.path + "\t" + HostsField(d.hosts);
    StartLetters(d.name, if |d.name| < 8 then "\t" else "", d.path, HostsField(d.hosts));
    LettersAppend(b, Optional(d.log));
    LettersAppend(b + Optional(d.log), Optional(d.lob));
    LettersAppend(b + Optional(d.log) + Optional(d.lob), "\n");
    OptionalLetters(d.log);
    OptionalLetters(d.lob);
    assert Letters("\n") == "";
  }
}
