/** The database directory read by its lines and words, with the characters that part them written out. */
module DirectoryRows {
  import opened Common
  import opened DirectoryText
  import opened HostNames
  import opened Splitting

  /** What ends a line. */
  const EOLS := {'\r', '\n'}

  /** What parts the words of a line: space, tab, form feed and vertical tab. */
  const BLANKS := {' ', '\t', '\U{c}', '\U{b}'}

  /** The words of each line that has any. */
  function RowsOf(lines: seq<string>): seq<seq<string>> {
    if lines == [] then []
    else
      var words := Pieces(lines[0], BLANKS);
      (if words == [] then [] else [words]) + RowsOf(lines[1..])
  }

  function Rows(text: string): seq<seq<string>> {
    RowsOf(Pieces(UpToNul(text), EOLS))
  }

  function Word(words: seq<string>, i: nat): Option<string> {
    if i < |words| then Some(words[i]) else None
  }

  /** An entry by its words: name, path, hosts, log path and, if there is one, lob path. */
  function RowEntry(words: seq<string>, configured: string): Reading {
    var primary := OrEmpty(Word(words, 2));
    var hosts := Hosts(primary, configured, false);
    if StepsBefore(primary, configured, false) then OutOfBuffer
    else if |words| < 4 || hosts == [] then Invalid
    else Found(Database(words[0], words[1], hosts, Some(words[3]), Word(words, 4)))
  }

  predicate IsComment(words: seq<string>) {
    words != [] && words[0] != "" && words[0][0] == '#'
  }

  function ReadRows(rows: seq<seq<string>>, configured: string): Result {
    if rows == [] then Ok([])
    else if IsComment(rows[0]) then ReadRows(rows[1..], configured)
    else
      match RowEntry(rows[0], configured)
      case OutOfBuffer => BeforeBuffer
      case Invalid => InvalidDatabases
      case Found(database) =>
        match ReadRows(rows[1..], configured)
        case Ok(ds) => Ok([database] + ds)
        case failed => failed
  }

  // ---- the rest of the line ----

  function RestOfLine(s: string): string {
    if Ended(s) || s[0] in EOLS then "" else [s[0]] + RestOfLine(s[1..])
  }

  /** The words on the rest of the line. */
  function Ahead(s: string): seq<string> {
    Pieces(RestOfLine(s), BLANKS)
  }

  lemma SpaceKinds(c: char)
    ensures IsEol(c) <==> c in EOLS
    ensures IsSpace(c) && !IsEol(c) <==> c in BLANKS
  {
  }

  lemma {:induction false} BlanksSkipped(s: string)
    ensures Ahead(SkipBlanks(s)) == Ahead(s) && SkipLine(SkipBlanks(s)) == SkipLine(s)
    decreases |s|
  {
    if s != "" { SpaceKinds(s[0]); }
    if !Ended(s) && s[0] in BLANKS {
      BlanksSkipped(s[1..]);
      PiecesCons(s[0], RestOfLine(s[1..]), BLANKS);
    }
  }

  /** After its blanks a string goes on with a word, or the line ends. */
  lemma {:induction false} AfterBlanks(s: string)
    ensures var p := SkipBlanks(s); Ended(p) || p[0] in EOLS || !IsSpace(p[0])
    decreases |s|
  {
    if s != "" { SpaceKinds(s[0]); }
    if !Ended(s) && s[0] in BLANKS { AfterBlanks(s[1..]); }
  }

  /** A token is a string without blanks at the start of the line, up to a blank or the end of the line. */
  lemma {:induction false} TokenOnLine(p: string)
    ensures var n := TokenLen(p);
            && RestOfLine(p) == p[..n] + RestOfLine(p[n..]) && SkipLine(p) == SkipLine(p[n..]) && Free(p[..n], BLANKS)
            && (RestOfLine(p[n..]) == "" || RestOfLine(p[n..])[0] in BLANKS)
    decreases |p|
  {
    var n := TokenLen(p);
    if p != "" { SpaceKinds(p[0]); }
    if Ended(p) || IsSpace(p[0]) {
      assert p[..0] == "" && p[0..] == p;
    } else {
      TokenOnLine(p[1..]);
      var m := TokenLen(p[1..]);
      assert p[1..][m..] == p[n..] && p[..n] == [p[0]] + p[1..][..m];
    }
  }

  /** Popping a token takes the next word of the line. */
  lemma TokenIsWord(s: string)
    ensures var (token, rest) := LineToken(s);
            && token == Word(Ahead(s), 0) && SkipLine(rest) == SkipLine(s)
            && Ahead(rest) == if Ahead(s) == [] then [] else Ahead(s)[1..]
  {
    if s != "" { SpaceKinds(s[0]); }
    if s != "" && IsEol(s[0]) {
    } else {
      var p := SkipBlanks(s);
      var n := TokenLen(p);
      BlanksSkipped(s);
      AfterBlanks(s);
      TokenOnLine(p);
      if n > 0 {
        PiecesFirst(p[..n], RestOfLine(p[n..]), BLANKS);
      } else {
        assert p[0..] == p;
        if p != "" { SpaceKinds(p[0]); }
      }
    }
  }

  function Tail(words: seq<string>): seq<string> {
    if words == [] then [] else words[1..]
  }

  lemma WordsOneByOne(w: seq<string>)
    ensures Word(Tail(w), 0) == Word(w, 1) && Word(Tail(Tail(w)), 0) == Word(w, 2)
    ensures Word(Tail(Tail(Tail(w))), 0) == Word(w, 3) && Word(Tail(Tail(Tail(Tail(w)))), 0) == Word(w, 4)
  {
  }

  lemma NextToken(s: string, w: seq<string>) returns (rest: string)
    requires Ahead(s) == w
    ensures LineToken(s) == (Word(w, 0), rest) && Ahead(rest) == Tail(w) && SkipLine(rest) == SkipLine(s)
  {
    TokenIsWord(s);
    rest := LineToken(s).1;
  }

  lemma FiveTokens(s: string, w: seq<string>) returns (s1: string, s2: string, s3: string, s4: string, s5: string)
    requires Ahead(s) == w
    ensures LineToken(s) == (Word(w, 0), s1) && LineToken(s1) == (Word(w, 1), s2) && LineToken(s2) == (Word(w, 2), s3)
    ensures LineToken(s3) == (Word(w, 3), s4) && LineToken(s4) == (Word(w, 4), s5) && SkipLine(s5) == SkipLine(s)
  {
    WordsOneByOne(w);
    s1 := NextToken(s, w);
    s2 := NextToken(s1, Tail(w));
    s3 := NextToken(s2, Tail(Tail(w)));
    s4 := NextToken(s3, Tail(Tail(Tail(w))));
    s5 := NextToken(s4, Tail(Tail(Tail(Tail(w)))));
  }

  /** An entry is read from the words of its line. */
  lemma EntryByWords(s: string, configured: string)
    ensures Entry(s, configured).0 == RowEntry(Ahead(s), configured)
    ensures SkipLine(Entry(s, configured).1) == SkipLine(s)
  {
    var w := Ahead(s);
    var s1, s2, s3, s4, s5 := FiveTokens(s, w);
    assert Entry(s, configured).1 == s5;
  }

  // ---- the lines ----

  /** The text ahead is the rest of the line and what follows it. */
  lemma {:induction false} LineAhead(s: string)
    ensures UpToNul(s) == RestOfLine(s) + UpToNul(SkipLine(s)) && Free(RestOfLine(s), EOLS)
    ensures UpToNul(SkipLine(s)) == "" || UpToNul(SkipLine(s))[0] in EOLS
    decreases |s|
  {
    if s != "" { SpaceKinds(s[0]); }
    if !Ended(s) && s[0] !in EOLS {
      LineAhead(s[1..]);
      Associative([s[0]], RestOfLine(s[1..]), UpToNul(SkipLine(s)));
    } else {
      assert RestOfLine(s) == "" && SkipLine(s) == s;
    }
  }

  lemma RowsAppend(line: string, lines: seq<string>)
    ensures RowsOf([line] + lines) ==
            (if Pieces(line, BLANKS) == [] then [] else [Pieces(line, BLANKS)]) + RowsOf(lines)
  {
    assert ([line] + lines)[1..] == lines;
  }

  /** The rows ahead: the words of the rest of the line, if any, and the rows of the other lines. */
  lemma RowsAhead(s: string)
    ensures Rows(s) == (if Ahead(s) == [] then [] else [Ahead(s)]) + Rows(SkipLine(s))
  {
    LineAhead(s);
    var line, more := RestOfLine(s), UpToNul(SkipLine(s));
    if line == "" {
      assert line + more == more;
    } else {
      PiecesFirst(line, more, EOLS);
      RowsAppend(line, Pieces(more, EOLS));
    }
  }

  lemma {:induction false} EolsSkipped(s: string)
    ensures Rows(SkipEols(s)) == Rows(s)
    decreases |s|
  {
    if s != "" { SpaceKinds(s[0]); }
    if !Ended(s) && s[0] in EOLS {
      EolsSkipped(s[1..]);
      PiecesCons(s[0], UpToNul(s[1..]), EOLS);
    }
  }

  lemma BlankSkipped(s: string)
    requires !Ended(s) && s[0] in BLANKS
    ensures Rows(s[1..]) == Rows(s)
  {
    SpaceKinds(s[0]);
    RowsAhead(s);
    RowsAhead(s[1..]);
    PiecesCons(s[0], RestOfLine(s[1..]), BLANKS);
  }

  lemma {:induction false} SpacesSkipped(s: string)
    ensures Rows(SkipSpaces(s)) == Rows(s)
    decreases |s|
  {
    if s != "" { SpaceKinds(s[0]); }
    if !Ended(s) && IsSpace(s[0]) {
      SpacesSkipped(s[1..]);
      if s[0] in BLANKS {
        BlankSkipped(s);
      } else {
        PiecesCons(s[0], UpToNul(s[1..]), EOLS);
      }
    }
  }

  /** At an entry or a comment there is a word ahead, which starts there. */
  lemma WordAhead(s: string)
    requires !Ended(s) && !IsSpace(s[0])
    ensures Ahead(s) != [] && Ahead(s)[0] != "" && Ahead(s)[0][0] == s[0]
  {
    SpaceKinds(s[0]);
    TokenIsWord(s);
    AtToken(s);
  }

  lemma AtToken(s: string)
    requires !Ended(s) && !IsSpace(s[0])
    ensures LineToken(s).0.Some? && LineToken(s).0.value != "" && LineToken(s).0.value[0] == s[0]
  {
    assert SkipBlanks(s) == s;
  }

  lemma RestRows(s: string)
    ensures Rows(SkipSpaces(NextLine(s))) == Rows(SkipLine(s))
  {
    SpacesSkipped(NextLine(s));
    EolsSkipped(SkipLine(s));
  }

  /** The scanner reads what the lines and words of the text say. */
  lemma {:induction false} ReadFromRows(s: string, configured: string)
    requires Ended(s) || !IsSpace(s[0])
    ensures ReadFrom(s, configured) == ReadRows(Rows(s), configured)
    decreases |s|
  {
    RowsAhead(s);
    if Ended(s) {
      assert UpToNul(s) == "";
    } else {
      var rows := Rows(s);
      WordAhead(s);
      assert rows[0] == Ahead(s) && rows[1..] == Rows(SkipLine(s));
      if s[0] == '#' {
        assert |SkipLine(s)| < |s|;
        RestRows(s);
        ReadFromRows(SkipSpaces(NextLine(s)), configured);
      } else {
        var (d, rest) := Entry(s, configured);
        EntryProgress(s, configured);
        EntryByWords(s, configured);
        RestRows(rest);
        if d.Found? { ReadFromRows(SkipSpaces(NextLine(rest)), configured); }
      }
    }
  }

  /** For every text, NUL characters and all kinds of white space included. */
  lemma ReadByRows(text: string, configured: string)
    ensures Read(text, configured) == ReadRows(Rows(text), configured)
  {
    SpacesSkipped(text);
    ReadFromRows(SkipSpaces(text), configured);
  }
}
