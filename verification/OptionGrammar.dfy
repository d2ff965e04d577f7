/** What a command line means: the options it holds and the words that are not options. */
module OptionGrammar {
  import opened Common

  /** How the option string classifies a letter. */
  datatype Kind = Unknown | Flag | Required | Optional | LongOption

  /** What to do with a word that is no option: move it behind the options, stop there, or answer it in its place. */
  datatype Order = Permute | Stop | InOrder

  datatype Options = Options(letters: string, order: Order)

  /** A leading dash or plus of an option string is no letter. */
  predicate IgnoreFirst(s: string) {
    s != "" && (s[0] == '-' || s[0] == '+')
  }

  /** The option string with its leading dash or plus, and the environment, which can ask for the standard order. */
  function OptionsOf(s: string, posix: bool): Options {
    Options(if IgnoreFirst(s) then s[1..] else s,
            if posix then Stop else if !IgnoreFirst(s) then Permute else if s[0] == '-' then InOrder else Stop)
  }

  /** Index of the first occurrence of a letter, or the length when there is none. */
  function IndexOf(s: string, c: char): (i: nat)
    ensures i <= |s| && c !in s[..i] && (i < |s| ==> s[i] == c)
  {
    if s == "" then 0 else if s[0] == c then 0 else 1 + IndexOf(s[1..], c)
  }

  function KindOf(options: Options, c: char): Kind {
    var s := options.letters;
    var i := IndexOf(s, c);
    if c == ':' || i == |s| then Unknown
    else if c == 'W' && i + 1 < |s| && s[i + 1] == ';' then LongOption
    else if i + 1 == |s| || s[i + 1] != ':' then Flag
    else if i + 2 == |s| || s[i + 2] != ':' then Required
    else Optional
  }

  /** One answer of the scanner before the end. */
  datatype Event =
    | Opt(letter: char, arg: Option<string>)
    | BadLetter(letter: char)
    | MissingArg(letter: char)
    | Word(word: string)

  /**
   * A command line read to its end: the answers in order, the words consumed as options or their
   * arguments, the words skipped, and the words after the end of the options.
   */
  datatype Parse = Parse(events: seq<Event>, opts: seq<string>, nonopts: seq<string>, rest: seq<string>)

  predicate IsOption(w: string) {
    w != "" && w[0] == '-'
  }

  predicate EndsOptions(w: string) {
    |w| >= 2 && w[0] == '-' && w[1] == '-'
  }

  /** The letters of an option word; a lone dash is its own letter. */
  function Letters(w: string): string
    requires IsOption(w)
  {
    if |w| == 1 then w else w[1..]
  }

  function Answer(e: Event, p: Parse): Parse {
    p.(events := [e] + p.events)
  }

  function Consume(w: string, p: Parse): Parse {
    p.(opts := [w] + p.opts)
  }

  function Skip(w: string, p: Parse): Parse {
    p.(nonopts := [w] + p.nonopts)
  }

  const NOTHING := Parse([], [], [], [])

  function ParseWords(options: Options, ws: seq<string>): Parse
    decreases |ws|, 1, 0
  {
    if ws == [] then NOTHING
    else if !IsOption(ws[0]) then ParseWord(options, ws)
    else if EndsOptions(ws[0]) then Parse([], ws[..1], [], ws[1..])
    else ParseLetters(options, Letters(ws[0]), ws)
  }

  /** The next word is no option. */
  function ParseWord(options: Options, ws: seq<string>): Parse
    requires ws != []
    decreases |ws|, 0, 0
  {
    match options.order
    case Permute => Skip(ws[0], ParseWords(options, ws[1..]))
    case Stop => Parse([], [], [], ws)
    case InOrder => Answer(Word(ws[0]), Consume(ws[0], ParseWords(options, ws[1..])))
  }

  /** Continue with the letters left of the option word ws[0]. */
  function ParseLetters(options: Options, letters: string, ws: seq<string>): Parse
    requires ws != []
    decreases |ws|, 0, |letters|
  {
    if letters == "" then Consume(ws[0], ParseWords(options, ws[1..]))
    else
      var c, more := letters[0], letters[1..];
      match KindOf(options, c)
      case Unknown => Answer(BadLetter(c), ParseLetters(options, more, ws))
      case Flag => Answer(Opt(c, None), ParseLetters(options, more, ws))
      case Optional =>
        Answer(Opt(c, if more == "" then None else Some(more)), Consume(ws[0], ParseWords(options, ws[1..])))
      case Required => TakeArgument(options, c, more, ws)
      case LongOption => TakeLong(c, more, ws)
  }

  /** A letter that needs an argument: the letters after it, or else the next word. */
  function TakeArgument(options: Options, c: char, more: string, ws: seq<string>): Parse
    requires ws != []
    decreases |ws|, 0, 0
  {
    if more != "" then Answer(Opt(c, Some(more)), Consume(ws[0], ParseWords(options, ws[1..])))
    else if |ws| == 1 then Answer(MissingArg(c), Consume(ws[0], NOTHING))
    else Answer(Opt(c, Some(ws[1])), Consume(ws[0], Consume(ws[1], ParseWords(options, ws[2..]))))
  }

  /** A letter that introduces a long option ends the scan, with its argument. */
  function TakeLong(c: char, more: string, ws: seq<string>): Parse
    requires ws != []
  {
    if more != "" then Parse([], ws[..1], [], ws[1..])
    else if |ws| == 1 then Answer(MissingArg(c), Consume(ws[0], NOTHING))
    else Parse([], ws[..2], [], ws[2..])
  }

  /** s is a merge of o and n that keeps the order of each. */
  ghost predicate Interleaves(o: seq<string>, n: seq<string>, s: seq<string>) {
    if s == [] then o == [] && n == []
    else
      || (o != [] && o[0] == s[0] && Interleaves(o[1..], n, s[1..]))
      || (n != [] && n[0] == s[0] && Interleaves(o, n[1..], s[1..]))
  }

  lemma {:induction false} InterleavesCounts(o: seq<string>, n: seq<string>, s: seq<string>)
    requires Interleaves(o, n, s)
    ensures multiset(s) == multiset(o) + multiset(n)
  {
    if s == [] {
    } else {
      assert s == [s[0]] + s[1..];
      if o != [] && o[0] == s[0] && Interleaves(o[1..], n, s[1..]) {
        InterleavesCounts(o[1..], n, s[1..]);
        assert o == [o[0]] + o[1..];
      } else {
        InterleavesCounts(o, n[1..], s[1..]);
        assert n == [n[0]] + n[1..];
      }
    }
  }

  /** p splits ws stably: a prefix into consumed and skipped words, both in order, and the rest. */
  ghost predicate Splits(ws: seq<string>, p: Parse) {
    && |p.rest| <= |ws| && p.rest == ws[|ws| - |p.rest|..]
    && Interleaves(p.opts, p.nonopts, ws[..|ws| - |p.rest|])
    && (forall w <- p.nonopts :: !IsOption(w))
  }

  lemma SplitsConsume(ws: seq<string>, p: Parse)
    requires ws != [] && Splits(ws[1..], p)
    ensures Splits(ws, Consume(ws[0], p))
  {
    var n := |ws| - |p.rest|;
    assert ws[..n][1..] == ws[1..][..n - 1];
    assert ([ws[0]] + p.opts)[1..] == p.opts;
  }

  lemma SplitsSkip(ws: seq<string>, p: Parse)
    requires ws != [] && !IsOption(ws[0]) && Splits(ws[1..], p)
    ensures Splits(ws, Skip(ws[0], p))
  {
    var n := |ws| - |p.rest|;
    assert ws[..n][1..] == ws[1..][..n - 1];
    assert ([ws[0]] + p.nonopts)[1..] == p.nonopts;
  }

  lemma SplitsNothing(ws: seq<string>)
    ensures Splits(ws, Parse([], [], [], ws))
  {
    assert ws[..0] == [] && ws[0..] == ws;
  }

  lemma SplitsStop(ws: seq<string>)
    requires ws != []
    ensures Splits(ws, Parse([], ws[..1], [], ws[1..]))
  {
    SplitsNothing(ws[1..]);
    SplitsConsume(ws, Parse([], [], [], ws[1..]));
    assert [ws[0]] + [] == ws[..1];
  }

  lemma SplitsStopNext(ws: seq<string>)
    requires |ws| >= 2
    ensures Splits(ws, Parse([], ws[..2], [], ws[2..]))
  {
    SplitsStop(ws[1..]);
    SplitsConsume(ws, Parse([], ws[1..][..1], [], ws[1..][1..]));
    assert [ws[0]] + ws[1..][..1] == ws[..2] && ws[1..][1..] == ws[2..];
  }

  lemma SplitsAnswer(ws: seq<string>, e: Event, p: Parse)
    requires Splits(ws, p)
    ensures Splits(ws, Answer(e, p))
  {}

  /** Parsing a command line splits it stably. */
  lemma {:induction false} ParseSplits(options: Options, ws: seq<string>)
    ensures Splits(ws, ParseWords(options, ws))
    decreases |ws|, 1, 0
  {
    if ws == [] {
    } else if !IsOption(ws[0]) {
      WordSplits(options, ws);
    } else if EndsOptions(ws[0]) {
      SplitsStop(ws);
    } else {
      LettersSplit(options, Letters(ws[0]), ws);
    }
  }

  lemma {:induction false} WordSplits(options: Options, ws: seq<string>)
    requires ws != [] && !IsOption(ws[0])
    ensures Splits(ws, ParseWord(options, ws))
    decreases |ws|, 0, 0
  {
    var p := ParseWords(options, ws[1..]);
    ParseSplits(options, ws[1..]);
    match options.order {
      case Permute => SplitsSkip(ws, p);
      case Stop => SplitsNothing(ws);
      case InOrder =>
        SplitsConsume(ws, p);
        SplitsAnswer(ws, Word(ws[0]), Consume(ws[0], p));
    }
  }

  lemma {:induction false} LettersSplit(options: Options, letters: string, ws: seq<string>)
    requires ws != []
    ensures Splits(ws, ParseLetters(options, letters, ws))
    decreases |ws|, 0, |letters|
  {
    ParseSplits(options, ws[1..]);
    SplitsConsume(ws, ParseWords(options, ws[1..]));
    if letters == "" {
    } else {
      var c, more := letters[0], letters[1..];
      LettersSplit(options, more, ws);
      match KindOf(options, c) {
        case Unknown => SplitsAnswer(ws, BadLetter(c), ParseLetters(options, more, ws));
        case Flag => SplitsAnswer(ws, Opt(c, None), ParseLetters(options, more, ws));
        case Optional =>
          SplitsAnswer(ws, Opt(c, if more == "" then None else Some(more)),
                       Consume(ws[0], ParseWords(options, ws[1..])));
        case Required => RequiredSplits(options, c, more, ws);
        case LongOption => LongOptionSplits(c, more, ws);
      }
    }
  }

  lemma LongOptionSplits(c: char, more: string, ws: seq<string>)
    requires ws != []
    ensures Splits(ws, TakeLong(c, more, ws))
  {
    if more != "" {
      SplitsStop(ws);
    } else if |ws| == 1 {
      SplitsConsume(ws, NOTHING);
      SplitsAnswer(ws, MissingArg(c), Consume(ws[0], NOTHING));
    } else {
      SplitsStopNext(ws);
    }
  }

  lemma {:induction false} RequiredSplits(options: Options, c: char, more: string, ws: seq<string>)
    requires ws != []
    ensures Splits(ws, TakeArgument(options, c, more, ws))
    decreases |ws|, 0, 0
  {
    if more != "" {
      ParseSplits(options, ws[1..]);
      SplitsConsume(ws, ParseWords(options, ws[1..]));
      SplitsAnswer(ws, Opt(c, Some(more)), Consume(ws[0], ParseWords(options, ws[1..])));
    } else if |ws| == 1 {
      SplitsConsume(ws, NOTHING);
      SplitsAnswer(ws, MissingArg(c), Consume(ws[0], NOTHING));
    } else {
      var last := ParseWords(options, ws[2..]);
      ParseSplits(options, ws[2..]);
      assert ws[2..] == ws[1..][1..];
      SplitsConsume(ws[1..], last);
      SplitsConsume(ws, Consume(ws[1], last));
      SplitsAnswer(ws, Opt(c, Some(ws[1])), Consume(ws[0], Consume(ws[1], last)));
    }
  }

  lemma {:induction false} InterleavesAlone(o: seq<string>, s: seq<string>)
    requires Interleaves(o, [], s)
    ensures o == s
  {
    if s == [] {
    } else {
      InterleavesAlone(o[1..], s[1..]);
      assert o == [o[0]] + o[1..] && s == [s[0]] + s[1..];
    }
  }

  lemma {:induction false} NoneSkipped(options: Options, ws: seq<string>)
    requires options.order != Permute
    ensures ParseWords(options, ws).nonopts == []
    decreases |ws|, 1, 0
  {
    if ws == [] {
    } else if !IsOption(ws[0]) {
      NoneSkipped(options, ws[1..]);
    } else if !EndsOptions(ws[0]) {
      NoneSkippedInLetters(options, Letters(ws[0]), ws);
    }
  }

  lemma {:induction false} NoneSkippedInLetters(options: Options, letters: string, ws: seq<string>)
    requires options.order != Permute && ws != []
    ensures ParseLetters(options, letters, ws).nonopts == []
    decreases |ws|, 0, |letters|
  {
    NoneSkipped(options, ws[1..]);
    if |ws| >= 2 { NoneSkipped(options, ws[2..]); }
    if letters != "" { NoneSkippedInLetters(options, letters[1..], ws); }
  }

  /** Without permuting, the words keep their order. */
  lemma KeepsOrder(options: Options, ws: seq<string>)
    requires options.order != Permute
    ensures var p := ParseWords(options, ws); p.nonopts == [] && p.opts + p.rest == ws
  {
    var p := ParseWords(options, ws);
    ParseSplits(options, ws);
    NoneSkipped(options, ws);
    InterleavesAlone(p.opts, ws[..|ws| - |p.rest|]);
  }
}
