/** Command lines as they are written: items put together from the characters of the option string. */
module OptionItems {
  import opened Common
  import opened OptionGrammar

  // ---- the option string by its characters ----

  /** n is the place of the first c in the option string. */
  predicate FirstAt(letters: string, c: char, n: int) {
    0 <= n < |letters| && letters[n] == c && c !in letters[..n]
  }

  /** In the option string the first c is followed by t. */
  ghost predicate Followed(letters: string, c: char, t: string) {
    exists n :: FirstAt(letters, c, n) && t <= letters[n + 1..]
  }

  /** A letter takes an argument if a colon follows it, and can do without if two do. */
  ghost predicate TakesArgument(letters: string, c: char) {
    c != ':' && Followed(letters, c, ":")
  }

  ghost predicate CanDoWithout(letters: string, c: char) {
    c != ':' && Followed(letters, c, "::")
  }

  ghost predicate IsLong(letters: string, c: char) {
    c == 'W' && Followed(letters, c, ";")
  }

  /** A letter that stands for itself: known without an argument, or not known at all. */
  ghost predicate Simple(letters: string, c: char) {
    !TakesArgument(letters, c) && !IsLong(letters, c)
  }

  lemma FirstIsIndex(letters: string, c: char, n: int)
    requires FirstAt(letters, c, n)
    ensures n == IndexOf(letters, c)
  {
  }

  lemma FollowedAt(letters: string, c: char, t: string)
    ensures var i := IndexOf(letters, c); Followed(letters, c, t) <==> i < |letters| && t <= letters[i + 1..]
  {
    var i := IndexOf(letters, c);
    if Followed(letters, c, t) {
      var n :| FirstAt(letters, c, n) && t <= letters[n + 1..];
      FirstIsIndex(letters, c, n);
    }
    if i < |letters| { assert FirstAt(letters, c, i); }
  }

  /** The kinds of letters by what follows them. */
  lemma KindExactly(options: Options, c: char)
    ensures KindOf(options, c) == Unknown <==> c == ':' || c !in options.letters
    ensures KindOf(options, c) == LongOption <==> IsLong(options.letters, c)
    ensures KindOf(options, c) == Optional <==> CanDoWithout(options.letters, c)
    ensures KindOf(options, c) == Required <==> TakesArgument(options.letters, c) && !CanDoWithout(options.letters, c)
    ensures CanDoWithout(options.letters, c) ==> TakesArgument(options.letters, c)
    ensures IsLong(options.letters, c) ==> !TakesArgument(options.letters, c)
  {
    var s := options.letters;
    var i := IndexOf(s, c);
    FollowedAt(s, c, ":");
    FollowedAt(s, c, "::");
    FollowedAt(s, c, ";");
    assert c in s <==> i < |s| by { if i == |s| { assert s[..i] == s; } }
    if i < |s| {
      var b := s[i + 1..];
      assert ":" <= b <==> i + 1 < |s| && s[i + 1] == ':';
      assert ";" <= b <==> i + 1 < |s| && s[i + 1] == ';';
      assert "::" <= b <==> i + 2 < |s| && s[i + 1] == ':' && s[i + 2] == ':';
    }
  }

  /** The scan stops at the first word that is no option. */
  predicate StopsAtWords(s: string, posix: bool) {
    posix || (s != "" && s[0] == '+')
  }

  /** Words that are no options are answered where they stand. */
  predicate AnswersWords(s: string, posix: bool) {
    !posix && s != "" && s[0] == '-'
  }

  /** The option string without the mark in front of it. */
  function Usable(s: string): string {
    if s != "" && (s[0] == '+' || s[0] == '-') then s[1..] else s
  }

  lemma OptionsExactly(s: string, posix: bool)
    ensures OptionsOf(s, posix).letters == Usable(s)
    ensures OptionsOf(s, posix).order == Stop <==> StopsAtWords(s, posix)
    ensures OptionsOf(s, posix).order == InOrder <==> AnswersWords(s, posix)
  {
  }

  // ---- items ----

  /**
   * A word that is no option; letters that stand for themselves; such letters and a letter with its argument in the
   * same word, or with the next word as its argument.
   */
  datatype Item =
    | Plain(word: string)
    | Cluster(flags: string)
    | Attached(flags: string, letter: char, arg: string)
    | Separate(flags: string, letter: char, arg: string)

  /** How the options end: with the line, with a pair of dashes, at a word, in a letter that lacks its argument, or in
   *  a long option. */
  datatype Ending =
    | NoMore
    | Dashes(word: string, rest: seq<string>)
    | AtWord(rest: seq<string>)
    | Lacking(flags: string, letter: char)
    | LongHere(flags: string, name: string, rest: seq<string>)
    | LongNext(flags: string, name: string, rest: seq<string>)

  /** The word with these letters; the letter of a lone dash is the dash. */
  function OptionWord(letters: string): string {
    if letters == "-" then "-" else "-" + letters
  }

  /** Letters that can stand behind a dash. */
  predicate Lettered(letters: string) {
    letters != "" && (letters == "-" || letters[0] != '-')
  }

  predicate NoOption(w: string) {
    w == "" || w[0] != '-'
  }

  ghost predicate AllSimple(letters: string, flags: string) {
    forall i :: 0 <= i < |flags| ==> Simple(letters, flags[i])
  }

  ghost predicate ValidItem(s: string, posix: bool, item: Item) {
    var letters := Usable(s);
    match item
    case Plain(w) => NoOption(w) && !StopsAtWords(s, posix)
    case Cluster(flags) => Lettered(flags) && AllSimple(letters, flags)
    case Attached(flags, c, arg) =>
      && Lettered(flags + [c] + arg) && AllSimple(letters, flags) && TakesArgument(letters, c)
      && (arg == "" ==> CanDoWithout(letters, c))
    case Separate(flags, c, arg) =>
      Lettered(flags + [c]) && AllSimple(letters, flags) && TakesArgument(letters, c) && !CanDoWithout(letters, c)
  }

  ghost predicate ValidEnding(s: string, posix: bool, end: Ending) {
    var letters := Usable(s);
    match end
    case NoMore => true
    case Dashes(w, rest) => |w| >= 2 && w[..2] == "--"
    case AtWord(rest) => rest != [] && NoOption(rest[0]) && StopsAtWords(s, posix)
    case Lacking(flags, c) =>
      && Lettered(flags + [c]) && AllSimple(letters, flags)
      && (IsLong(letters, c) || (TakesArgument(letters, c) && !CanDoWithout(letters, c)))
    case LongHere(flags, name, rest) =>
      Lettered(flags + ['W'] + name) && AllSimple(letters, flags) && IsLong(letters, 'W') && name != ""
    case LongNext(flags, name, rest) => Lettered(flags + ['W']) && AllSimple(letters, flags) && IsLong(letters, 'W')
  }

  function ItemWords(item: Item): seq<string> {
    match item
    case Plain(w) => [w]
    case Cluster(flags) => [OptionWord(flags)]
    case Attached(flags, c, arg) => [OptionWord(flags + [c] + arg)]
    case Separate(flags, c, arg) => [OptionWord(flags + [c]), arg]
  }

  /** The words of the options at the end, and those after them. */
  function EndingWords(end: Ending): seq<string> {
    match end
    case NoMore => []
    case Dashes(w, rest) => [w]
    case AtWord(rest) => []
    case Lacking(flags, c) => [OptionWord(flags + [c])]
    case LongHere(flags, name, rest) => [OptionWord(flags + ['W'] + name)]
    case LongNext(flags, name, rest) => [OptionWord(flags + ['W']), name]
  }

  function RestOf(end: Ending): seq<string> {
    if end.NoMore? || end.Lacking? then [] else end.rest
  }

  function FlagEvents(letters: string, flags: string): seq<Event> {
    if flags == "" then []
    else
      [if flags[0] == ':' || flags[0] !in letters then BadLetter(flags[0]) else Opt(flags[0], None)]
      + FlagEvents(letters, flags[1..])
  }

  function ItemEvents(s: string, posix: bool, item: Item): seq<Event> {
    var letters := Usable(s);
    match item
    case Plain(w) => if AnswersWords(s, posix) then [Word(w)] else []
    case Cluster(flags) => FlagEvents(letters, flags)
    case Attached(flags, c, arg) => FlagEvents(letters, flags) + [Opt(c, if arg == "" then None else Some(arg))]
    case Separate(flags, c, arg) => FlagEvents(letters, flags) + [Opt(c, Some(arg))]
  }

  function EndingEvents(s: string, end: Ending): seq<Event> {
    match end
    case NoMore => []
    case Dashes(_, _) => []
    case AtWord(_) => []
    case Lacking(flags, c) => FlagEvents(Usable(s), flags) + [MissingArg(c)]
    case LongHere(flags, _, _) => FlagEvents(Usable(s), flags)
    case LongNext(flags, _, _) => FlagEvents(Usable(s), flags)
  }

  /** A plain word is moved behind the options unless it is answered. */
  predicate Moves(s: string, posix: bool, item: Item) {
    item.Plain? && !AnswersWords(s, posix)
  }

  /** The meaning of a line with an item in front. */
  function With(s: string, posix: bool, item: Item, p: Parse): Parse {
    var words := ItemWords(item);
    if Moves(s, posix, item) then Parse(p.events, p.opts, words + p.nonopts, p.rest)
    else Parse(ItemEvents(s, posix, item) + p.events, words + p.opts, p.nonopts, p.rest)
  }

  /** What a line of items and an ending means. */
  function Meaning(s: string, posix: bool, items: seq<Item>, end: Ending): Parse {
    if items == [] then Parse(EndingEvents(s, end), EndingWords(end), [], RestOf(end))
    else With(s, posix, items[0], Meaning(s, posix, items[1..], end))
  }

  function Written(items: seq<Item>, end: Ending): seq<string> {
    if items == [] then EndingWords(end) + RestOf(end) else ItemWords(items[0]) + Written(items[1..], end)
  }

  ghost predicate Valid(s: string, posix: bool, items: seq<Item>, end: Ending) {
    (forall i :: 0 <= i < |items| ==> ValidItem(s, posix, items[i])) && ValidEnding(s, posix, end)
  }

  // ---- a written line is read as it is meant ----

  function AnswerAll(es: seq<Event>, p: Parse): Parse {
    p.(events := es + p.events)
  }

  lemma {:induction false} FlagsRead(o: Options, flags: string, tail: string, ws: seq<string>)
    requires ws != [] && AllSimple(o.letters, flags)
    ensures ParseLetters(o, flags + tail, ws) == AnswerAll(FlagEvents(o.letters, flags), ParseLetters(o, tail, ws))
    decreases |flags|
  {
    var rest := ParseLetters(o, tail, ws);
    if flags == "" {
      assert flags + tail == tail && [] + rest.events == rest.events;
    } else {
      var c, all := flags[0], flags + tail;
      KindExactly(o, c);
      assert all[0] == c && all[1..] == flags[1..] + tail;
      FlagsRead(o, flags[1..], tail, ws);
      var e := if c == ':' || c !in o.letters then BadLetter(c) else Opt(c, None);
      assert ParseLetters(o, all, ws) == Answer(e, ParseLetters(o, all[1..], ws));
      Associative([e], FlagEvents(o.letters, flags[1..]), rest.events);
    }
  }

  lemma OptionWordLetters(letters: string)
    requires Lettered(letters)
    ensures var w := OptionWord(letters); IsOption(w) && !EndsOptions(w) && Letters(w) == letters
  {
    var w := OptionWord(letters);
    if letters != "-" { assert w[1] == letters[0] && w[1..] == letters; }
  }

  /** A word of flags and a tail, with the words after it. */
  lemma OptionWordRead(o: Options, flags: string, tail: string, more: seq<string>)
    requires Lettered(flags + tail) && AllSimple(o.letters, flags)
    ensures var ws := [OptionWord(flags + tail)] + more;
            ParseWords(o, ws) == AnswerAll(FlagEvents(o.letters, flags), ParseLetters(o, tail, ws))
  {
    var ws := [OptionWord(flags + tail)] + more;
    OptionWordLetters(flags + tail);
    assert ParseWords(o, ws) == ParseLetters(o, flags + tail, ws);
    FlagsRead(o, flags, tail, ws);
  }

  lemma WordRest(w: string, more: seq<string>)
    ensures ([w] + more)[0] == w && ([w] + more)[1..] == more
  {
  }

  lemma ClusterRead(o: Options, flags: string, more: seq<string>)
    requires Lettered(flags) && AllSimple(o.letters, flags)
    ensures ParseWords(o, [OptionWord(flags)] + more) ==
            AnswerAll(FlagEvents(o.letters, flags), Consume(OptionWord(flags), ParseWords(o, more)))
  {
    assert flags + "" == flags;
    WordRest(OptionWord(flags), more);
    OptionWordRead(o, flags, "", more);
  }

  lemma AttachedRead(o: Options, flags: string, c: char, arg: string, more: seq<string>)
    requires Lettered(flags + [c] + arg) && AllSimple(o.letters, flags) && TakesArgument(o.letters, c)
    requires arg == "" ==> CanDoWithout(o.letters, c)
    ensures var w := OptionWord(flags + [c] + arg);
            ParseWords(o, [w] + more) ==
            AnswerAll(FlagEvents(o.letters, flags),
                      Answer(Opt(c, if arg == "" then None else Some(arg)), Consume(w, ParseWords(o, more))))
  {
    var w := OptionWord(flags + [c] + arg);
    var tail := [c] + arg;
    Associative(flags, [c], arg);
    WordRest(w, more);
    OptionWordRead(o, flags, tail, more);
    KindExactly(o, c);
    assert tail[0] == c && tail[1..] == arg;
  }

  lemma SeparateRead(o: Options, flags: string, c: char, arg: string, more: seq<string>)
    requires Lettered(flags + [c]) && AllSimple(o.letters, flags)
    requires TakesArgument(o.letters, c) && !CanDoWithout(o.letters, c)
    ensures var w := OptionWord(flags + [c]);
            ParseWords(o, [w, arg] + more) ==
            AnswerAll(FlagEvents(o.letters, flags),
                      Answer(Opt(c, Some(arg)), Consume(w, Consume(arg, ParseWords(o, more)))))
  {
    var w := OptionWord(flags + [c]);
    var ws := [w, arg] + more;
    assert ws == [w] + ([arg] + more) && ws[1] == arg && ws[2..] == more;
    OptionWordRead(o, flags, [c], [arg] + more);
    KindExactly(o, c);
    assert [c][1..] == "";
    assert ParseLetters(o, [c], ws) == TakeArgument(o, c, "", ws);
  }

  lemma PlainRead(s: string, posix: bool, w: string, more: seq<string>)
    requires ValidItem(s, posix, Plain(w))
    ensures var o := OptionsOf(s, posix); ParseWords(o, [w] + more) == With(s, posix, Plain(w), ParseWords(o, more))
  {
    var o := OptionsOf(s, posix);
    OptionsExactly(s, posix);
    WordRest(w, more);
    assert ParseWords(o, [w] + more) == ParseWord(o, [w] + more);
  }

  lemma AnsweredLast(es: seq<Event>, e: Event, p: Parse, words: seq<string>, q: Parse)
    requires q == AnswerAll(es, Answer(e, p.(opts := words + p.opts)))
    ensures q == Parse(es + [e] + p.events, words + p.opts, p.nonopts, p.rest)
  {
    Associative(es, [e], p.events);
  }

  lemma ClusterItem(s: string, posix: bool, item: Item, more: seq<string>)
    requires item.Cluster? && ValidItem(s, posix, item)
    ensures var o := OptionsOf(s, posix);
            ParseWords(o, ItemWords(item) + more) == With(s, posix, item, ParseWords(o, more))
  {
    OptionsExactly(s, posix);
    ClusterRead(OptionsOf(s, posix), item.flags, more);
  }

  lemma AttachedItem(s: string, posix: bool, item: Item, more: seq<string>)
    requires item.Attached? && ValidItem(s, posix, item)
    ensures var o := OptionsOf(s, posix);
            ParseWords(o, ItemWords(item) + more) == With(s, posix, item, ParseWords(o, more))
  {
    var o := OptionsOf(s, posix);
    var e := Opt(item.letter, if item.arg == "" then None else Some(item.arg));
    OptionsExactly(s, posix);
    AttachedRead(o, item.flags, item.letter, item.arg, more);
    AnsweredLast(FlagEvents(o.letters, item.flags), e, ParseWords(o, more), ItemWords(item),
                 ParseWords(o, ItemWords(item) + more));
  }

  lemma SeparateItem(s: string, posix: bool, item: Item, more: seq<string>)
    requires item.Separate? && ValidItem(s, posix, item)
    ensures var o := OptionsOf(s, posix);
            ParseWords(o, ItemWords(item) + more) == With(s, posix, item, ParseWords(o, more))
  {
    var o := OptionsOf(s, posix);
    var p, w, arg := ParseWords(o, more), OptionWord(item.flags + [item.letter]), item.arg;
    OptionsExactly(s, posix);
    SeparateRead(o, item.flags, item.letter, arg, more);
    assert [w] + ([arg] + p.opts) == [w, arg] + p.opts;
    AnsweredLast(FlagEvents(o.letters, item.flags), Opt(item.letter, Some(arg)), p, [w, arg],
                 ParseWords(o, [w, arg] + more));
  }

  /** An item in front. */
  lemma ItemRead(s: string, posix: bool, item: Item, more: seq<string>)
    requires ValidItem(s, posix, item)
    ensures var o := OptionsOf(s, posix);
            ParseWords(o, ItemWords(item) + more) == With(s, posix, item, ParseWords(o, more))
  {
    match item {
      case Plain(w) => PlainRead(s, posix, w, more);
      case Cluster(_) => ClusterItem(s, posix, item, more);
      case Attached(_, _, _) => AttachedItem(s, posix, item, more);
      case Separate(_, _, _) => SeparateItem(s, posix, item, more);
    }
  }

  lemma LackingRead(o: Options, flags: string, c: char)
    requires Lettered(flags + [c]) && AllSimple(o.letters, flags)
    requires IsLong(o.letters, c) || (TakesArgument(o.letters, c) && !CanDoWithout(o.letters, c))
    ensures ParseWords(o, [OptionWord(flags + [c])]) ==
            Parse(FlagEvents(o.letters, flags) + [MissingArg(c)], [OptionWord(flags + [c])], [], [])
  {
    var w := OptionWord(flags + [c]);
    OptionWordRead(o, flags, [c], []);
    KindExactly(o, c);
    assert [w] + [] == [w] && [c][1..] == "";
    assert ParseLetters(o, [c], [w]) == Answer(MissingArg(c), Consume(w, NOTHING));
  }

  lemma LongHereRead(o: Options, flags: string, name: string, rest: seq<string>)
    requires Lettered(flags + ['W'] + name) && AllSimple(o.letters, flags) && IsLong(o.letters, 'W') && name != ""
    ensures var w := OptionWord(flags + ['W'] + name);
            ParseWords(o, [w] + rest) == Parse(FlagEvents(o.letters, flags), [w], [], rest)
  {
    var w := OptionWord(flags + ['W'] + name);
    var ws, tail := [w] + rest, ['W'] + name;
    Associative(flags, ['W'], name);
    OptionWordRead(o, flags, tail, rest);
    KindExactly(o, 'W');
    WordRest(w, rest);
    assert tail[0] == 'W' && tail[1..] == name && ws[..1] == [w];
    assert ParseLetters(o, tail, ws) == TakeLong('W', name, ws);
    assert FlagEvents(o.letters, flags) + [] == FlagEvents(o.letters, flags);
  }

  lemma LongNextRead(o: Options, flags: string, name: string, rest: seq<string>)
    requires Lettered(flags + ['W']) && AllSimple(o.letters, flags) && IsLong(o.letters, 'W')
    ensures var w := OptionWord(flags + ['W']);
            ParseWords(o, [w, name] + rest) == Parse(FlagEvents(o.letters, flags), [w, name], [], rest)
  {
    var w := OptionWord(flags + ['W']);
    var ws := [w, name] + rest;
    assert ws == [w] + ([name] + rest) && ws[..2] == [w, name] && ws[2..] == rest;
    OptionWordRead(o, flags, ['W'], [name] + rest);
    KindExactly(o, 'W');
    assert ['W'][1..] == "";
    assert ParseLetters(o, ['W'], ws) == TakeLong('W', "", ws);
    assert FlagEvents(o.letters, flags) + [] == FlagEvents(o.letters, flags);
  }

  lemma EndingRead(s: string, posix: bool, end: Ending)
    requires ValidEnding(s, posix, end)
    ensures ParseWords(OptionsOf(s, posix), EndingWords(end) + RestOf(end)) ==
            Parse(EndingEvents(s, end), EndingWords(end), [], RestOf(end))
  {
    var o := OptionsOf(s, posix);
    OptionsExactly(s, posix);
    match end {
      case NoMore =>
      case Dashes(w, rest) =>
        WordRest(w, rest);
        assert w[..2][0] == '-' && w[..2][1] == '-' && ([w] + rest)[..1] == [w];
      case AtWord(rest) =>
        assert [] + rest == rest && ParseWords(o, rest) == ParseWord(o, rest);
      case Lacking(flags, c) =>
        LackingRead(o, flags, c);
        assert EndingWords(end) + [] == EndingWords(end);
      case LongHere(flags, name, rest) =>
        LongHereRead(o, flags, name, rest);
      case LongNext(flags, name, rest) =>
        LongNextRead(o, flags, name, rest);
    }
  }

  /** A line that was written from items is read as what they mean. */
  lemma {:induction false} WrittenIsRead(s: string, posix: bool, items: seq<Item>, end: Ending)
    requires Valid(s, posix, items, end)
    ensures ParseWords(OptionsOf(s, posix), Written(items, end)) == Meaning(s, posix, items, end)
    decreases |items|
  {
    if items == [] {
      EndingRead(s, posix, end);
    } else {
      assert ValidItem(s, posix, items[0]);
      WrittenIsRead(s, posix, items[1..], end);
      ItemRead(s, posix, items[0], Written(items[1..], end));
    }
  }

  // ---- every line is written from items ----

  lemma {:induction false} SplitFlags(letters: string, word: string) returns (flags: string, tail: string)
    ensures word == flags + tail && AllSimple(letters, flags) && (tail == "" || !Simple(letters, tail[0]))
    decreases |word|
  {
    if word == "" || !Simple(letters, word[0]) {
      flags, tail := "", word;
    } else {
      flags, tail := SplitFlags(letters, word[1..]);
      assert word == [word[0]] + word[1..];
      Associative([word[0]], flags, tail);
      flags := [word[0]] + flags;
    }
  }

  lemma OptionWordOf(w: string)
    requires IsOption(w) && !EndsOptions(w)
    ensures Lettered(Letters(w)) && OptionWord(Letters(w)) == w
  {
    if |w| >= 2 { assert w == "-" + w[1..]; }
  }

  /** The first item of a line, or its ending. */
  datatype Start = Begins(item: Item, more: seq<string>) | Ends(end: Ending)

  ghost predicate StartOf(s: string, posix: bool, ws: seq<string>, start: Start) {
    match start
    case Begins(item, more) => ValidItem(s, posix, item) && ws == ItemWords(item) + more && |more| < |ws|
    case Ends(end) => ValidEnding(s, posix, end) && ws == EndingWords(end) + RestOf(end)
  }

  lemma OptionStarts(s: string, posix: bool, ws: seq<string>) returns (start: Start)
    requires ws != [] && IsOption(ws[0]) && !EndsOptions(ws[0])
    ensures StartOf(s, posix, ws, start)
  {
    var letters := Usable(s);
    var w, more := ws[0], ws[1..];
    OptionWordOf(w);
    var flags, tail := SplitFlags(letters, Letters(w));
    assert ws == [w] + more;
    if tail == "" {
      assert flags + tail == flags;
      start := Begins(Cluster(flags), more);
    } else {
      var c, arg := tail[0], tail[1..];
      assert tail == [c] + arg;
      Associative(flags, [c], arg);
      KindExactly(OptionsOf(s, posix), c);
      OptionsExactly(s, posix);
      start := LetterStarts(s, posix, ws, flags, c, arg);
    }
  }

  lemma LetterStarts(s: string, posix: bool, ws: seq<string>, flags: string, c: char, arg: string)
      returns (start: Start)
    requires ws != [] && Lettered(flags + [c] + arg) && ws[0] == OptionWord(flags + [c] + arg)
    requires AllSimple(Usable(s), flags) && !Simple(Usable(s), c)
    ensures StartOf(s, posix, ws, start)
  {
    var letters := Usable(s);
    KindExactly(Options(letters, Permute), c);
    assert flags + [c] + "" == flags + [c];
    assert ws == [ws[0]] + ws[1..];
    if IsLong(letters, c) {
      if arg != "" {
        start := Ends(LongHere(flags, arg, ws[1..]));
      } else if |ws| == 1 {
        start := Ends(Lacking(flags, c));
      } else {
        assert ws == [ws[0], ws[1]] + ws[2..];
        start := Ends(LongNext(flags, ws[1], ws[2..]));
      }
    } else if arg != "" || CanDoWithout(letters, c) {
      start := Begins(Attached(flags, c, arg), ws[1..]);
    } else if |ws| == 1 {
      start := Ends(Lacking(flags, c));
    } else {
      assert ws == [ws[0], ws[1]] + ws[2..];
      start := Begins(Separate(flags, c, ws[1]), ws[2..]);
    }
  }

  lemma LineStarts(s: string, posix: bool, ws: seq<string>) returns (start: Start)
    ensures StartOf(s, posix, ws, start)
  {
    if ws == [] {
      start := Ends(NoMore);
    } else {
      assert ws == [ws[0]] + ws[1..];
      if !IsOption(ws[0]) {
        if StopsAtWords(s, posix) {
          start := Ends(AtWord(ws));
        } else {
          start := Begins(Plain(ws[0]), ws[1..]);
        }
      } else if EndsOptions(ws[0]) {
        assert ws[0][..2] == "--";
        start := Ends(Dashes(ws[0], ws[1..]));
      } else {
        start := OptionStarts(s, posix, ws);
      }
    }
  }

  /** Every command line is written from valid items. */
  lemma {:induction false} EveryLine(s: string, posix: bool, ws: seq<string>) returns (items: seq<Item>, end: Ending)
    ensures Valid(s, posix, items, end) && Written(items, end) == ws
    decreases |ws|
  {
    var start := LineStarts(s, posix, ws);
    match start {
      case Ends(e) =>
        items, end := [], e;
      case Begins(item, more) =>
        items, end := EveryLine(s, posix, more);
        var rest := items;
        items := [item] + items;
        assert items[1..] == rest;
    }
  }

  /** What a line means by its items, whichever way it is written from them. */
  ghost predicate Means(s: string, posix: bool, ws: seq<string>, p: Parse) {
    exists items, end :: Valid(s, posix, items, end) && Written(items, end) == ws && p == Meaning(s, posix, items, end)
  }

  /** A parse is what the line means, and nothing else is. */
  lemma ParseExactly(s: string, posix: bool, ws: seq<string>, p: Parse)
    ensures Means(s, posix, ws, p) <==> p == ParseWords(OptionsOf(s, posix), ws)
  {
    var items, end := EveryLine(s, posix, ws);
    WrittenIsRead(s, posix, items, end);
    forall given, e | Valid(s, posix, given, e) && Written(given, e) == ws
      ensures Meaning(s, posix, given, e) == ParseWords(OptionsOf(s, posix), ws)
    {
      WrittenIsRead(s, posix, given, e);
    }
  }
}
