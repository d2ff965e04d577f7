/** The option scanner: a state machine that moves skipped words behind the options as it goes. */
module Getopt {
  import opened Common
  import opened OptionGrammar
  import OptionItems
  import PermuteArgs

  /** The scanner's position: the word at optind, the letters left in it, and the block of skipped words. */
  datatype Cursor = Cursor(optind: int, place: string, start: int, end: int)

  /**
   * Before optind, the words are options up to start, skipped words up to end, then options again;
   * start is -1 when nothing was skipped, and end is -1 while no option has followed.
   */
  ghost predicate CursorOk(c: Cursor, n: nat) {
    && 1 <= c.optind <= n
    && (c.start == -1 ==> c.end == -1)
    && (c.start != -1 ==> 1 <= c.start && if c.end == -1 then c.start < c.optind else c.start < c.end <= c.optind)
    && (c.place == "" && c.end != -1 ==> c.end < c.optind)
    && (c.place != "" ==> c.optind < n && (c.start != -1 ==> c.end != -1))
  }

  ghost function Consumed(c: Cursor, a: seq<string>): seq<string>
    requires CursorOk(c, |a|)
  {
    if c.start == -1 then a[1..c.optind]
    else if c.end == -1 then a[1..c.start]
    else a[1..c.start] + a[c.end..c.optind]
  }

  ghost function Skipped(c: Cursor, a: seq<string>): seq<string>
    requires CursorOk(c, |a|)
  {
    if c.start == -1 then [] else if c.end == -1 then a[c.start..c.optind] else a[c.start..c.end]
  }

  /** What is still to be read. */
  ghost function Pending(c: Cursor, a: seq<string>, options: Options): Parse
    requires CursorOk(c, |a|)
  {
    if c.place == "" then ParseWords(options, a[c.optind..]) else ParseLetters(options, c.place, a[c.optind..])
  }

  ghost function Extend(o: seq<string>, n: seq<string>, p: Parse): Parse {
    Parse(p.events, o + p.opts, n + p.nonopts, p.rest)
  }

  /** What the whole command line will have meant, seen from a position in it. */
  ghost function Outcome(c: Cursor, a: seq<string>, options: Options): Parse
    requires CursorOk(c, |a|)
  {
    Extend(Consumed(c, a), Skipped(c, a), Pending(c, a, options))
  }

  /** The scan has ended at c, with outcome t. */
  ghost predicate EndedAt(c: Cursor, a: seq<string>, t: Parse) {
    CursorOk(c, |a|) && t == Parse([], Consumed(c, a), Skipped(c, a), a[c.optind..])
  }

  /** The vector holds the program name, the consumed words, the skipped ones, and the rest. */
  ghost predicate Arranged(a: seq<string>, optind: int, t: Parse) {
    a != [] && a == a[..1] + t.opts + t.nonopts + t.rest && optind == 1 + |t.opts|
  }

  /** Exchanging the skipped words with the options after them. */
  lemma Exchanged(a: seq<string>, a': seq<string>, c: Cursor)
    requires CursorOk(c, |a|) && c.start != -1 && c.end != -1 && c.end < c.optind
    requires a' == a[..c.start] + a[c.end..c.optind] + a[c.start..c.end] + a[c.optind..]
    ensures var first := c.optind - (c.end - c.start);
            && |a'| == |a| && a'[..1] == a[..1] && a'[1..first] == Consumed(c, a)
            && a'[first..c.optind] == Skipped(c, a) && a'[c.optind..] == a[c.optind..]
  {}

  lemma SameOutcome(c: Cursor, a: seq<string>, c': Cursor, a': seq<string>, options: Options)
    requires CursorOk(c, |a|) && CursorOk(c', |a'|) && c.place == c'.place
    requires Consumed(c, a) == Consumed(c', a') && Skipped(c, a) == Skipped(c', a')
    requires a[c.optind..] == a'[c'.optind..]
    ensures Outcome(c, a, options) == Outcome(c', a', options)
  {}

  /** Moving the skipped words next to the position changes nothing of the outcome. */
  lemma Regrouped(a: seq<string>, a': seq<string>, c: Cursor, options: Options)
    requires CursorOk(c, |a|) && c.place == "" && c.end != -1
    requires a' == a[..c.start] + a[c.end..c.optind] + a[c.start..c.end] + a[c.optind..]
    ensures var c' := Cursor(c.optind, "", c.optind - (c.end - c.start), -1);
            && |a'| == |a| && a'[..1] == a[..1] && CursorOk(c', |a'|) && a'[c.optind..] == a[c.optind..]
            && Outcome(c', a', options) == Outcome(c, a, options)
  {
    Exchanged(a, a', c);
    SameOutcome(c, a, Cursor(c.optind, "", c.optind - (c.end - c.start), -1), a', options);
  }

  lemma SkipExtends(c: Cursor, a: seq<string>, options: Options)
    requires options.order == Permute
    requires CursorOk(c, |a|) && c.place == "" && c.end == -1 && c.optind < |a| && !IsOption(a[c.optind])
    ensures var c' := Cursor(c.optind + 1, "", if c.start == -1 then c.optind else c.start, -1);
            CursorOk(c', |a|) && Outcome(c', a, options) == Outcome(c, a, options)
  {
    var c' := Cursor(c.optind + 1, "", if c.start == -1 then c.optind else c.start, -1);
    var w, p := a[c.optind], ParseWords(options, a[c'.optind..]);
    assert a[c.optind..][1..] == a[c'.optind..];
    assert ParseWord(options, a[c.optind..]) == Skip(w, p);
    assert Skipped(c', a) == Skipped(c, a) + [w];
    assert Skipped(c, a) + ([w] + p.nonopts) == Skipped(c', a) + p.nonopts;
  }

  /** A word that is answered in its place. */
  lemma WordInOrder(c: Cursor, a: seq<string>, options: Options)
    requires options.order == InOrder
    requires CursorOk(c, |a|) && c.place == "" && c.start == -1 && c.optind < |a| && !IsOption(a[c.optind])
    ensures Advances(c, a, options, Word(a[c.optind]), Past(c, 1))
  {
    var w, p := a[c.optind], ParseWords(options, a[c.optind + 1..]);
    assert a[c.optind..][1..] == a[c.optind + 1..];
    assert ParseWord(options, a[c.optind..]) == Answer(Word(w), Consume(w, p));
    assert Consumed(Past(c, 1), a) == Consumed(c, a) + [w];
    assert Consumed(c, a) + ([w] + p.opts) == Consumed(Past(c, 1), a) + p.opts;
  }

  /** A word at which the scan stops. */
  lemma WordStops(c: Cursor, a: seq<string>, options: Options)
    requires options.order == Stop
    requires CursorOk(c, |a|) && c.place == "" && c.start == -1 && c.optind < |a| && !IsOption(a[c.optind])
    ensures EndedAt(c, a, Outcome(c, a, options))
  {
    assert ParseWord(options, a[c.optind..]) == Parse([], [], [], a[c.optind..]);
  }

  /** Entering an option word: its letters are still to be read. */
  lemma EnterLetters(c: Cursor, a: seq<string>, options: Options)
    requires CursorOk(c, |a|) && c.place == "" && c.optind < |a| && IsOption(a[c.optind])
    ensures var end := if c.start != -1 && c.end == -1 then c.optind else c.end;
            if EndsOptions(a[c.optind]) then
              EndedAt(Cursor(c.optind + 1, "", c.start, end), a, Outcome(c, a, options))
            else
              var c' := Cursor(c.optind, Letters(a[c.optind]), c.start, end);
              CursorOk(c', |a|) && Outcome(c', a, options) == Outcome(c, a, options)
  {
    var end := if c.start != -1 && c.end == -1 then c.optind else c.end;
    var w := a[c.optind];
    if EndsOptions(w) {
      var c' := Cursor(c.optind + 1, "", c.start, end);
      assert Consumed(c', a) == Consumed(c, a) + a[c.optind..][..1];
      assert a[c.optind..][1..] == a[c'.optind..];
    } else {
      var c' := Cursor(c.optind, Letters(w), c.start, end);
      assert Consumed(c', a) == Consumed(c, a) && Skipped(c', a) == Skipped(c, a);
    }
  }

  ghost function Past(c: Cursor, n: nat): Cursor {
    Cursor(c.optind + n, "", c.start, c.end)
  }

  lemma PastOk(c: Cursor, a: seq<string>, n: nat)
    requires CursorOk(c, |a|) && c.place != "" && 1 <= n && c.optind + n <= |a|
    ensures CursorOk(Past(c, n), |a|) && Skipped(Past(c, n), a) == Skipped(c, a)
    ensures Consumed(Past(c, n), a) == Consumed(c, a) + a[c.optind..][..n]
    ensures a[Past(c, n).optind..] == a[c.optind..][n..]
  {
    var more := a[c.optind..][..n];
    if c.start == -1 {
      assert a[1..c.optind + n] == a[1..c.optind] + more;
    } else {
      assert a[c.end..c.optind + n] == a[c.end..c.optind] + more;
      Associative(a[1..c.start], a[c.end..c.optind], more);
    }
  }

  /** Leaving an option word after its last letter or its argument. */
  lemma LeaveWord(c: Cursor, a: seq<string>, options: Options)
    requires CursorOk(c, |a|) && c.place != ""
    ensures CursorOk(Past(c, 1), |a|)
    ensures Outcome(Past(c, 1), a, options)
         == Extend(Consumed(c, a), Skipped(c, a), Consume(a[c.optind], ParseWords(options, a[c.optind..][1..])))
  {
    PastOk(c, a, 1);
    var ws := a[c.optind..];
    var p := ParseWords(options, ws[1..]);
    assert Consumed(c, a) + ([ws[0]] + p.opts) == Consumed(c, a) + ws[..1] + p.opts;
  }

  lemma LeaveWordAndArgument(c: Cursor, a: seq<string>, options: Options)
    requires CursorOk(c, |a|) && c.place != "" && c.optind + 1 < |a|
    ensures CursorOk(Past(c, 2), |a|)
    ensures Outcome(Past(c, 2), a, options)
         == Extend(Consumed(c, a), Skipped(c, a),
                   Consume(a[c.optind], Consume(a[c.optind + 1], ParseWords(options, a[c.optind..][2..]))))
  {
    PastOk(c, a, 2);
    var ws := a[c.optind..];
    var p := ParseWords(options, ws[2..]);
    assert Consumed(c, a) + ([ws[0]] + ([ws[1]] + p.opts)) == Consumed(c, a) + ws[..2] + p.opts;
  }

  /** An answer from one of the letters of a word. */
  ghost predicate Advances(c: Cursor, a: seq<string>, options: Options, e: Event, c': Cursor)
    requires CursorOk(c, |a|)
  {
    CursorOk(c', |a|) && Outcome(c, a, options) == Answer(e, Outcome(c', a, options))
  }

  /** A letter without an argument. */
  lemma LetterRead(c: Cursor, a: seq<string>, options: Options, e: Event)
    requires CursorOk(c, |a|) && c.place != ""
    requires e == (if KindOf(options, c.place[0]).Unknown? then BadLetter(c.place[0]) else Opt(c.place[0], None))
    requires KindOf(options, c.place[0]).Unknown? || KindOf(options, c.place[0]).Flag?
    ensures Advances(c, a, options, e, if |c.place| == 1 then Past(c, 1) else c.(place := c.place[1..]))
  {
    var more, ws := c.place[1..], a[c.optind..];
    assert ParseLetters(options, c.place, ws) == Answer(e, ParseLetters(options, more, ws));
    if more == "" {
      LeaveWord(c, a, options);
      assert ParseLetters(options, more, ws) == Consume(ws[0], ParseWords(options, ws[1..]));
    } else {
      var c' := c.(place := more);
      assert Consumed(c', a) == Consumed(c, a) && Skipped(c', a) == Skipped(c, a);
    }
  }

  /** A letter whose argument is the rest of the word, or an absent optional argument. */
  lemma ArgumentInWord(c: Cursor, a: seq<string>, options: Options)
    requires CursorOk(c, |a|) && c.place != ""
    requires KindOf(options, c.place[0]).Optional? || (KindOf(options, c.place[0]).Required? && |c.place| > 1)
    ensures var more := c.place[1..];
            Advances(c, a, options, Opt(c.place[0], if more == "" then None else Some(more)), Past(c, 1))
  {
    var more, ws := c.place[1..], a[c.optind..];
    assert ParseLetters(options, c.place, ws)
        == Answer(Opt(c.place[0], if more == "" then None else Some(more)),
                  Consume(ws[0], ParseWords(options, ws[1..])));
    LeaveWord(c, a, options);
  }

  lemma ArgumentInNextWord(c: Cursor, a: seq<string>, options: Options)
    requires CursorOk(c, |a|) && |c.place| == 1 && c.optind + 1 < |a| && KindOf(options, c.place[0]).Required?
    ensures Advances(c, a, options, Opt(c.place[0], Some(a[c.optind + 1])), Past(c, 2))
  {
    var ws := a[c.optind..];
    assert ParseLetters(options, c.place, ws) == TakeArgument(options, c.place[0], "", ws);
    assert ws[0] == a[c.optind] && ws[1] == a[c.optind + 1];
    LeaveWordAndArgument(c, a, options);
  }

  lemma ArgumentMissing(c: Cursor, a: seq<string>, options: Options)
    requires CursorOk(c, |a|) && |c.place| == 1 && c.optind + 1 == |a|
    requires KindOf(options, c.place[0]).Required? || KindOf(options, c.place[0]).LongOption?
    ensures Advances(c, a, options, MissingArg(c.place[0]), Past(c, 1))
  {
    var ws := a[c.optind..];
    assert ParseLetters(options, c.place, ws) == Answer(MissingArg(c.place[0]), Consume(ws[0], NOTHING));
    assert ParseWords(options, ws[1..]) == NOTHING;
    LeaveWord(c, a, options);
  }

  lemma LongOptionEnds(c: Cursor, a: seq<string>, options: Options)
    requires CursorOk(c, |a|) && c.place != "" && KindOf(options, c.place[0]).LongOption?
    requires |c.place| == 1 ==> c.optind + 1 < |a|
    ensures EndedAt(Past(c, if |c.place| == 1 then 2 else 1), a, Outcome(c, a, options))
  {
    var n := if |c.place| == 1 then 2 else 1;
    PastOk(c, a, n);
  }

  /** Where the words are after the end, when no words have to be moved. */
  lemma ArrangedInPlace(c: Cursor, a: seq<string>, t: Parse)
    requires EndedAt(c, a, t) && c.end == -1 && (c.start == -1 || c.optind == |a|)
    ensures Arranged(a, if c.start == -1 then c.optind else c.start, t)
  {}

  /** Where the words are after the last exchange. */
  lemma ArrangedByExchange(c: Cursor, a: seq<string>, a': seq<string>, t: Parse)
    requires EndedAt(c, a, t) && c.place == "" && c.end != -1
    requires a' == a[..c.start] + a[c.end..c.optind] + a[c.start..c.end] + a[c.optind..]
    ensures Arranged(a', c.optind - (c.end - c.start), t) && a'[..1] == a[..1]
  {
    Exchanged(a, a', c);
    var first := c.optind - (c.end - c.start);
    assert a' == a'[..1] + a'[1..first] + a'[first..c.optind] + a'[c.optind..];
  }

  /** Seen from its first word, a command line means what its words mean. */
  lemma StartMeans(c: Cursor, a: seq<string>, options: Options)
    requires CursorOk(c, |a|) && c.optind == 1 && c.place == "" && c.start == -1
    ensures Outcome(c, a, options) == ParseWords(options, a[1..])
  {
    assert a[1..1] == [];
  }

  /** Arranged words are the command line split stably, and in its own order unless words are to be moved. */
  lemma RunArranges(a: seq<string>, a': seq<string>, optind: int, options: Options)
    requires a != [] && a' != [] && a'[..1] == a[..1] && Arranged(a', optind, ParseWords(options, a[1..]))
    ensures var t := ParseWords(options, a[1..]);
            Splits(a[1..], t) && a' == a[..1] + t.opts + t.nonopts + t.rest
    ensures options.order != Permute ==> a' == a
  {
    var t := ParseWords(options, a[1..]);
    ParseSplits(options, a[1..]);
    if options.order != Permute {
      KeepsOrder(options, a[1..]);
      assert a' == a[..1] + (t.opts + t.rest);
    }
  }

  datatype Reply = End | Dashes | Answered(event: Event)

  class Scanner {
    const argv: array<string>
    const options: string
    const posix: bool
    var optind: int
    var optreset: bool
    var optarg: Option<string>
    var place: string
    var nonoptStart: int
    var nonoptEnd: int

    constructor (argv: array<string>, options: string, posix: bool)
      ensures this.argv == argv && this.options == options && this.posix == posix
      ensures Start() == Cursor(1, "", -1, -1)
    {
      this.argv, this.options, this.posix := argv, options, posix;
      optind, optreset, optarg, place := 1, false, None, "";
      nonoptStart, nonoptEnd := -1, -1;
    }

    ghost function At(): Cursor
      reads this
    {
      Cursor(optind, place, nonoptStart, nonoptEnd)
    }

    function Spec(): Options {
      OptionsOf(options, posix)
    }

    /** Words are skipped only to be moved. */
    ghost predicate SkipsOk(c: Cursor) {
      Spec().order != Permute ==> c.start == -1
    }

    ghost predicate Valid()
      reads this, argv
    {
      CursorOk(At(), argv.Length) && SkipsOk(At()) && !optreset
    }

    ghost function Means(): Parse
      reads this, argv
      requires Valid()
    {
      Outcome(At(), argv[..], Spec())
    }

    /** The word at the position ends the options of a line that meant t. */
    ghost predicate AtDashes(t: Parse)
      reads this, argv
    {
      EndedAt(Past(At(), 1), argv[..], t) && (nonoptStart != -1 ==> nonoptEnd != -1)
    }

    /** Nothing is left to answer of a line that meant t, and its words stand arranged. */
    ghost predicate Finished(t: Parse)
      reads this, argv
    {
      t.events == [] && Arranged(argv[..], optind, t) && nonoptStart == nonoptEnd == -1
    }

    /** Move the words skipped earlier next to the position. */
    method Regroup()
      requires Valid() && place == "" && nonoptEnd != -1
      modifies this`nonoptStart, this`nonoptEnd, argv
      ensures Valid() && nonoptEnd == -1 && nonoptStart != -1 && Means() == old(Means())
      ensures argv[..1] == old(argv[..1]) && argv[optind..] == old(argv[optind..])
    {
      ghost var a, c := argv[..], At();
      PermuteArgs.Permute(argv, nonoptStart, nonoptEnd, optind);
      Regrouped(a, argv[..], c, Spec());
      nonoptStart := optind - (nonoptEnd - nonoptStart);
      nonoptEnd := -1;
    }

    /** A word that is not an option is skipped; words skipped earlier are first moved next to it. */
    method SkipWord()
      requires Valid() && Spec().order == Permute && place == "" && optind < argv.Length && !IsOption(argv[optind])
      modifies this`nonoptStart, this`nonoptEnd, this`optind, argv
      ensures Valid() && optind == old(optind) + 1 && Means() == old(Means())
      ensures argv[..1] == old(argv[..1])
    {
      ghost var rest := argv[optind..];
      if nonoptStart == -1 {
        SkipExtends(At(), argv[..], Spec());
        nonoptStart := optind;
      } else {
        if nonoptEnd != -1 {
          Regroup();
          assert argv[optind] == argv[optind..][0] == rest[0];
        }
        SkipExtends(At(), argv[..], Spec());
      }
      optind := optind + 1;
    }

    /** The end of the vector: bring the skipped words to the end. */
    method FinishVector()
      requires Valid() && place == "" && optind == argv.Length
      modifies this`nonoptStart, this`nonoptEnd, this`optind, argv
      ensures old(Means()).events == [] && argv[..1] == old(argv[..1])
      ensures Arranged(argv[..], optind, old(Means())) && nonoptStart == nonoptEnd == -1
    {
      ghost var a, c, t := argv[..], At(), Means();
      assert EndedAt(c, a, t);
      if nonoptEnd != -1 {
        PermuteArgs.Permute(argv, nonoptStart, nonoptEnd, optind);
        ArrangedByExchange(c, a, argv[..], t);
        optind := optind - (nonoptEnd - nonoptStart);
      } else {
        ArrangedInPlace(c, a, t);
        if nonoptStart != -1 {
          optind := nonoptStart;
        }
      }
      nonoptStart, nonoptEnd := -1, -1;
    }

    /** Enter an option word; the result says that it ends the options. */
    method EnterWord() returns (dashes: bool)
      requires Valid() && place == "" && optind < argv.Length && IsOption(argv[optind])
      modifies this`place, this`nonoptEnd
      ensures !dashes ==> Valid() && place != "" && Means() == old(Means())
      ensures dashes ==> AtDashes(old(Means()))
      ensures dashes ==> |argv[optind]| >= 2 && place == argv[optind][2..]
    {
      EnterLetters(At(), argv[..], Spec());
      place := argv[optind];
      if nonoptStart != -1 && nonoptEnd == -1 {
        nonoptEnd := optind;
      }
      if |place| >= 2 {
        place := place[1..];
        if place[0] == '-' {
          place := place[1..];
          return true;
        }
      }
      return false;
    }

    /** A letter without an argument, known or not. */
    method ReadPlain() returns (r: Reply)
      requires Valid() && place != ""
      requires KindOf(Spec(), place[0]).Unknown? || KindOf(Spec(), place[0]).Flag?
      modifies this`place, this`optind
      ensures r.Answered? && !r.event.Word? && Valid() && old(Means()) == Answer(r.event, Means())
      ensures r.event.Opt? ==> r.event.arg == None
    {
      var optchar := place[0];
      var e := if KindOf(Spec(), optchar).Unknown? then BadLetter(optchar) else Opt(optchar, None);
      LetterRead(At(), argv[..], Spec(), e);
      place := place[1..];
      if place == "" { optind := optind + 1; }
      return Answered(e);
    }

    /** A letter that introduces a long option. */
    method ReadLong() returns (r: Reply)
      requires Valid() && place != "" && KindOf(Spec(), place[0]).LongOption?
      modifies this`place, this`optind
      ensures r != End && (r.Answered? ==> r.event.MissingArg?)
      ensures r.Answered? ==> Valid() && old(Means()) == Answer(r.event, Means())
      ensures r.Dashes? ==> AtDashes(old(Means()))
    {
      ghost var c := At();
      var optchar := place[0];
      place := place[1..];
      if place != "" {
        LongOptionEnds(c, argv[..], Spec());
        assert Past(At(), 1) == Past(c, 1);
        return Dashes;
      }
      optind := optind + 1;
      if optind >= argv.Length {
        ArgumentMissing(c, argv[..], Spec());
        assert At() == Past(c, 1);
        return Answered(MissingArg(optchar));
      }
      LongOptionEnds(c, argv[..], Spec());
      place := argv[optind];
      assert Past(At(), 1) == Past(c, 2);
      return Dashes;
    }

    /** The word, and with it the option, ends here. */
    method LeaveOption(ghost c: Cursor, ghost words: nat, e: Event) returns (r: Reply)
      requires CursorOk(c, argv.Length) && SkipsOk(c) && !optreset
      requires Advances(c, argv[..], Spec(), e, Past(c, words))
      requires c.start == nonoptStart && c.end == nonoptEnd && optind + 1 == c.optind + words
      modifies this`place, this`optind
      ensures r == Answered(e) && Valid() && Outcome(c, argv[..], Spec()) == Answer(e, Means())
    {
      place := "";
      optind := optind + 1;
      assert At() == Past(c, words);
      r := Answered(e);
    }

    /** The argument of the last letter of a word is the next word. */
    method TakeNextWord() returns (r: Reply)
      requires Valid() && |place| == 1 && KindOf(Spec(), place[0]).Required?
      modifies this`place, this`optind, this`optarg
      ensures r.Answered? && !r.event.Word? && Valid() && old(Means()) == Answer(r.event, Means())
      ensures optarg == if r.event.Opt? then r.event.arg else None
    {
      ghost var c := At();
      var optchar := place[0];
      place, optarg, optind := "", None, optind + 1;
      if optind >= argv.Length {
        ArgumentMissing(c, argv[..], Spec());
        assert At() == Past(c, 1);
        return Answered(MissingArg(optchar));
      }
      ArgumentInNextWord(c, argv[..], Spec());
      optarg := Some(argv[optind]);
      r := LeaveOption(c, 2, Opt(optchar, optarg));
    }

    /** A letter that takes an argument. */
    method ReadWithArgument() returns (r: Reply)
      requires Valid() && place != ""
      requires KindOf(Spec(), place[0]).Required? || KindOf(Spec(), place[0]).Optional?
      modifies this`place, this`optind, this`optarg
      ensures r.Answered? && !r.event.Word? && Valid() && old(Means()) == Answer(r.event, Means())
      ensures optarg == if r.event.Opt? then r.event.arg else None
    {
      if |place| == 1 && KindOf(Spec(), place[0]).Required? {
        r := TakeNextWord();
        return;
      }
      ghost var c := At();
      var optchar := place[0];
      ArgumentInWord(c, argv[..], Spec());
      place := place[1..];
      optarg := if place != "" then Some(place) else None;
      r := LeaveOption(c, 1, Opt(optchar, optarg));
    }

    /** The next letter of an option word. */
    method ReadLetter() returns (r: Reply)
      requires Valid() && place != "" && optarg == None
      modifies this`place, this`optind, this`optarg
      ensures r != End && (r.Answered? ==> !r.event.Word?)
      ensures r.Answered? ==> Valid() && old(Means()) == Answer(r.event, Means())
      ensures optarg == if r.Answered? && r.event.Opt? then r.event.arg else None
      ensures r.Dashes? ==> AtDashes(old(Means()))
    {
      match KindOf(Spec(), place[0])
      case LongOption => r := ReadLong();
      case Required => r := ReadWithArgument();
      case Optional => r := ReadWithArgument();
      case _ => r := ReadPlain();
    }

    /** A word that is no option: skip it, answer it, or stop. */
    method MeetWord() returns (more: bool, r: Reply)
      requires Valid() && place == "" && optind < argv.Length && !IsOption(argv[optind])
      modifies this`nonoptStart, this`nonoptEnd, this`optind, this`optarg, argv
      ensures argv[..1] == old(argv[..1])
      ensures more ==> Valid() && optind == old(optind) + 1 && Means() == old(Means()) && optarg == old(optarg)
      ensures !more ==> r == End || (r.Answered? && r.event.Word?)
      ensures !more && r.Answered? ==>
                Valid() && old(Means()) == Answer(r.event, Means()) && optarg == Some(r.event.word)
      ensures !more && r == End ==> Finished(old(Means())) && optarg == old(optarg)
    {
      match Spec().order
      case InOrder =>
        WordInOrder(At(), argv[..], Spec());
        optarg := Some(argv[optind]);
        optind := optind + 1;
        assert At() == Past(old(At()), 1);
        return false, Answered(Word(optarg.value));
      case Stop =>
        WordStops(At(), argv[..], Spec());
        ArrangedInPlace(At(), argv[..], Means());
        return false, End;
      case Permute =>
        SkipWord();
        return true, End;
    }

    /** Skip or enter the next word, unless it is answered or the options end. */
    method MeetNext() returns (more: bool, r: Reply)
      requires Valid() && place == ""
      modifies this, argv
      ensures argv[..1] == old(argv[..1])
      ensures more ==> Valid() && Means() == old(Means()) && optind >= old(optind) + (if place == "" then 1 else 0)
      ensures more || !r.Answered? ==> optarg == old(optarg)
      ensures !more && r.Answered? ==>
                Valid() && old(Means()) == Answer(r.event, Means()) && r.event.Word? && optarg == Some(r.event.word)
      ensures !more && r.Dashes? ==> AtDashes(old(Means()))
      ensures !more && r == End ==> Finished(old(Means()))
    {
      if optind >= argv.Length {
        FinishVector();
        return false, End;
      }
      if !IsOption(argv[optind]) {
        more, r := MeetWord();
      } else {
        var dashes := EnterWord();
        return !dashes, Dashes;
      }
    }

    /** Go on to the next option word, unless there is none. */
    method Seek() returns (more: bool, r: Reply)
      requires Valid()
      modifies this, argv
      ensures argv[..1] == old(argv[..1])
      ensures more ==> Valid() && Means() == old(Means()) && place != ""
      ensures more || !r.Answered? ==> optarg == old(optarg)
      ensures !more && r.Answered? ==>
                Valid() && old(Means()) == Answer(r.event, Means()) && r.event.Word? && optarg == Some(r.event.word)
      ensures !more && r.Dashes? ==> AtDashes(old(Means()))
      ensures !more && r == End ==> Finished(old(Means()))
    {
      ghost var t := Means();
      more := true;
      while place == ""
        invariant Valid() && Means() == t && argv[..1] == old(argv[..1]) && optarg == old(optarg)
        decreases argv.Length - optind, |place| == 0
      {
        more, r := MeetNext();
        if !more { return; }
      }
      return true, End;
    }

    /**
     * One step of the scanner. An answer is the first one still to come and leaves the outcome of
     * the command line unchanged otherwise; at the end nothing was left to answer.
     */
    method Internal() returns (r: Reply)
      requires Valid()
      modifies this, argv
      ensures argv[..1] == old(argv[..1])
      ensures r.Answered? ==> Valid() && old(Means()) == Answer(r.event, Means())
      ensures r.Answered? && r.event.Opt? ==> optarg == r.event.arg
      ensures r.Answered? && r.event.Word? ==> optarg == Some(r.event.word)
      ensures r.Answered? && (r.event.BadLetter? || r.event.MissingArg?) ==> optarg == None
      ensures !r.Answered? ==> optarg == None
      ensures r.Dashes? ==> AtDashes(old(Means()))
      ensures r == End ==> Finished(old(Means()))
    {
      optarg := None;
      var more;
      more, r := Seek();
      if !more { return; }
      r := ReadLetter();
    }

    /** The end of the options: bring the skipped words behind the last consumed one. */
    method FinishDashes(ghost t: Parse)
      requires AtDashes(t)
      modifies this`nonoptStart, this`nonoptEnd, this`optind, argv
      ensures Finished(t) && argv[..1] == old(argv[..1])
    {
      ghost var a, c := argv[..], Past(At(), 1);
      optind := optind + 1;
      if nonoptEnd != -1 {
        PermuteArgs.Permute(argv, nonoptStart, nonoptEnd, optind);
        ArrangedByExchange(c, a, argv[..], t);
        optind := optind - (nonoptEnd - nonoptStart);
      } else {
        ArrangedInPlace(c, a, t);
      }
      nonoptStart, nonoptEnd := -1, -1;
    }

    /** The state as the next call sees it: a zero optind means one, and a reset forgets the skipped words. */
    ghost function Start(): Cursor
      reads this
    {
      var at := if optind == 0 then 1 else optind;
      if optreset then Cursor(at, "", -1, -1) else Cursor(at, place, nonoptStart, nonoptEnd)
    }

    ghost function MeansAtStart(): Parse
      reads this, argv
      requires CursorOk(Start(), argv.Length)
    {
      Outcome(Start(), argv[..], Spec())
    }

    method Begin()
      requires CursorOk(Start(), argv.Length) && SkipsOk(Start())
      modifies this`optind, this`optreset, this`place, this`nonoptStart, this`nonoptEnd
      ensures Valid() && Means() == old(MeansAtStart())
    {
      if optind == 0 { optind := 1; }
      if optreset {
        nonoptStart, nonoptEnd := -1, -1;
        optreset, place := false, "";
      }
    }

    /**
     * The caller's step. When it returns no event the vector has been rearranged: consumed words
     * first, then the skipped ones, then the rest, with optind at the first word not consumed.
     */
    method Next() returns (r: Option<Event>)
      requires CursorOk(Start(), argv.Length) && SkipsOk(Start())
      modifies this, argv
      ensures argv[..1] == old(argv[..1])
      ensures r.Some? ==> Valid() && old(MeansAtStart()) == Answer(r.value, Means())
      ensures r.Some? && r.value.Opt? ==> optarg == r.value.arg
      ensures r.Some? && r.value.Word? ==> optarg == Some(r.value.word)
      ensures r == None || r.value.BadLetter? || r.value.MissingArg? ==> optarg == None
      ensures r == None ==> Finished(old(MeansAtStart()))
    {
      Begin();
      var reply := Internal();
      match reply
      case Answered(e) => return Some(e);
      case End => return None;
      case Dashes =>
        FinishDashes(old(MeansAtStart()));
        return None;
    }

    /** Answer the calls until the end: the answers are those of the command line. */
    method AnswerAll() returns (events: seq<Event>)
      requires CursorOk(Start(), argv.Length) && SkipsOk(Start())
      modifies this, argv
      ensures events == old(MeansAtStart()).events && argv[..1] == old(argv[..1])
      ensures Arranged(argv[..], optind, old(MeansAtStart()))
      decreases |MeansAtStart().events|
    {
      var r := Next();
      if r == None { return []; }
      assert MeansAtStart() == Means();
      var more := AnswerAll();
      return [r.value] + more;
    }

    /**
     * A whole run from a fresh start: the answers are those the command line means, and the vector
     * ends up stably split into consumed words, skipped words and the rest.
     */
    method Run() returns (events: seq<Event>)
      requires CursorOk(Start(), argv.Length) && SkipsOk(Start()) && Start().optind == 1 && Start().place == ""
               && Start().start == -1
      modifies this, argv
      ensures var t := ParseWords(Spec(), old(argv[1..]));
              && OptionItems.Means(options, posix, old(argv[1..]), t) && events == t.events && Splits(old(argv[1..]), t)
              && argv[..] == old(argv[..1]) + t.opts + t.nonopts + t.rest
              && optind == 1 + |t.opts|
      ensures Spec().order != Permute ==> argv[..] == old(argv[..])
    {
      ghost var a := argv[..];
      StartMeans(Start(), a, Spec());
      events := AnswerAll();
      RunArranges(a, argv[..], optind, Spec());
      OptionItems.ParseExactly(options, posix, a[1..], ParseWords(Spec(), a[1..]));
    }
  }

  /** The answers to a whole command line and what it leaves of it, from the program name on. */
  ghost predicate Scanned(options: string, posix: bool, before: seq<string>, after: seq<string>, t: Parse,
                          events: seq<Event>, optind: int)
    requires before != []
  {
    && OptionItems.Means(options, posix, before[1..], t) && events == t.events && Splits(before[1..], t)
    && after == before[..1] + t.opts + t.nonopts + t.rest && optind == 1 + |t.opts|
    && (OptionItems.StopsAtWords(options, posix) || OptionItems.AnswersWords(options, posix) ==> after == before)
  }

  /** Scan a command line with a new scanner. */
  method Scan(argv: array<string>, options: string, posix: bool)
      returns (events: seq<Event>, optind: int, ghost t: Parse)
    requires argv.Length >= 1
    modifies argv
    ensures Scanned(options, posix, old(argv[..]), argv[..], t, events, optind)
  {
    t := ParseWords(OptionsOf(options, posix), argv[1..]);
    OptionItems.OptionsExactly(options, posix);
    assert argv[..][1..] == argv[1..] && argv[..][..1] == argv[..1];
    var s := new Scanner(argv, options, posix);
    events := s.Run();
    optind := s.optind;
  }

  /** Scan again with a scanner in any state, after a reset. */
  method Rescan(s: Scanner) returns (events: seq<Event>, ghost t: Parse)
    requires s.argv.Length >= 1
    modifies s, s.argv
    ensures Scanned(s.options, s.posix, old(s.argv[..]), s.argv[..], t, events, s.optind)
  {
    t := ParseWords(s.Spec(), s.argv[1..]);
    OptionItems.OptionsExactly(s.options, s.posix);
    assert s.argv[..][1..] == s.argv[1..] && s.argv[..][..1] == s.argv[..1];
    s.optind, s.optreset := 1, true;
    events := s.Run();
  }
}
