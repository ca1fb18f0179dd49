/**
 * Options are trimmed before a setting is added to them, of whitespace of any kind, escaped or not. What that
 * leaves of the words and the settings the server read, and exactly when it leaves all of them.
 */
module OptionTrims {
  import opened Texts
  import opened StartupOptions
  import opened StartupOptionProofs

  /** Only what the server splits words at. */
  ghost predicate Separators(t: Text) {
    forall i | 0 <= i < |t| :: IsSeparator(t[i])
  }

  ghost predicate White(t: Text) {
    forall i | 0 <= i < |t| :: IsWhitespace(t[i])
  }

  // ----- how many characters end up in words

  ghost function Total(words: seq<Text>): nat {
    if words == [] then 0 else |words[0]| + Total(words[1..])
  }

  /** How many characters of a text end up in words, when a backslash came before it or not. */
  ghost function Gain(t: Text, escaped: bool): nat {
    if t == [] then 0
    else if !escaped && IsSeparator(t[0]) then Gain(t[1..], false)
    else if !escaped && t[0] == BACKSLASH then Gain(t[1..], true)
    else 1 + Gain(t[1..], false)
  }

  ghost function EscapedAfter(t: Text, escaped: bool): bool {
    if t == [] then escaped
    else EscapedAfter(t[1..], !escaped && t[0] == BACKSLASH)
  }

  lemma {:induction false} TotalConcat(a: seq<Text>, b: seq<Text>)
    ensures Total(a + b) == Total(a) + Total(b)
  {
    if a == [] {
      assert a + b == b;
    } else {
      TotalConcat(a[1..], b);
      assert (a + b)[1..] == a[1..] + b;
    }
  }

  lemma TotalOne(words: seq<Text>, w: Text)
    ensures Total(words + [w]) == Total(words) + |w|
  {
    TotalConcat(words, [w]);
    assert [w][1..] == [];
  }

  lemma TotalDone(s: Splitter)
    ensures Total(Done(s)) == Total(s.words) + |Word(s)|
  {
    if s.word.Some? { TotalOne(s.words, s.word.value); }
  }

  lemma GainNext(s: Splitter, c: CodeUnit)
    ensures Total(Done(Next(s, c)))
            == Total(Done(s)) + (if s.escaped || (!IsSeparator(c) && c != BACKSLASH) then 1 else 0)
  {
    TotalDone(s);
    TotalDone(Next(s, c));
  }

  lemma {:induction false} GainRun(s: Splitter, t: Text)
    ensures Total(Done(Run(s, t))) == Total(Done(s)) + Gain(t, s.escaped)
    ensures Run(s, t).escaped == EscapedAfter(t, s.escaped)
    decreases |t|
  {
    if t != [] {
      GainNext(s, t[0]);
      GainRun(Next(s, t[0]), t[1..]);
    }
  }

  lemma {:induction false} GainConcat(a: Text, b: Text, escaped: bool)
    ensures Gain(a + b, escaped) == Gain(a, escaped) + Gain(b, EscapedAfter(a, escaped))
    ensures EscapedAfter(a + b, escaped) == EscapedAfter(b, EscapedAfter(a, escaped))
    decreases |a|
  {
    if a == [] {
      assert a + b == b;
    } else {
      GainConcat(a[1..], b, !escaped && a[0] == BACKSLASH);
      assert (a + b)[1..] == a[1..] + b;
    }
  }

  lemma {:induction false} WhiteGain(t: Text)
    requires White(t)
    ensures Gain(t, false) == 0 <==> Separators(t)
    ensures !EscapedAfter(t, false)
  {
    if t != [] {
      WhiteGain(t[1..]);
      if Separators(t) {
        forall i | 0 <= i < |t[1..]| ensures IsSeparator(t[1..][i]) { assert t[1..][i] == t[i + 1]; }
      }
      if Gain(t, false) == 0 {
        forall i | 0 <= i < |t| ensures IsSeparator(t[i]) { assert i > 0 ==> t[i] == t[1..][i - 1]; }
      }
    }
  }

  lemma WordsGain(t: Text)
    ensures Total(Words(t)) == Gain(t, false) && OpenEscape(t) == EscapedAfter(t, false)
  {
    GainRun(START, t);
  }

  // ----- separators change no words

  lemma {:induction false} SeparatorsEnd(s: Splitter, t: Text)
    requires Separators(t) && !s.escaped
    ensures Done(Run(s, t)) == Done(s) && !Run(s, t).escaped && (t != [] ==> Run(s, t).word.None?)
    decreases |t|
  {
    if t != [] {
      var n := Next(s, t[0]);
      forall i | 0 <= i < |t[1..]| ensures IsSeparator(t[1..][i]) { assert t[1..][i] == t[i + 1]; }
      SeparatorsEnd(n, t[1..]);
      if |t| == 1 { assert t[1..] == []; }
    }
  }

  lemma SeparatorsStart(t: Text)
    requires Separators(t)
    ensures Run(START, t) == START
  {
    SeparatorsEnd(START, t);
  }

  /** Words are the same with separators around them. */
  lemma SameWords(lead: Text, core: Text, trail: Text)
    requires Separators(lead) && Separators(trail) && !OpenEscape(core)
    ensures Words(lead + core + trail) == Words(core) && !OpenEscape(lead + core + trail)
    ensures trail != [] ==> Run(START, lead + core + trail).word.None?
  {
    SeparatorsStart(lead);
    RunConcat(START, lead, core);
    RunConcat(START, lead + core, trail);
    SeparatorsEnd(Run(START, core), trail);
  }

  /** And not the same with any other whitespace. */
  lemma OtherWords(lead: Text, core: Text, trail: Text)
    requires White(lead) && White(trail) && !OpenEscape(core) && Words(lead + core + trail) == Words(core)
    ensures Separators(lead) && Separators(trail)
  {
    WordsGain(lead + core + trail);
    WordsGain(core);
    WhiteGain(lead);
    WhiteGain(trail);
    GainConcat(lead, core, false);
    GainConcat(lead + core, trail, false);
  }

  // ----- a setting added after trimming

  /** The words of before, `-c` and its argument; and the settings of before and that one. */
  ghost predicate Appended(before: seq<Text>, after: seq<Text>, argument: Text) {
    after == before + [C_FLAG, argument] && Settings(after) == Settings(before) + [SettingOf(argument)]
  }

  lemma AppendedIff(words: seq<Text>, argument: Text)
    requires Writable(argument)
    ensures Appended(words, words + [C_FLAG, argument], argument) <==> Ready(ReadAll(READY, words))
  {
    var r := ReadAll(READY, words);
    ReadTwo(words, C_FLAG, argument);
    if Ready(r) { FlagC(r, argument); } else { NotReady(r, argument); }
  }

  /** The words of options with a flag added. */
  lemma WordsSpaced(options: Text, argument: Text)
    requires Plain(argument) && argument != []
    ensures !OpenEscape(options) ==> Words(Added(options, Flagged(argument))) == Words(options) + [C_FLAG, argument]
    ensures OpenEscape(options) ==>
              var words := Words(Added(options, Flagged(argument)));
              |words| >= 2 && |words[|words| - 2]| > 2 && words[|words| - 1] == argument
    ensures !OpenEscape(Added(options, Flagged(argument)))
  {
    if options == [] {
      RunFlagged(START, argument);
      FlaggedCloses(START, argument);
      assert [] + C_FLAG == C_FLAG && [] + [C_FLAG, argument] == [C_FLAG, argument];
    } else {
      WordsWith(options, argument);
      RunSpaced(options, argument);
      FlaggedCloses(Next(Run(START, options), SPACE), argument);
    }
  }

  /**
   * Options are trimmed and a setting added: the server reads the words and settings it read before,
   * and the setting after them, exactly when all that was trimmed are separators and what is left is
   * complete, no backslash before the trimmed end included.
   */
  lemma TrimmedAppendedIff(lead: Text, core: Text, trail: Text, argument: Text)
    requires White(lead) && White(trail) && Writable(argument)
    ensures Appended(Words(lead + core + trail), Words(Added(core, Flagged(argument))), argument)
            <==> Separators(lead) && Separators(trail) && Complete(core)
  {
    var before, after := Words(lead + core + trail), Words(Added(core, Flagged(argument)));
    WordsSpaced(core, argument);
    if Separators(lead) && Separators(trail) && !OpenEscape(core) {
      SameWords(lead, core, trail);
      AppendedIff(before, argument);
    }
    if Appended(before, after, argument) {
      assert after[|after| - 2] == C_FLAG;
      PrefixesEqual(before, Words(core), [C_FLAG, argument]);
      OtherWords(lead, core, trail);
    }
  }

  lemma PrefixesEqual(a: seq<Text>, b: seq<Text>, c: seq<Text>)
    ensures a + c == b + c ==> a == b
  {
    if a + c == b + c {
      assert |a + c| == |b + c|;
      assert a == (a + c)[..|a|] && b == (b + c)[..|b|];
    }
  }

  // ----- a setting that options end with

  /** A place where a word may start: the beginning, or after a separator that no backslash escapes. */
  ghost predicate AtBoundary(before: Text) {
    before == [] || (IsSeparator(before[|before| - 1]) && !OpenEscape(before[..|before| - 1]))
  }

  lemma LastStep(t: Text)
    requires t != []
    ensures Run(START, t) == Next(Run(START, t[..|t| - 1]), t[|t| - 1])
  {
    RunNext(START, t[..|t| - 1], t[|t| - 1]);
    assert t[..|t| - 1] + [t[|t| - 1]] == t;
  }

  lemma BoundaryIff(before: Text)
    requires before == [] || IsWhitespace(before[|before| - 1])
    ensures !Run(START, before).escaped
    ensures AtBoundary(before) <==> Run(START, before).word.None?
    ensures !AtBoundary(before) ==> Word(Run(START, before)) != []
  {
    if before != [] { LastStep(before); }
  }

  lemma {:induction false} WordsStay(s: Splitter, t: Text)
    ensures s.words <= Run(s, t).words <= Done(Run(s, t))
    decreases |t|
  {
    if t != [] { WordsStay(Next(s, t[0]), t[1..]); }
  }

  /** The words of options that end with a flag, up to what follows it. */
  lemma FlaggedEnd(before: Text, argument: Text)
    requires (before == [] || IsWhitespace(before[|before| - 1])) && Plain(argument) && argument != []
    ensures var s, t := Run(START, before), Run(START, before + Flagged(argument));
            t == Splitter(s.words + [Word(s) + C_FLAG], Some(argument), false)
  {
    BoundaryIff(before);
    RunConcat(START, before, Flagged(argument));
    RunFlagged(Run(START, before), argument);
  }

  /** Without a boundary the flag is read as part of the word before it. */
  lemma NoBoundary(before: Text, argument: Text, trail: Text)
    requires (before == [] || IsWhitespace(before[|before| - 1])) && !AtBoundary(before) && Plain(argument)
             && argument != []
    ensures Words(before + Flagged(argument) + trail) != Words(before) + [C_FLAG, argument]
  {
    var s := Run(START, before);
    var t := Run(START, before + Flagged(argument));
    BoundaryIff(before);
    FlaggedEnd(before, argument);
    RunConcat(START, before + Flagged(argument), trail);
    WordsStay(t, trail);
    var n := |s.words|;
    assert t.words[n] == Word(s) + C_FLAG;
    assert (Words(before) + [C_FLAG, argument])[n] == Word(s);
    assert |Word(s) + C_FLAG| == |Word(s)| + 2;
  }

  lemma WithBoundary(before: Text, argument: Text, trail: Text)
    requires (before == [] || IsWhitespace(before[|before| - 1])) && AtBoundary(before) && Plain(argument)
             && argument != []
    requires White(trail)
    ensures Words(before + Flagged(argument) + trail) == Words(before) + [C_FLAG, argument] <==> Separators(trail)
  {
    var s, t := Run(START, before), Run(START, before + Flagged(argument));
    BoundaryIff(before);
    FlaggedEnd(before, argument);
    RunConcat(START, before + Flagged(argument), trail);
    assert [] + C_FLAG == C_FLAG;
    assert Done(t) == Words(before) + [C_FLAG, argument];
    WhiteGain(trail);
    GainRun(t, trail);
    if Separators(trail) { SeparatorsEnd(t, trail); }
  }

  /**
   * Options that end with a setting, whitespace aside: the server reads what comes before it, and then
   * the setting, exactly when the flag starts a word, only separators follow, and what comes before ended
   * no flags and left none waiting.
   */
  lemma EndsWithIff(before: Text, argument: Text, trail: Text)
    requires before == [] || IsWhitespace(before[|before| - 1])
    requires White(trail) && Writable(argument)
    ensures Appended(Words(before), Words(before + Flagged(argument) + trail), argument)
            <==> AtBoundary(before) && Separators(trail) && Ready(ReadAll(READY, Words(before)))
  {
    if AtBoundary(before) {
      WithBoundary(before, argument, trail);
      AppendedIff(Words(before), argument);
    } else {
      NoBoundary(before, argument, trail);
    }
  }

  // ----- a setting written before the one that options end with

  /** The words and settings before the last setting, with a new one between them and it. */
  ghost predicate Inserted(before: seq<Text>, was: seq<Text>, after: seq<Text>, argument: Text, last: Text) {
    && was == before + [C_FLAG, last] && Settings(was) == Settings(before) + [SettingOf(last)]
    && after == before + [C_FLAG, argument, C_FLAG, last]
    && Settings(after) == Settings(before) + [SettingOf(argument), SettingOf(last)]
  }

  lemma WordsTwice(core: Text, argument: Text, last: Text)
    requires Plain(argument) && argument != [] && Plain(last) && last != []
    ensures var words := Words(Added(Added(core, Flagged(argument)), Flagged(last)));
            && (!OpenEscape(core) ==> words == Words(core) + [C_FLAG, argument, C_FLAG, last])
            && (OpenEscape(core) ==> |words| >= 4 && |words[|words| - 4]| > 2)
  {
    WordsSpaced(core, argument);
    WordsSpaced(Added(core, Flagged(argument)), last);
    if !OpenEscape(core) {
      assert Words(core) + [C_FLAG, argument] + [C_FLAG, last] == Words(core) + [C_FLAG, argument, C_FLAG, last];
    }
  }

  lemma SettingsTwice(words: seq<Text>, argument: Text, last: Text)
    requires Writable(argument) && Writable(last) && Ready(ReadAll(READY, words))
    ensures Settings(words + [C_FLAG, argument, C_FLAG, last])
            == Settings(words) + [SettingOf(argument), SettingOf(last)]
  {
    var r := ReadAll(READY, words);
    ReadTwo(words, C_FLAG, argument);
    FlagC(r, argument);
    ReadTwo(words + [C_FLAG, argument], C_FLAG, last);
    FlagC(ReadAll(READY, words + [C_FLAG, argument]), last);
    assert words + [C_FLAG, argument] + [C_FLAG, last] == words + [C_FLAG, argument, C_FLAG, last];
    assert r.settings + [SettingOf(argument)] + [SettingOf(last)]
           == r.settings + [SettingOf(argument), SettingOf(last)];
  }

  /** Whitespace around what is left, and between it and the last flag. */
  ghost predicate Around(lead: Text, core: Text, gap: Text, trail: Text) {
    White(lead) && White(gap) && White(trail) && (core == [] <==> gap == [])
  }

  lemma AroundBoundary(lead: Text, core: Text, gap: Text)
    requires Separators(lead) && Separators(gap) && !OpenEscape(core) && (core == [] <==> gap == [])
    ensures Words(lead + core + gap) == Words(core) && AtBoundary(lead + core + gap)
  {
    var b := lead + core + gap;
    SameWords(lead, core, gap);
    if core == [] {
      assert b == lead;
      SeparatorsStart(lead);
    }
    assert b == [] || IsWhitespace(b[|b| - 1]);
    BoundaryIff(b);
  }

  /**
   * Options end with a setting, a new one is written before it, and all whitespace around what comes before
   * is trimmed. The server reads what it read, with the new setting second to last, exactly when
   * all that was trimmed are separators and what is left is complete.
   */
  lemma InsertedIff(lead: Text, core: Text, gap: Text, trail: Text, argument: Text, last: Text)
    requires Around(lead, core, gap, trail) && Writable(argument) && Writable(last)
    ensures Inserted(Words(lead + core + gap), Words(lead + core + gap + Flagged(last) + trail),
                     Words(Added(Added(core, Flagged(argument)), Flagged(last))), argument, last)
            <==> Separators(lead) && Separators(gap) && Separators(trail) && Complete(core)
  {
    var b := lead + core + gap;
    var before, was := Words(b), Words(b + Flagged(last) + trail);
    var after := Words(Added(Added(core, Flagged(argument)), Flagged(last)));
    WordsTwice(core, argument, last);
    assert b == [] || IsWhitespace(b[|b| - 1]);
    if Separators(lead) && Separators(gap) && Separators(trail) && Complete(core) {
      AroundBoundary(lead, core, gap);
      EndsWithIff(b, last, trail);
      SettingsTwice(before, argument, last);
    }
    if Inserted(before, was, after, argument, last) {
      assert after[|after| - 4] == C_FLAG;
      PrefixesEqual(before, Words(core), [C_FLAG, argument, C_FLAG, last]);
      OtherWords(lead, core, gap);
      EndsWithIff(b, last, trail);
    }
  }

  // ----- an escaped space is trimmed away

  lemma WordsOfEscapedSpace(x: Text)
    requires Plain(x) && x != []
    ensures Run(START, Flagged(x) + [BACKSLASH]) == Splitter([C_FLAG], Some(x), true)
    ensures Run(START, Flagged(x) + [BACKSLASH, SPACE, SPACE]) == Splitter([C_FLAG, x + [SPACE]], None, false)
  {
    var a := Flagged(x);
    FlaggedEnd([], x);
    assert [] + a == a && [] + C_FLAG == C_FLAG && [] + [C_FLAG] == [C_FLAG];
    RunNext(START, a, BACKSLASH);
    RunNext(START, a + [BACKSLASH], SPACE);
    RunNext(START, a + [BACKSLASH] + [SPACE], SPACE);
    assert a + [BACKSLASH] + [SPACE] + [SPACE] == a + [BACKSLASH, SPACE, SPACE];
  }

  /** Two words read as one setting. */
  lemma OneSetting(x: Text)
    requires x != []
    ensures ReadAll(READY, [C_FLAG, x]) == Reader([SettingOf(x)], None, false)
  {
    ReadTwo([], C_FLAG, x);
    assert C_FLAG[1] == LETTER_C && TakesArgument(LETTER_C) && FlagAt(C_FLAG, 1) == 1;
    assert [] + [C_FLAG, x] == [C_FLAG, x] && [] + [SettingOf(x)] == [SettingOf(x)];
  }

  /**
   * Options `-c x\  -c last`, with an escaped space and then a space: complete, and read as `x` with a space and then
   * `last`. Trimmed, they end in the backslash, so the setting written next is glued to `x` and never read.
   */
  lemma EscapedSpaceLost(x: Text, argument: Text, last: Text)
    requires Writable(x) && Writable(argument) && Writable(last)
    ensures var options := Flagged(x) + [BACKSLASH, SPACE, SPACE] + Flagged(last);
            Complete(options) && Settings(Words(options)) == [SettingOf(x + [SPACE]), SettingOf(last)]
    ensures var after := Added(Added(Flagged(x) + [BACKSLASH], Flagged(argument)), Flagged(last));
            Settings(Words(after)) == [SettingOf(x + [SPACE] + C_FLAG), SettingOf(last)]
  {
    var b := Flagged(x) + [BACKSLASH, SPACE, SPACE];
    WordsOfEscapedSpace(x);
    FlaggedEnd(b, last);
    assert [] + C_FLAG == C_FLAG;
    var y := x + [SPACE];
    OneSetting(y);
    ReadTwo([C_FLAG, y], C_FLAG, last);
    FlagC(Reader([SettingOf(y)], None, false), last);
    assert [C_FLAG, y] + [C_FLAG, last] == [C_FLAG, y] + [C_FLAG] + [last];
    GluedSettings(x, argument, last);
  }

  lemma GluedSettings(x: Text, argument: Text, last: Text)
    requires Writable(x) && Writable(argument) && Writable(last)
    ensures Settings(Words(Added(Added(Flagged(x) + [BACKSLASH], Flagged(argument)), Flagged(last)))) ==
            [SettingOf(x + [SPACE] + C_FLAG), SettingOf(last)]
  {
    var core := Flagged(x) + [BACKSLASH];
    var glued := x + [SPACE] + C_FLAG;
    WordsOfEscapedSpace(x);
    WordsWith(core, argument);
    assert Words(Added(core, Flagged(argument))) == [C_FLAG, glued, argument];
    WordsSpaced(core, argument);
    WordsSpaced(Added(core, Flagged(argument)), last);
    OneSetting(glued);
    var r := Reader([SettingOf(glued)], None, false);
    ReadNext(READY, [C_FLAG, glued], argument);
    PlainWord(r, argument);
    assert [C_FLAG, glued] + [argument] == [C_FLAG, glued, argument];
    ReadTwo([C_FLAG, glued, argument], C_FLAG, last);
    FlagC(r, last);
  }

  /** Whitespace that is no separator may be trimmed without a setting changing, but never without a word changing. */
  lemma TrimmedWordAlone(argument: Text)
    requires Writable(argument)
    ensures var raw, core := [0xa0, 0x61], [0x61];
            && Settings(Words(Added(core, Flagged(argument)))) == Settings(Words(raw)) + [SettingOf(argument)]
            && Words(raw) != Words(core)
  {
    var raw: Text, core: Text := [0xa0, 0x61], [0x61];
    RunPlain(START, raw);
    RunPlain(START, core);
    assert [] + raw == raw && [] + core == core;
    ReadNext(READY, [], raw);
    ReadNext(READY, [], core);
    assert [] + [raw] == [raw] && [] + [core] == [core];
    SettingsWithIff(core, argument);
  }

  // ----- the settings alone

  /** A flag added after an open backslash brings at most one setting more than the words before, and not its own. */
  lemma OpenAddsOther(core: Text, argument: Text)
    requires OpenEscape(core) && Writable(argument)
    ensures NotAdded(ReadAll(READY, Run(START, core).words), ReadAll(READY, Words(Added(core, Flagged(argument)))),
                     argument)
  {
    var s := Run(START, core);
    var r := ReadAll(READY, s.words);
    var glued := Word(s) + [SPACE] + C_FLAG;
    WordsWith(core, argument);
    ReadTwo(s.words, glued, argument);
    GluedWord(r, Word(s), glued, argument);
    PlainWord(ReadWord(r, glued), argument);
  }

  lemma {:induction false} MoreSettings(r: Reader, words: seq<Text>)
    ensures |r.settings| <= |ReadAll(r, words).settings|
    decreases |words|
  {
    if words != [] {
      Grows(r, words[0]);
      MoreSettings(ReadWord(r, words[0]), words[1..]);
    }
  }

  lemma {:induction false} ReadConcat(r: Reader, a: seq<Text>, b: seq<Text>)
    ensures ReadAll(r, a + b) == ReadAll(ReadAll(r, a), b)
    decreases |a|
  {
    if a == [] {
      assert a + b == b;
    } else {
      ReadConcat(ReadWord(r, a[0]), a[1..], b);
      assert (a + b)[1..] == a[1..] + b;
    }
  }

  /** Whatever follows, the settings of the words that have ended stay. */
  lemma EndedStay(lead: Text, core: Text, trail: Text)
    requires Separators(lead)
    ensures |ReadAll(READY, Run(START, core).words).settings| <= |Settings(Words(lead + core + trail))|
  {
    var s, words := Run(START, core), Words(lead + core + trail);
    SeparatorsStart(lead);
    RunConcat(START, lead, core);
    RunConcat(START, lead + core, trail);
    WordsStay(s, trail);
    var n := |s.words|;
    assert words == s.words + words[n..];
    ReadConcat(READY, s.words, words[n..]);
    MoreSettings(ReadAll(READY, s.words), words[n..]);
  }

  lemma OtherSettings(r: Reader, g: Reader, was: seq<Setting>, argument: Text)
    requires NotAdded(r, g, argument) && |r.settings| <= |was|
    ensures g.settings != was + [SettingOf(argument)] && |g.settings| <= |was| + 1
  {
    var sum := was + [SettingOf(argument)];
    assert |sum| == |was| + 1 && sum[|was|] == SettingOf(argument);
  }

  /**
   * Where only separators are trimmed, the settings are those of before and the one added exactly if what is left
   * is complete.
   */
  lemma TrimmedSettingsIff(lead: Text, core: Text, trail: Text, argument: Text)
    requires Separators(lead) && Separators(trail) && Writable(argument)
    ensures Settings(Words(Added(core, Flagged(argument))))
            == Settings(Words(lead + core + trail)) + [SettingOf(argument)]
            <==> Complete(core)
  {
    if OpenEscape(core) {
      OpenAddsOther(core, argument);
      EndedStay(lead, core, trail);
      OtherSettings(ReadAll(READY, Run(START, core).words), ReadAll(READY, Words(Added(core, Flagged(argument)))),
                    Settings(Words(lead + core + trail)), argument);
    } else {
      SameWords(lead, core, trail);
      WordsSpaced(core, argument);
      AppendedIff(Words(core), argument);
    }
  }

  lemma AddedBounded(lead: Text, core: Text, gap: Text, argument: Text)
    requires Separators(lead) && Separators(gap) && Writable(argument)
    ensures |Settings(Words(Added(core, Flagged(argument))))| <= |Settings(Words(lead + core + gap))| + 1
  {
    if OpenEscape(core) {
      OpenAddsOther(core, argument);
      EndedStay(lead, core, gap);
      OtherSettings(ReadAll(READY, Run(START, core).words), ReadAll(READY, Words(Added(core, Flagged(argument)))),
                    Settings(Words(lead + core + gap)), argument);
    } else {
      SameWords(lead, core, gap);
      WordsSpaced(core, argument);
      ReadTwo(Words(core), C_FLAG, argument);
      TwoWordsOneSetting(ReadAll(READY, Words(core)), argument);
    }
  }

  lemma TwoWordsOneSetting(r: Reader, argument: Text)
    requires Writable(argument)
    ensures |ReadWord(ReadWord(r, C_FLAG), argument).settings| <= |r.settings| + 1
  {
    if Ready(r) {
      FlagC(r, argument);
    } else if !r.stopped {
      PlainWord(ReadWord(r, C_FLAG), argument);
    }
  }

  lemma AddedIsReady(core: Text, argument: Text)
    requires Writable(argument)
    ensures var once := Added(core, Flagged(argument));
            !OpenEscape(once) && (Complete(once) || ReadAll(READY, Words(once)).stopped)
  {
    WordsSpaced(core, argument);
    if core == [] {
      AppendedIff([], argument);
      ReadTwo([], C_FLAG, argument);
      FlagC(READY, argument);
      assert [] + [C_FLAG, argument] == [C_FLAG, argument];
    } else {
      AddedReads(core, argument);
    }
  }

  /** And so with a setting written between them and a last one. */
  lemma InsertedSettingsIff(lead: Text, core: Text, gap: Text, argument: Text, last: Text)
    requires Separators(lead) && Separators(gap) && Writable(argument) && Writable(last)
    ensures Settings(Words(Added(Added(core, Flagged(argument)), Flagged(last))))
            == Settings(Words(lead + core + gap)) + [SettingOf(argument)] + [SettingOf(last)]
            <==> Complete(core)
  {
    var once := Added(core, Flagged(argument));
    var was, middle := Settings(Words(lead + core + gap)), Settings(Words(once));
    TrimmedSettingsIff(lead, core, gap, argument);
    AddedIsReady(core, argument);
    AddedBounded(lead, core, gap, argument);
    SettingsWithIff(once, last);
    if Complete(core) {
      StaysComplete(core, argument);
    } else if Complete(once) {
      Unequal(was, SettingOf(argument), middle, SettingOf(last));
    } else {
      StoppedAdds(once, last);
      assert |was + [SettingOf(argument)] + [SettingOf(last)]| == |was| + 2;
    }
  }

  lemma StaysComplete(core: Text, argument: Text)
    requires Writable(argument) && Complete(core)
    ensures Complete(Added(core, Flagged(argument)))
  {
    WordsSpaced(core, argument);
    ReadTwo(Words(core), C_FLAG, argument);
    FlagC(ReadAll(READY, Words(core)), argument);
  }

  /**
   * With other whitespace there is no such law: after a no-break space, `-c` with the setting in one word and then `--`
   * states nothing, and trimmed, with the setting added and never read, it states that setting.
   */
  lemma TrimmedCoincidence(argument: Text)
    requires Writable(argument)
    ensures var core := C_FLAG + argument + [SPACE] + FLAGS_END;
            && White([0xa0]) && !Complete(core)
            && Settings(Words(Added(core, Flagged(argument)))) == Settings(Words([0xa0] + core)) + [SettingOf(argument)]
  {
    var word: Text, other: Text := C_FLAG + argument, [0xa0] + (C_FLAG + argument);
    var core := word + [SPACE] + FLAGS_END;
    GlueAndEnd(word, Reader([SettingOf(argument)], None, false), argument);
    GlueAndEnd(other, READY, argument);
    assert [0xa0] + core == other + [SPACE] + FLAGS_END;
    StoppedAdds(core, argument);
    assert [] + [SettingOf(argument)] == [SettingOf(argument)];
  }

  /** A first word, and the end of the flags. */
  lemma GlueAndEnd(word: Text, r: Reader, argument: Text)
    requires Writable(argument) && Ready(r)
    requires (word == C_FLAG + argument && r.settings == [SettingOf(argument)])
             || (word == [0xa0] + (C_FLAG + argument) && r.settings == [])
    ensures var t := word + [SPACE] + FLAGS_END;
            !OpenEscape(t) && ReadAll(READY, Words(t)) == r.(stopped := true)
  {
    TwoPlainWords(word, FLAGS_END);
    ReadTwo([], word, FLAGS_END);
    assert [] + [word, FLAGS_END] == [word, FLAGS_END];
    FirstWordReads(word, r, argument);
  }

  lemma FirstWordReads(word: Text, r: Reader, argument: Text)
    requires Writable(argument) && Ready(r)
    requires (word == C_FLAG + argument && r.settings == [SettingOf(argument)])
             || (word == [0xa0] + (C_FLAG + argument) && r.settings == [])
    ensures ReadWord(READY, word) == r
  {
    if word == C_FLAG + argument {
      assert |word| > 2 && word != FLAGS_END;
      assert word[1] == LETTER_C && TakesArgument(LETTER_C) && FlagAt(word, 1) == 1 && word[2..] == argument;
      assert [] + [SettingOf(argument)] == [SettingOf(argument)];
    } else {
      assert word[0] == 0xa0 && |word| > 2;
    }
  }

  lemma TwoPlainWords(a: Text, b: Text)
    requires Plain(a) && a != [] && Plain(b) && b != []
    ensures Words(a + [SPACE] + b) == [a, b] && !OpenEscape(a + [SPACE] + b)
  {
    PlainStart(a);
    RunNext(START, a, SPACE);
    RunConcat(START, a + [SPACE], b);
    RunPlain(Splitter([a], None, false), b);
    assert [] + [a] == [a] && [] + b == b && [a] + [b] == [a, b];
  }
}
