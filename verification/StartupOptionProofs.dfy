/** What options with one more setting state: what they stated, and that setting, exactly when they were complete. */
module StartupOptionProofs {
  import opened Texts
  import opened StartupOptions

  // ----- splitting

  lemma {:induction false} RunConcat(s: Splitter, a: Text, b: Text)
    ensures Run(s, a + b) == Run(Run(s, a), b)
    decreases |a|
  {
    if a == [] {
      assert a + b == b;
    } else {
      RunConcat(Next(s, a[0]), a[1..], b);
      assert (a + b)[1..] == a[1..] + b;
    }
  }

  ghost predicate Plain(t: Text) {
    forall i | 0 <= i < |t| :: !IsSeparator(t[i]) && t[i] != BACKSLASH
  }

  /** Characters that neither separate nor escape are added to the word being read. */
  lemma {:induction false} RunPlain(s: Splitter, t: Text)
    requires Plain(t) && !s.escaped && t != []
    ensures Run(s, t) == s.(word := Some(Word(s) + t))
    decreases |t|
  {
    var n := Next(s, t[0]);
    if |t| == 1 {
      assert t[1..] == [] && t == [t[0]];
    } else {
      RunPlain(n, t[1..]);
      assert Word(s) + [t[0]] + t[1..] == Word(s) + t;
    }
  }

  lemma RunFlagged(s: Splitter, argument: Text)
    requires !s.escaped && Plain(argument) && argument != []
    ensures Run(s, Flagged(argument)) == Splitter(s.words + [Word(s) + C_FLAG], Some(argument), false)
    ensures Done(Run(s, Flagged(argument))) == s.words + [Word(s) + C_FLAG, argument]
  {
    RunConcat(s, C_FLAG + [SPACE], argument);
    RunNext(s, C_FLAG, SPACE);
    RunPlain(s, C_FLAG);
    var u := Next(Run(s, C_FLAG), SPACE);
    assert u == Splitter(s.words + [Word(s) + C_FLAG], None, false);
    RunPlain(u, argument);
    assert [] + argument == argument;
  }

  ghost predicate OpenEscape(options: Text) {
    Run(START, options).escaped
  }

  lemma {:induction false} EscapedHasWord(s: Splitter, t: Text)
    requires s.escaped ==> s.word.Some?
    ensures Run(s, t).escaped ==> Run(s, t).word.Some?
    decreases |t|
  {
    if t != [] { EscapedHasWord(Next(s, t[0]), t[1..]); }
  }

  lemma RunSpaced(options: Text, argument: Text)
    ensures Run(START, options + [SPACE] + Flagged(argument))
            == Run(Next(Run(START, options), SPACE), Flagged(argument))
  {
    RunConcat(START, options + [SPACE], Flagged(argument));
    RunNext(START, options, SPACE);
  }

  /** The words of options with a setting added: two more, unless a backslash was left open. */
  lemma WordsWith(options: Text, argument: Text)
    requires Plain(argument) && argument != []
    ensures !OpenEscape(options) ==> Words(options + [SPACE] + Flagged(argument)) == Words(options) + [C_FLAG, argument]
    ensures OpenEscape(options) ==>
              var s := Run(START, options);
              && Words(options) == s.words + [Word(s)]
              && Words(options + [SPACE] + Flagged(argument)) == s.words + [Word(s) + [SPACE] + C_FLAG, argument]
  {
    var s := Run(START, options);
    RunSpaced(options, argument);
    EscapedHasWord(START, options);
    RunFlagged(Next(s, SPACE), argument);
    assert [] + C_FLAG == C_FLAG;
  }

  // ----- reading

  lemma ReadTwo(words: seq<Text>, a: Text, b: Text)
    ensures ReadAll(READY, words + [a, b]) == ReadWord(ReadWord(ReadAll(READY, words), a), b)
  {
    ReadNext(READY, words, a);
    ReadNext(READY, words + [a], b);
    assert words + [a] + [b] == words + [a, b];
  }

  ghost predicate Ready(r: Reader) {
    !r.stopped && r.awaiting.None?
  }

  /** Options that end nothing early: no open backslash, no end of flags, no flag that waits for its argument. */
  ghost predicate Complete(options: Text) {
    !OpenEscape(options) && Ready(ReadAll(READY, Words(options)))
  }

  /** A setting as it is written: a name and a value, in one plain word that is no flag. */
  ghost predicate Writable(argument: Text) {
    && Plain(argument) && argument != [] && argument[0] != DASH
    && EqualsAt(argument) + 1 < |argument|
  }

  lemma {:induction false} EqualsFound(t: Text)
    ensures forall i | 0 <= i < EqualsAt(t) :: t[i] != EQUALS
    ensures EqualsAt(t) < |t| ==> t[EqualsAt(t)] == EQUALS
  {
    if t != [] && t[0] != EQUALS {
      EqualsFound(t[1..]);
      var n := EqualsAt(t[1..]);
      forall i | 0 <= i < n + 1 ensures t[i] != EQUALS { assert i > 0 ==> t[i] == t[1..][i - 1]; }
      assert n < |t| - 1 ==> t[1..][n] == t[n + 1];
    }
  }

  /** An argument that ends in a space and a flag, or is a flag, states no writable setting. */
  lemma OtherSetting(x: Text, argument: Text)
    requires Writable(argument)
    requires x == [LETTER_C] || x == C_FLAG || (|x| >= 3 && x[|x| - 3..] == [SPACE] + C_FLAG)
    ensures SettingOf(x) != SettingOf(argument)
  {
    EqualsFound(x);
    var eq := EqualsAt(x);
    var v := SettingOf(argument).value;
    assert forall i | 0 <= i < |v| :: v[i] != SPACE by {
      assert forall i | 0 <= i < |v| :: v[i] == argument[EqualsAt(argument) + 1 + i];
    }
    if eq < |x| {
      var w := SettingOf(x).value;
      var tail := x[|x| - 3..];
      assert |x| >= 3 && tail[0] == x[|x| - 3] == SPACE && tail[1] == x[|x| - 2] == DASH
             && tail[2] == x[|x| - 1] == LETTER_C;
      assert w[|w| - 3] == SPACE;
    }
  }

  lemma FlagC(r: Reader, argument: Text)
    requires Ready(r) && Writable(argument)
    ensures ReadWord(ReadWord(r, C_FLAG), argument) == r.(settings := r.settings + [SettingOf(argument)])
  {
    assert C_FLAG[1] == LETTER_C && TakesArgument(LETTER_C) && FlagAt(C_FLAG, 1) == 1;
  }

  /** A reader that is not ready reads no setting from a flag and its argument. */
  lemma NotReady(r: Reader, argument: Text)
    requires !Ready(r) && Writable(argument)
    ensures ReadWord(ReadWord(r, C_FLAG), argument).settings != r.settings + [SettingOf(argument)]
  {
    if !r.stopped {
      OtherSetting(C_FLAG, argument);
      var s := r.settings + Given(r.awaiting.value, C_FLAG);
      assert ReadWord(ReadWord(r, C_FLAG), argument).settings == s;
      assert |s| > |r.settings| ==> s[|r.settings|] == SettingOf(C_FLAG);
    }
  }

  /** A word with a space and a flag glued to it by an open backslash. */
  ghost predicate Glued(word: Text, glued: Text) {
    && |glued| == |word| + 3
    && (forall i | 0 <= i < |word| :: glued[i] == word[i])
    && glued[|word|] == SPACE && glued[|word| + 1] == DASH && glued[|word| + 2] == LETTER_C
  }

  ghost predicate EndsGlued(x: Text) {
    x == [LETTER_C] || x == C_FLAG || (|x| >= 3 && x[|x| - 3..] == [SPACE] + C_FLAG)
  }

  lemma GluedEnd(word: Text, glued: Text, k: nat)
    requires Glued(word, glued) && k <= |word|
    ensures EndsGlued(glued[k..])
  {
    var x := glued[k..];
    assert x[|x| - 3] == SPACE && x[|x| - 2] == DASH && x[|x| - 1] == LETTER_C;
  }

  lemma {:induction false} FlagAtIn(word: Text, glued: Text, at: nat)
    requires Glued(word, glued) && 1 <= at <= |word|
    ensures FlagAt(glued, at) == if FlagAt(word, at) < |word| then FlagAt(word, at) else |word| + 1
    decreases |word| - at
  {
    if at == |word| {
      assert !TakesArgument(SPACE) && TakesArgument(DASH);
      assert FlagAt(glued, at + 1) == at + 1;
    } else if !TakesArgument(word[at]) {
      FlagAtIn(word, glued, at + 1);
    }
  }

  /** The flag of a glued word has its argument in the word, and what it states is another setting. */
  lemma GluedFlag(word: Text, glued: Text)
    requires word != [] && Glued(word, glued)
    ensures FlagAt(glued, 1) + 1 < |glued| && EndsGlued(glued[FlagAt(glued, 1) + 1..])
  {
    FlagAtIn(word, glued, 1);
    var at := FlagAt(glued, 1);
    if at < |word| {
      GluedEnd(word, glued, at + 1);
    } else {
      assert glued[at + 1..] == [LETTER_C];
    }
  }

  /** The settings of `g` are those of `r`, perhaps with one more that is not `argument`'s. */
  ghost predicate NotAdded(r: Reader, g: Reader, argument: Text) {
    g.settings == r.settings || (|g.settings| == |r.settings| + 1 && g.settings[|r.settings|] != SettingOf(argument))
  }

  lemma GivenOther(r: Reader, flag: CodeUnit, x: Text, argument: Text)
    requires Writable(argument) && EndsGlued(x)
    ensures NotAdded(r, r.(settings := r.settings + Given(flag, x)), argument)
  {
    OtherSetting(x, argument);
  }

  /** Whatever a glued word was, no flag waits after it, and no setting it adds is `argument`'s. */
  lemma GluedWord(r: Reader, word: Text, glued: Text, argument: Text)
    requires Writable(argument) && Glued(word, glued)
    ensures var g := ReadWord(r, glued); (Ready(g) || g == r) && NotAdded(r, g, argument)
    ensures r.stopped || Ready(ReadWord(r, glued))
  {
    if !r.stopped && r.awaiting.Some? {
      GluedEnd(word, glued, 0);
      assert glued[0..] == glued;
      GivenOther(r, r.awaiting.value, glued, argument);
    } else if !r.stopped && word != [] && word[0] == DASH {
      GluedFlag(word, glued);
      var at := FlagAt(glued, 1);
      assert |glued| > 2;
      GivenOther(r, glued[at], glued[at + 1..], argument);
    }
  }

  lemma Grows(r: Reader, word: Text)
    ensures |r.settings| <= |ReadWord(r, word).settings|
  {
  }

  /** A word that is no flag changes a reader that waits for nothing not at all. */
  lemma PlainWord(r: Reader, argument: Text)
    requires (Ready(r) || r.stopped) && Writable(argument)
    ensures ReadWord(r, argument) == r
  {
  }

  lemma GluedNotAdded(r: Reader, word: Text, glued: Text, argument: Text)
    requires Writable(argument) && Glued(word, glued)
    ensures ReadWord(ReadWord(r, glued), argument).settings != ReadWord(r, word).settings + [SettingOf(argument)]
  {
    var g := ReadWord(r, glued);
    GluedWord(r, word, glued, argument);
    PlainWord(g, argument);
    Grows(r, word);
    var before := ReadWord(r, word).settings;
    var sum := before + [SettingOf(argument)];
    assert |sum| == |before| + 1 && sum[|before|] == SettingOf(argument);
  }

  // ----- the law

  /**
   * Options with a setting added state what they stated and that setting, and nothing else, exactly
   * when they were complete.
   */
  lemma SettingsWithIff(options: Text, argument: Text)
    requires Writable(argument)
    ensures Settings(Words(options + [SPACE] + Flagged(argument))) == Settings(Words(options)) + [SettingOf(argument)]
            <==> Complete(options)
  {
    WordsWith(options, argument);
    if OpenEscape(options) {
      var s := Run(START, options);
      var glued := Word(s) + [SPACE] + C_FLAG;
      ReadTwo(s.words, glued, argument);
      ReadNext(READY, s.words, Word(s));
      GluedNotAdded(ReadAll(READY, s.words), Word(s), glued, argument);
    } else {
      var r := ReadAll(READY, Words(options));
      ReadTwo(Words(options), C_FLAG, argument);
      if Ready(r) { FlagC(r, argument); } else { NotReady(r, argument); }
    }
  }

  /** Complete options stay so with a setting added. */
  lemma CompleteWith(options: Text, argument: Text)
    requires Writable(argument) && Complete(options)
    ensures Complete(options + [SPACE] + Flagged(argument))
  {
    WordsWith(options, argument);
    ReadTwo(Words(options), C_FLAG, argument);
    FlagC(ReadAll(READY, Words(options)), argument);
    RunSpaced(options, argument);
    FlaggedCloses(Next(Run(START, options), SPACE), argument);
  }

  lemma FlaggedCloses(s: Splitter, argument: Text)
    requires !s.escaped && Plain(argument) && argument != []
    ensures !Run(s, Flagged(argument)).escaped
  {
    RunFlagged(s, argument);
  }

  /**
   * After options with a setting added no backslash is open, and no flag waits; the flags ended only if they had
   * before.
   */
  lemma AddedReads(options: Text, argument: Text)
    requires Writable(argument)
    ensures var before, after := ReadAll(READY, Words(options)),
            ReadAll(READY, Words(options + [SPACE] + Flagged(argument)));
            && !OpenEscape(options + [SPACE] + Flagged(argument))
            && (Ready(after) || (after.stopped && after.settings == before.settings))
  {
    WordsWith(options, argument);
    RunSpaced(options, argument);
    var s := Run(START, options);
    FlaggedCloses(Next(s, SPACE), argument);
    if OpenEscape(options) {
      var glued := Word(s) + [SPACE] + C_FLAG;
      var r := ReadAll(READY, s.words);
      ReadTwo(s.words, glued, argument);
      ReadNext(READY, s.words, Word(s));
      GluedWord(r, Word(s), glued, argument);
      PlainWord(ReadWord(r, glued), argument);
    } else {
      var r := ReadAll(READY, Words(options));
      ReadTwo(Words(options), C_FLAG, argument);
      if Ready(r) { FlagC(r, argument); } else if !r.stopped { PlainWord(ReadWord(r, C_FLAG), argument); }
    }
  }

  /** Two settings added are both read after the others exactly when the options were complete. */
  lemma TwoSettingsIff(options: Text, first: Text, second: Text)
    requires Writable(first) && Writable(second)
    ensures Settings(Words(options + [SPACE] + Flagged(first) + [SPACE] + Flagged(second)))
            == Settings(Words(options)) + [SettingOf(first)] + [SettingOf(second)]
            <==> Complete(options)
  {
    var once := options + [SPACE] + Flagged(first);
    SettingsWithIff(options, first);
    SettingsWithIff(once, second);
    AddedReads(options, first);
    AddedReads(once, second);
    if Complete(options) {
      CompleteWith(options, first);
    } else {
      var before, middle, after := Settings(Words(options)), Settings(Words(once)),
          Settings(Words(once + [SPACE] + Flagged(second)));
      if Complete(once) {
        Unequal(before, SettingOf(first), middle, SettingOf(second));
      } else {
        StoppedAdds(once, second);
        assert |before + [SettingOf(first)] + [SettingOf(second)]| == |before| + 2;
      }
    }
  }

  lemma Unequal(before: seq<Setting>, a: Setting, middle: seq<Setting>, b: Setting)
    requires middle != before + [a]
    ensures middle + [b] != before + [a] + [b]
  {
    var x, y := middle + [b], before + [a] + [b];
    assert x[..|middle|] == middle && y[..|before| + 1] == before + [a];
  }

  lemma StoppedAdds(options: Text, argument: Text)
    requires Writable(argument) && !OpenEscape(options) && ReadAll(READY, Words(options)).stopped
    ensures Settings(Words(options + [SPACE] + Flagged(argument))) == Settings(Words(options))
  {
    WordsWith(options, argument);
    ReadTwo(Words(options), C_FLAG, argument);
  }

  // ----- three options texts that swallow what is written after them

  lemma PlainStart(t: Text)
    requires Plain(t) && t != []
    ensures Run(START, t) == Splitter([], Some(t), false) && Words(t) == [t]
  {
    RunPlain(START, t);
    assert [] + t == t && [] + [t] == [t];
  }

  /** A backslash alone: the setting's flag is glued to it, and nothing is read. */
  lemma BackslashSwallows(argument: Text)
    requires Writable(argument)
    ensures OpenEscape([BACKSLASH]) && !Complete([BACKSLASH])
    ensures Settings(Words([BACKSLASH] + [SPACE] + Flagged(argument))) == []
  {
    RunNext(START, [], BACKSLASH);
    assert [] + [BACKSLASH] == [BACKSLASH];
    WordsWith([BACKSLASH], argument);
    var glued := [] + [SPACE] + C_FLAG;
    assert glued[0] == SPACE;
    ReadTwo([], glued, argument);
    assert [] + [glued, argument] == [glued, argument];
  }

  /** The end of the flags: nothing after it is read. */
  lemma FlagsEndSwallows(argument: Text)
    requires Writable(argument)
    ensures ReadAll(READY, Words(FLAGS_END)).stopped && !Complete(FLAGS_END)
    ensures Settings(Words(FLAGS_END + [SPACE] + Flagged(argument))) == []
  {
    PlainStart(FLAGS_END);
    ReadNext(READY, [], FLAGS_END);
    assert [] + [FLAGS_END] == [FLAGS_END];
    StoppedAdds(FLAGS_END, argument);
  }

  /** A flag that waits for its argument: it takes the setting's own flag for it. */
  lemma FlagSwallows(argument: Text)
    requires Writable(argument)
    ensures ReadAll(READY, Words(C_FLAG)).awaiting == Some(LETTER_C) && !Complete(C_FLAG)
    ensures Settings(Words(C_FLAG + [SPACE] + Flagged(argument))) == [SettingOf(C_FLAG)]
  {
    PlainStart(C_FLAG);
    ReadNext(READY, [], C_FLAG);
    assert [] + [C_FLAG] == [C_FLAG] && C_FLAG[1] == LETTER_C && TakesArgument(LETTER_C) && FlagAt(C_FLAG, 1) == 1;
    WordsWith(C_FLAG, argument);
    ReadTwo(Words(C_FLAG), C_FLAG, argument);
    assert [] + [SettingOf(C_FLAG)] == [SettingOf(C_FLAG)];
  }
}
