/** A URL that a timeout was written into, given to `withStatementTimeout` again. */
module TimeoutReread {
  import opened Texts
  import opened StartupOptions
  import opened StartupOptionProofs
  import opened StatementTimeouts
  import opened OptionTrims
  import opened DatabaseUrls
  import opened DatabaseUrlProofs

  // ----- mentions

  lemma {:induction false} MentionsPrefix(a: Text, b: Text, name: Text)
    requires name != []
    ensures Mentions(a + b, name) >= Mentions(a, name)
    decreases |a|
  {
    var t := a + b;
    if |a| >= |name| {
      assert t[..|name|] == a[..|name|];
      var n := if a[..|name|] == name then |name| else 1;
      assert t[n..] == a[n..] + b;
      MentionsPrefix(a[n..], b, name);
    }
  }

  lemma {:induction false} NoMention(t: Text, name: Text)
    requires name != [] && name[0] !in t
    ensures Mentions(t, name) == 0
    decreases |t|
  {
    if |t| >= |name| {
      assert t[..|name|][0] == t[0];
      NoMention(t[1..], name);
    }
  }

  lemma {:induction false} MentionsInConcat(a: seq<Text>, b: seq<Text>, name: Text)
    requires name != []
    ensures MentionsIn(a + b, name) == MentionsIn(a, name) + MentionsIn(b, name)
  {
    if a == [] {
      assert a + b == b;
    } else {
      MentionsInConcat(a[1..], b, name);
      assert (a + b)[1..] == a[1..] + b;
    }
  }

  lemma MentionsInOne(words: seq<Text>, w: Text, name: Text)
    requires name != []
    ensures MentionsIn(words + [w], name) == MentionsIn(words, name) + Mentions(Normalised(w), name)
  {
    MentionsInConcat(words, [w], name);
    assert [w][1..] == [];
  }

  lemma MentionsDone(s: Splitter, name: Text)
    requires name != []
    ensures MentionsIn(Done(s), name) == MentionsIn(s.words, name) + Mentions(Normalised(Word(s)), name)
  {
    if s.word.Some? { MentionsInOne(s.words, s.word.value, name); }
  }

  lemma MentionsNext(s: Splitter, c: CodeUnit, name: Text)
    requires name != []
    ensures MentionsIn(Done(Next(s, c)), name) >= MentionsIn(Done(s), name)
  {
    MentionsDone(s, name);
    MentionsDone(Next(s, c), name);
    NormalisedConcat(Word(s), [c]);
    MentionsPrefix(Normalised(Word(s)), Normalised([c]), name);
  }

  /** More options mention a name no less. */
  lemma {:induction false} MentionsGrow(s: Splitter, t: Text, name: Text)
    requires name != []
    ensures MentionsIn(Done(Run(s, t)), name) >= MentionsIn(Done(s), name)
    decreases |t|
  {
    if t != [] {
      MentionsNext(s, t[0], name);
      MentionsGrow(Next(s, t[0]), t[1..], name);
    }
  }

  lemma ShortMention(w: Text, name: Text)
    requires name != [] && |w| < |name|
    ensures Mentions(Normalised(w), name) == 0
  {
  }

  /** A name, `=` and a number mention the name once. */
  lemma ArgumentMentions(name: Text, ms: nat)
    requires LowerName(name)
    ensures Mentions(Normalised(name + [EQUALS] + NatText(ms)), name) == 1
  {
    var digits := NatText(ms);
    var rest := [EQUALS] + digits;
    assert name + [EQUALS] + digits == name + rest;
    NormalisedConcat(name, rest);
    LowerNameNormal(name);
    DigitsNormal(rest);
    assert forall i | 0 <= i < |digits| :: IsDigit(digits[i]);
    NoMention(rest, name);
    var t := name + rest;
    assert t[..|name|] == name && t[|name|..] == rest;
  }

  lemma {:induction false} DigitsNormal(t: Text)
    requires forall i | 0 <= i < |t| :: IsDigit(t[i]) || t[i] == EQUALS
    ensures Normalised(t) == t
  {
    if t != [] { DigitsNormal(t[1..]); }
  }

  // ----- values

  /** Words without a mention give no value. */
  lemma NoValues(words: seq<Text>, name: Text)
    requires name != [] && MentionsIn(words, name) == 0
    ensures ValuesOf(Settings(words), name) == []
  {
    WordsMentioned(READY, words, name);
  }

  /** A plain word that is read as no argument adds nothing, and words without a mention after it neither. */
  lemma NoValuesPast(words: seq<Text>, argument: Text, more: seq<Text>, name: Text)
    requires name != [] && MentionsIn(words, name) == 0 && MentionsIn(more, name) == 0 && Writable(argument)
    requires Ready(ReadAll(READY, words)) || ReadAll(READY, words).stopped
    ensures ValuesOf(Settings(words + [argument] + more), name) == []
  {
    var r := ReadAll(READY, words);
    NoValues(words, name);
    ReadNext(READY, words, argument);
    PlainWord(r, argument);
    ReadConcat(READY, words + [argument], more);
    WordsMentioned(r, more, name);
  }

  lemma {:induction false} ReadConcat(r: Reader, a: seq<Text>, b: seq<Text>)
    ensures ReadAll(r, a + b) == ReadAll(ReadAll(r, a), b)
    decreases |a|
  {
    if a == [] {
      assert a + b == b;
    } else {
      ReadConcat(ReadWord(r, a[0]), a[1..], b);
      assert (a + b)[1..] == a[1..] + b;
    }
  }

  // ----- the words around the timeout

  /** What comes before the timeout's own word, and the reader there, when the options are not complete. */
  lemma BeforeArgument(core: Text, argument: Text, name: Text) returns (words: seq<Text>)
    requires Writable(argument) && name != [] && SPACE !in name && |name| > 2 && MentionsIn(Words(core), name) == 0
             && !Complete(core)
    ensures Words(Added(core, Flagged(argument))) == words + [argument] && MentionsIn(words, name) == 0
    ensures Ready(ReadAll(READY, words)) || ReadAll(READY, words).stopped
  {
    CompleteEmpty();
    WordsWith(core, argument);
    if OpenEscape(core) {
      words := GluedBefore(core, argument, name);
    } else {
      words := Words(core) + [C_FLAG];
      MentionsInOne(Words(core), C_FLAG, name);
      ReadNext(READY, Words(core), C_FLAG);
      assert words + [argument] == Words(core) + [C_FLAG, argument];
    }
  }

  lemma CompleteEmpty()
    ensures Complete([])
  {
  }

  lemma GluedBefore(core: Text, argument: Text, name: Text) returns (words: seq<Text>)
    requires Writable(argument) && name != [] && SPACE !in name && |name| > 2 && MentionsIn(Words(core), name) == 0
             && OpenEscape(core)
    ensures Words(core + [SPACE] + Flagged(argument)) == words + [argument] && MentionsIn(words, name) == 0
    ensures Ready(ReadAll(READY, words)) || ReadAll(READY, words).stopped
  {
    var s := Run(START, core);
    var w := Word(s);
    var glued := w + [SPACE] + C_FLAG;
    WordsWith(core, argument);
    words := s.words + [glued];
    assert words + [argument] == s.words + [glued, argument];
    MentionsInOne(s.words, w, name);
    MentionsInOne(s.words, glued, name);
    NormalisedConcat(w + [SPACE], C_FLAG);
    NormalisedConcat(w, [SPACE]);
    assert Normalised([SPACE]) == [SPACE];
    MentionsSplit(Normalised(w), Normalised(C_FLAG), name);
    ReadNext(READY, s.words, glued);
    GluedWord(ReadAll(READY, s.words), w, glued, argument);
  }

  // ----- the options read again

  /** What may stand after the timeout: nothing, or the UTC option. */
  ghost predicate Tail(tail: seq<Text>) {
    tail == [] || tail == [C_FLAG, UTC_ARGUMENT]
  }

  lemma TailMentionsNothing(tail: seq<Text>, name: Text)
    requires Tail(tail) && |name| > 12
    ensures MentionsIn(tail, name) == 0
  {
    ShortMention(C_FLAG, name);
    ShortMention(UTC_ARGUMENT, name);
    if tail != [] {
      MentionsInOne([], C_FLAG, name);
      MentionsInOne([C_FLAG], UTC_ARGUMENT, name);
      assert [] + [C_FLAG] == [C_FLAG] && [C_FLAG] + [UTC_ARGUMENT] == tail;
    }
  }

  /** The words, the timeout's name and what was mentioned before it. */
  ghost predicate Fresh(core: Text, argument: Text, tail: seq<Text>, name: Text, ms: nat) {
    && Writable(argument) && SettingOf(argument) == Setting(name, NatText(ms)) && LowerName(name) && |name| > 12
    && argument == name + [EQUALS] + NatText(ms) && Tail(tail) && MentionsIn(Words(core), name) == 0
  }

  lemma RereadComplete(core: Text, argument: Text, tail: seq<Text>, name: Text, ms: nat)
    requires Fresh(core, argument, tail, name, ms) && Complete(core)
    ensures var words := Words(Added(core, Flagged(argument))) + tail;
            ValuesOf(Settings(words), name) == [NatText(ms)] && MentionsIn(words, name) == 1
  {
    var before := Words(core);
    var words := before + [C_FLAG, argument];
    WordsSpaced(core, argument);
    NoValues(before, name);
    AppendedIff(before, argument);
    ValuesConcat(Settings(before), [SettingOf(argument)], name);
    assert [SettingOf(argument)][1..] == [];
    assert ValuesOf(Settings(words), name) == [] + [NatText(ms)] == [NatText(ms)];
    ReadConcat(READY, words, tail);
    TailMentionsNothing(tail, name);
    TailAddsNothing(words, tail, name);
    MentionsInOne(before, C_FLAG, name);
    ShortMention(C_FLAG, name);
    MentionsInOne(before + [C_FLAG], argument, name);
    assert before + [C_FLAG] + [argument] == words;
    ArgumentMentions(name, ms);
    MentionsInConcat(words, tail, name);
  }

  lemma TailAddsNothing(words: seq<Text>, tail: seq<Text>, name: Text)
    requires Tail(tail) && name != [] && MentionsIn(tail, name) == 0
    ensures ValuesOf(Settings(words + tail), name) == ValuesOf(Settings(words), name)
  {
    ReadConcat(READY, words, tail);
    GrowsBy(ReadAll(READY, words), tail, name);
  }

  /** Words without a mention leave the values as they are. */
  lemma {:induction false} GrowsBy(r: Reader, words: seq<Text>, name: Text)
    requires name != [] && MentionsIn(words, name) == 0
    ensures ValuesOf(ReadAll(r, words).settings, name) == ValuesOf(r.settings, name)
    decreases |words|
  {
    if words != [] {
      GrowsByOne(r, words[0], name);
      GrowsBy(ReadWord(r, words[0]), words[1..], name);
    }
  }

  lemma GrowsByOne(r: Reader, word: Text, name: Text)
    requires name != [] && Mentions(Normalised(word), name) == 0
    ensures ValuesOf(ReadWord(r, word).settings, name) == ValuesOf(r.settings, name)
  {
    if !r.stopped && r.awaiting.Some? {
      assert word[0..] == word;
      GivenIsMentioned(r.awaiting.value, word, 0, name);
      ValuesConcat(r.settings, Given(r.awaiting.value, word), name);
    } else if !r.stopped && word != [] && word[0] == DASH && word != FLAGS_END && FlagAt(word, 1) + 1 < |word| {
      var at := FlagAt(word, 1);
      GivenIsMentioned(word[at], word, at + 1, name);
      ValuesConcat(r.settings, Given(word[at], word[at + 1..]), name);
    }
  }

  lemma RereadIncomplete(core: Text, argument: Text, tail: seq<Text>, name: Text, ms: nat)
    requires Fresh(core, argument, tail, name, ms) && !Complete(core)
    ensures var words := Words(Added(core, Flagged(argument))) + tail;
            ValuesOf(Settings(words), name) == [] && MentionsIn(words, name) >= 1
  {
    assert SPACE !in name;
    var before := BeforeArgument(core, argument, name);
    TailMentionsNothing(tail, name);
    NoValuesPast(before, argument, tail, name);
    MentionsInOne(before, argument, name);
    ArgumentMentions(name, ms);
    MentionsInConcat(before + [argument], tail, name);
  }

  lemma OptionsReread(core: Text, after: Text, tail: seq<Text>, ms: nat)
    requires Tail(tail) && Words(after) == Words(Added(core, Flagged(TimeoutArgument(ms)))) + tail
    requires MentionsIn(Words(core), STATEMENT_TIMEOUT) == 0
    ensures TimeoutsIn(after) == if Complete(core) then Timeouts([NatText(ms)], false) else Timeouts([], true)
  {
    TimeoutWritable(ms);
    assert LowerName(STATEMENT_TIMEOUT);
    MentionsJoined(Words(after), STATEMENT_TIMEOUT);
    if Complete(core) {
      RereadComplete(core, TimeoutArgument(ms), tail, STATEMENT_TIMEOUT, ms);
    } else {
      RereadIncomplete(core, TimeoutArgument(ms), tail, STATEMENT_TIMEOUT, ms);
    }
  }

  /** What a timeout is written after: the options, or what comes before a UTC option they end with. */
  ghost function WrittenAfter(existing: Text): Text {
    if EndsWithUtc(existing) then BeforeUtc(existing) else existing
  }

  /** Options that mention no timeout mention none before a UTC option they end with. */
  lemma CoreMentionsNothing(existing: Text)
    requires Trimmed(existing) && MentionsIn(Words(existing), STATEMENT_TIMEOUT) == 0
    ensures MentionsIn(Words(WrittenAfter(existing)), STATEMENT_TIMEOUT) == 0
  {
    if EndsWithUtc(existing) {
      var core := BeforeUtc(existing);
      UtcEnd(existing);
      UpToSplits(existing);
      var rest := Trail(UpToOption(existing)) + UTC_SESSION_OPTION;
      Group(core, Trail(UpToOption(existing)), UTC_SESSION_OPTION);
      RunConcat(START, core, rest);
      MentionsGrow(Run(START, core), rest, STATEMENT_TIMEOUT);
    }
  }

  lemma AddedReread(existing: Text, ms: nat)
    requires Trimmed(existing) && TimeoutsIn(existing) == Timeouts([], false)
    ensures TimeoutsIn(TimeoutAdded(existing, ms)) ==
            if Complete(WrittenAfter(existing)) then Timeouts([NatText(ms)], false) else Timeouts([], true)
  {
    var core := WrittenAfter(existing);
    MentionsJoined(Words(existing), STATEMENT_TIMEOUT);
    CoreMentionsNothing(existing);
    TimeoutWritable(ms);
    UtcWritable();
    if EndsWithUtc(existing) {
      WrittenBefore(existing, core, ms);
      WordsSpaced(core, TimeoutArgument(ms));
      WordsSpaced(Added(core, Flagged(TimeoutArgument(ms))), UTC_ARGUMENT);
      OptionsReread(core, TimeoutAdded(existing, ms), [C_FLAG, UTC_ARGUMENT], ms);
    } else {
      var words := Words(Added(core, Flagged(TimeoutArgument(ms))));
      assert words + [] == words;
      OptionsReread(core, TimeoutAdded(existing, ms), [], ms);
    }
  }

  /**
   * `withStatementTimeout` accepts its own output, as it is, exactly when the options it wrote the
   * timeout after were complete; otherwise it refuses it as a mention it cannot read.
   */
  lemma AcceptsOwnOutput(codec: Codec, url: Text, ms: nat, v: Text, before: Startup)
    requires Lawful(codec) && StartupOf(codec, url) == Ok(before) && TimeoutsIn(before.existing) == Timeouts([], false)
    requires WithStatementTimeout(codec, url, Some(ms)) == Ok(v)
    ensures WithStatementTimeout(codec, v, Some(ms)) ==
            if Complete(WrittenAfter(before.existing)) then Ok(v) else Err(TimeoutUnread)
  {
    TimeoutReads(codec, url, ms, v);
    ExistingTrimmed(codec, url);
    AddedReread(before.existing, ms);
    assert NatText(ms) == [NatText(ms)][0];
  }
}
