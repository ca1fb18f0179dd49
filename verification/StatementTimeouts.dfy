/** The values options give `statement_timeout`, and the mentions of it that are not read as one. */
module StatementTimeouts {
  import opened Texts
  import opened StartupOptions

  /** `statement_timeout`. */
  const STATEMENT_TIMEOUT: Text :=
    [0x73, 0x74, 0x61, 0x74, 0x65, 0x6d, 0x65, 0x6e, 0x74, 0x5f, 0x74, 0x69, 0x6d, 0x65, 0x6f, 0x75, 0x74]

  /** `text.split(part).length - 1`: how often the name stands in a text, from left to right. */
  function Mentions(text: Text, name: Text): nat
    requires name != []
    decreases |text|
  {
    if |text| < |name| then 0
    else if text[..|name|] == name then 1 + Mentions(text[|name|..], name)
    else Mentions(text[1..], name)
  }

  function JoinWords(words: seq<Text>): Text {
    if words == [] then [] else if |words| == 1 then words[0] else words[0] + [SPACE] + JoinWords(words[1..])
  }

  /** The values of the settings with a name. */
  function ValuesOf(settings: seq<Setting>, name: Text): seq<Text> {
    if settings == [] then []
    else (if settings[0].name == name then [settings[0].value] else []) + ValuesOf(settings[1..], name)
  }

  /** The values read, and whether a mention was not read as one. */
  datatype Timeouts = Timeouts(values: seq<Text>, unread: bool)

  /** `statementTimeoutsIn`. */
  method StatementTimeoutsIn(options: Text) returns (r: Timeouts)
    ensures r == TimeoutsIn(options)
  {
    var words := StartupWords(options);
    var settings := SettingsIn(words);
    var values := ValuesOf(settings, STATEMENT_TIMEOUT);
    r := Timeouts(values, Mentions(Normalised(JoinWords(words)), STATEMENT_TIMEOUT) > |values|);
  }

  function TimeoutsIn(options: Text): Timeouts {
    var words := Words(options);
    var values := ValuesOf(Settings(words), STATEMENT_TIMEOUT);
    Timeouts(values, Mentions(Normalised(JoinWords(words)), STATEMENT_TIMEOUT) > |values|)
  }

  // ----- every value is a mention

  lemma MentionsSplit(a: Text, b: Text, name: Text)
    requires name != [] && SPACE !in name
    ensures Mentions(a + [SPACE] + b, name) == Mentions(a, name) + Mentions(b, name)
    decreases |a|
  {
    var t := a + [SPACE] + b;
    if |a| < |name| {
      NoneAcross(a, b, name);
    } else if a[..|name|] == name {
      MentionsSplit(a[|name|..], b, name);
      assert t[..|name|] == a[..|name|];
      assert t[|name|..] == a[|name|..] + [SPACE] + b;
    } else {
      MentionsSplit(a[1..], b, name);
      assert t[..|name|] == a[..|name|];
      assert t[1..] == a[1..] + [SPACE] + b;
    }
  }

  /** No mention reaches across a space. */
  lemma {:induction false} NoneAcross(a: Text, b: Text, name: Text)
    requires name != [] && SPACE !in name && |a| < |name|
    ensures Mentions(a + [SPACE] + b, name) == Mentions(b, name)
    decreases |a|
  {
    var t := a + [SPACE] + b;
    if |t| >= |name| {
      assert t[..|name|][|a|] == SPACE;
      if a == [] {
        assert t[1..] == b;
      } else {
        NoneAcross(a[1..], b, name);
        assert t[1..] == a[1..] + [SPACE] + b;
      }
    }
  }

  lemma {:induction false} NormalisedConcat(a: Text, b: Text)
    ensures Normalised(a + b) == Normalised(a) + Normalised(b)
    decreases |a|
  {
    if a == [] {
      assert a + b == b;
    } else {
      NormalisedConcat(a[1..], b);
      assert (a + b)[1..] == a[1..] + b && (a + b)[0] == a[0];
      Group([LowerUnit(a[0])], Normalised(a[1..]), Normalised(b));
    }
  }

  /** The mentions in words, one by one. */
  function MentionsIn(words: seq<Text>, name: Text): nat
    requires name != []
  {
    if words == [] then 0 else Mentions(Normalised(words[0]), name) + MentionsIn(words[1..], name)
  }

  lemma {:induction false} MentionsJoined(words: seq<Text>, name: Text)
    requires name != [] && SPACE !in name
    ensures Mentions(Normalised(JoinWords(words)), name) == MentionsIn(words, name)
  {
    if |words| > 1 {
      MentionsJoined(words[1..], name);
      var a, b := words[0], JoinWords(words[1..]);
      NormalisedConcat(a + [SPACE], b);
      NormalisedConcat(a, [SPACE]);
      assert Normalised([SPACE]) == [SPACE];
      MentionsSplit(Normalised(a), Normalised(b), name);
    } else if |words| == 1 {
      assert words[1..] == [];
    }
  }

  lemma {:induction false} MentionedAt(text: Text, name: Text, at: nat)
    requires name != [] && at + |name| <= |text| && text[at..at + |name|] == name
    ensures Mentions(text, name) >= 1
    decreases |text|
  {
    if text[..|name|] != name {
      assert at > 0;
      assert text[1..][at - 1..at - 1 + |name|] == text[at..at + |name|];
      MentionedAt(text[1..], name, at - 1);
    }
  }

  /** An argument that states a setting with a name mentions the name, wherever the argument stands in a word. */
  lemma StatedIsMentioned(word: Text, from: nat, name: Text)
    requires name != [] && from <= |word| && SettingOf(word[from..]).name == name
    ensures Mentions(Normalised(word), name) >= 1
  {
    var argument := word[from..];
    var eq := EqualsAt(argument);
    var before, stated, after := word[..from], argument[..eq], argument[eq..];
    assert eq == |argument| ==> stated == argument;
    assert word == before + stated + after;
    NormalisedConcat(before + stated, after);
    NormalisedConcat(before, stated);
    MentionedAt(Normalised(word), name, |before|);
  }

  lemma {:induction false} ValuesConcat(a: seq<Setting>, b: seq<Setting>, name: Text)
    ensures ValuesOf(a + b, name) == ValuesOf(a, name) + ValuesOf(b, name)
    decreases |a|
  {
    if a == [] {
      assert a + b == b;
    } else {
      ValuesConcat(a[1..], b, name);
      assert (a + b)[1..] == a[1..] + b;
      assert (a + b)[0] == a[0];
    }
  }

  lemma GivenIsMentioned(flag: CodeUnit, word: Text, from: nat, name: Text)
    requires name != [] && from <= |word|
    ensures |ValuesOf(Given(flag, word[from..]), name)| <= Mentions(Normalised(word), name)
  {
    var s := Given(flag, word[from..]);
    if s != [] && s[0].name == name {
      StatedIsMentioned(word, from, name);
      assert s[1..] == [];
    } else if s != [] {
      assert s[1..] == [];
    }
  }

  /** One word adds no more values than it has mentions. */
  lemma OneWordMentioned(r: Reader, word: Text, name: Text)
    requires name != []
    ensures |ValuesOf(ReadWord(r, word).settings, name)| <= |ValuesOf(r.settings, name)|
            + Mentions(Normalised(word), name)
  {
    if !r.stopped && r.awaiting.Some? {
      assert word[0..] == word;
      GivenIsMentioned(r.awaiting.value, word, 0, name);
      ValuesConcat(r.settings, Given(r.awaiting.value, word), name);
    } else if !r.stopped && word != [] && word[0] == DASH && word != FLAGS_END && FlagAt(word, 1) + 1 < |word| {
      var at := FlagAt(word, 1);
      GivenIsMentioned(word[at], word, at + 1, name);
      ValuesConcat(r.settings, Given(word[at], word[at + 1..]), name);
    }
  }

  lemma {:induction false} WordsMentioned(r: Reader, words: seq<Text>, name: Text)
    requires name != []
    ensures |ValuesOf(ReadAll(r, words).settings, name)| <= |ValuesOf(r.settings, name)| + MentionsIn(words, name)
    decreases |words|
  {
    if words != [] {
      OneWordMentioned(r, words[0], name);
      WordsMentioned(ReadWord(r, words[0]), words[1..], name);
    }
  }

  /**
   * No more values are read than the name is mentioned, so a mention is left unread exactly when
   * their numbers differ.
   */
  lemma ValuesAreMentions(options: Text)
    ensures |ValuesOf(Settings(Words(options)), STATEMENT_TIMEOUT)|
            <= Mentions(Normalised(JoinWords(Words(options))), STATEMENT_TIMEOUT)
  {
    WordsMentioned(READY, Words(options), STATEMENT_TIMEOUT);
    MentionsJoined(Words(options), STATEMENT_TIMEOUT);
  }
}
