/**
 * Startup options as the server reads them: split into words at whitespace that no backslash
 * escapes, and read as flags with getopt. What a rewritten options text states is proved from
 * what the text before it stated.
 */
module StartupOptions {
  import opened Texts

  const LETTER_C: CodeUnit := 0x63
  const C_FLAG: Text := [DASH, LETTER_C]
  const FLAGS_END: Text := [DASH, DASH]

  // ----- words

  predicate IsSeparator(c: CodeUnit) {
    c == 0x20 || 0x09 <= c <= 0x0d
  }

  /** What the splitter keeps: the words so far, the word being read, and whether a backslash came last. */
  datatype Splitter = Splitter(words: seq<Text>, word: Option<Text>, escaped: bool)

  const START := Splitter([], None, false)

  function Word(s: Splitter): Text {
    if s.word.Some? then s.word.value else []
  }

  function Done(s: Splitter): seq<Text> {
    if s.word.Some? then s.words + [s.word.value] else s.words
  }

  /** One character. */
  function Next(s: Splitter, c: CodeUnit): Splitter {
    if !s.escaped && IsSeparator(c) then Splitter(Done(s), None, false)
    else if !s.escaped && c == BACKSLASH then s.(escaped := true, word := Some(Word(s)))
    else s.(escaped := false, word := Some(Word(s) + [c]))
  }

  function Run(s: Splitter, t: Text): Splitter
    decreases |t|
  {
    if t == [] then s else Run(Next(s, t[0]), t[1..])
  }

  /** The words of an options text. */
  function Words(t: Text): seq<Text> {
    Done(Run(START, t))
  }

  lemma {:induction false} RunNext(s: Splitter, t: Text, c: CodeUnit)
    ensures Run(s, t + [c]) == Next(Run(s, t), c)
    decreases |t|
  {
    if t == [] {
      assert Run(Next(s, c), []) == Next(s, c);
      assert t + [c] == [c] && [c][1..] == [];
    } else {
      RunNext(Next(s, t[0]), t[1..], c);
      assert (t + [c])[1..] == t[1..] + [c];
    }
  }

  /** `startupWords`. */
  method StartupWords(options: Text) returns (words: seq<Text>)
    ensures words == Words(options)
  {
    words := [];
    var word: Option<Text> := None;
    var escaped := false;
    for i := 0 to |options|
      invariant Splitter(words, word, escaped) == Run(START, options[..i])
    {
      var c := options[i];
      RunNext(START, options[..i], c);
      assert options[..i + 1] == options[..i] + [c];
      if !escaped && IsSeparator(c) {
        if word.Some? {
          words := words + [word.value];
        }
        word := None;
      } else if !escaped && c == BACKSLASH {
        escaped := true;
        word := if word.Some? then word else Some([]);
      } else {
        escaped := false;
        word := Some((if word.Some? then word.value else []) + [c]);
      }
    }
    assert options[..|options|] == options;
    if word.Some? {
      words := words + [word.value];
    }
  }

  // ----- settings

  datatype Setting = Setting(name: Text, value: Text)

  function LowerUnit(c: CodeUnit): CodeUnit {
    if c == DASH then 0x5f else Lower(c)
  }

  /** `normalisedName`: dashes read as underscores, and ASCII case ignored. */
  function Normalised(t: Text): (r: Text)
    ensures |r| == |t|
  {
    if t == [] then [] else [LowerUnit(t[0])] + Normalised(t[1..])
  }

  function EqualsAt(t: Text): (n: nat)
    ensures n <= |t|
  {
    if t == [] || t[0] == EQUALS then 0 else 1 + EqualsAt(t[1..])
  }

  /** The setting an argument states. */
  function SettingOf(argument: Text): Setting {
    var eq := EqualsAt(argument);
    if eq == |argument| then Setting(Normalised(argument), [])
        else Setting(Normalised(argument[..eq]), argument[eq + 1..])
  }

  /** The server's flags that take an argument: `BCcDdfhkNprStvW-`. */
  predicate TakesArgument(c: CodeUnit) {
    c in [0x42, 0x43, 0x63, 0x44, 0x64, 0x66, 0x68, 0x6b, 0x4e, 0x70, 0x72, 0x53, 0x74, 0x76, 0x57, 0x2d]
  }

  /** Where the first flag with an argument is in a word, from `at` on; the end of the word, when none is. */
  function FlagAt(word: Text, at: nat): (n: nat)
    requires at <= |word|
    ensures at <= n <= |word|
    decreases |word| - at
  {
    if at == |word| || TakesArgument(word[at]) then at else FlagAt(word, at + 1)
  }

  function Given(flag: CodeUnit, argument: Text): seq<Setting> {
    if (flag == LETTER_C || flag == DASH) && argument != [] then [SettingOf(argument)] else []
  }

  /**
   * What the reader keeps: the settings so far, a flag that still waits for its argument, and whether the flags
   * ended.
   */
  datatype Reader = Reader(settings: seq<Setting>, awaiting: Option<CodeUnit>, stopped: bool)

  const READY := Reader([], None, false)

  /** One word. */
  function ReadWord(r: Reader, word: Text): Reader {
    if r.stopped then r
    else if r.awaiting.Some? then r.(settings := r.settings + Given(r.awaiting.value, word), awaiting := None)
    else if word == FLAGS_END then r.(stopped := true)
    else if word == [] || word[0] != DASH then r
    else
      var at := FlagAt(word, 1);
      if at == |word| then r
      else if at + 1 == |word| then r.(awaiting := Some(word[at]))
      else r.(settings := r.settings + Given(word[at], word[at + 1..]))
  }

  function ReadAll(r: Reader, words: seq<Text>): Reader
    decreases |words|
  {
    if words == [] then r else ReadAll(ReadWord(r, words[0]), words[1..])
  }

  /** The settings in the words. */
  function Settings(words: seq<Text>): seq<Setting> {
    ReadAll(READY, words).settings
  }

  /** `-c`, a space and a setting: what is added to options to write one. */
  function Flagged(argument: Text): Text {
    C_FLAG + [SPACE] + argument
  }

  /** Options with a flag after them. */
  function Added(options: Text, flag: Text): Text {
    if options == [] then flag else options + [SPACE] + flag
  }

  lemma {:induction false} ReadNext(r: Reader, words: seq<Text>, word: Text)
    ensures ReadAll(r, words + [word]) == ReadWord(ReadAll(r, words), word)
    decreases |words|
  {
    if words == [] {
      assert words + [word] == [word] && [word][1..] == [];
    } else {
      ReadNext(ReadWord(r, words[0]), words[1..], word);
      assert (words + [word])[1..] == words[1..] + [word];
    }
  }

  lemma {:induction false} StoppedStays(r: Reader, words: seq<Text>)
    requires r.stopped
    ensures ReadAll(r, words) == r
  {
    if words != [] { StoppedStays(r, words[1..]); }
  }

  /** The rest of the words, read: what is left to find. */
  ghost predicate ReadSoFar(words: seq<Text>, settings: seq<Setting>, i: nat) {
    i <= |words| && ReadAll(READY, words) == ReadAll(Reader(settings, None, false), words[i..])
  }

  lemma ReadOne(words: seq<Text>, r: Reader, i: nat)
    requires i < |words|
    ensures ReadAll(r, words[i..]) == ReadAll(ReadWord(r, words[i]), words[i + 1..])
  {
    assert words[i..][0] == words[i] && words[i..][1..] == words[i + 1..];
  }

  /** `settingsIn`: where a word's flag takes the next word, the loop passes over that one too. */
  method SettingsIn(words: seq<Text>) returns (settings: seq<Setting>)
    ensures settings == Settings(words)
  {
    settings := [];
    assert words[0..] == words;
    var i := 0;
    while i < |words|
      invariant ReadSoFar(words, settings, i)
      decreases |words| - i
    {
      var word := words[i];
      var r := Reader(settings, None, false);
      ReadOne(words, r, i);
      if word == FLAGS_END {
        StoppedStays(ReadWord(r, word), words[i + 1..]);
        return;
      }
      if word != [] && word[0] == DASH {
        var at := ScanFlags(word);
        if at < |word| {
          if at + 1 < |word| {
            settings := settings + Given(word[at], word[at + 1..]);
          } else {
            i := i + 1;
            if i == |words| {
              return;
            }
            ReadOne(words, ReadWord(r, word), i);
            settings := settings + Given(word[at], words[i]);
          }
        }
      }
      i := i + 1;
    }
  }

  /** The loop over one word's flags. */
  method ScanFlags(word: Text) returns (at: nat)
    requires |word| >= 1
    ensures at == FlagAt(word, 1)
  {
    at := 1;
    while at < |word| && !TakesArgument(word[at])
      invariant 1 <= at <= |word| && FlagAt(word, 1) == FlagAt(word, at)
    {
      at := at + 1;
    }
  }
}
