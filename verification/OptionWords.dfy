/** What options can be written as: the words they are split into, and the words that state a setting. */
module OptionWords {
  import opened Texts
  import opened StartupOptions
  import opened StartupOptionProofs
  import opened OptionTrims

  // ----- splitting

  /** A word as it can be written: a character after a backslash, or alone if it neither separates nor escapes. */
  ghost predicate Writes(t: Text, w: Text)
    decreases |t|
  {
    if t == [] || w == [] then t == w
    else if t[0] == BACKSLASH then |t| >= 2 && t[1] == w[0] && Writes(t[2..], w[1..])
    else !IsSeparator(t[0]) && t[0] == w[0] && Writes(t[1..], w[1..])
  }

  /** Options as they can be written: separators anywhere but inside a word, one at least between two words, and no
   *  more than a backslash left open at the end. */
  datatype Piece = Separator(c: CodeUnit) | Written(t: Text, w: Text)

  ghost predicate Proper(pieces: seq<Piece>) {
    && (forall i :: 0 <= i < |pieces| ==> match pieces[i]
                                          case Separator(c) => IsSeparator(c)
                                          case Written(t, w) => t != [] && Writes(t, w))
    && (forall i :: 0 < i < |pieces| ==> pieces[i].Separator? || pieces[i - 1].Separator?)
  }

  ghost function TextOf(pieces: seq<Piece>): Text {
    if pieces == [] then []
    else match pieces[0]
         case Separator(c) => [c] + TextOf(pieces[1..])
         case Written(t, w) => t + TextOf(pieces[1..])
  }

  ghost function WordsOf(pieces: seq<Piece>): seq<Text> {
    if pieces == [] then []
    else if pieces[0].Separator? then WordsOf(pieces[1..])
    else [pieces[0].w] + WordsOf(pieces[1..])
  }

  /** A written word is added to the word being read. */
  lemma {:induction false} WriteRead(s: Splitter, t: Text, w: Text)
    requires Writes(t, w) && !s.escaped && t != []
    ensures Run(s, t) == s.(word := Some(Word(s) + w))
    decreases |t|
  {
    var escaped := t[0] == BACKSLASH;
    var n, k := Next(s, t[0]), 1;
    if escaped {
      assert t[1..][0] == t[1] && t[1..][1..] == t[2..];
      n, k := Next(n, t[1]), 2;
    }
    assert n == s.(word := Some(Word(s) + [w[0]])) && Run(s, t) == Run(n, t[k..]);
    if t[k..] != [] {
      WriteRead(n, t[k..], w[1..]);
      Grouped(Word(s), w);
    } else {
      assert w == [w[0]];
    }
  }

  lemma Grouped(a: Text, w: Text)
    requires w != []
    ensures (a + [w[0]]) + w[1..] == a + w
  {
  }

  ghost predicate Closed(s: Splitter) {
    !s.escaped && s.word.None?
  }

  lemma SeparatorRead(s: Splitter, c: CodeUnit, t: Text)
    requires IsSeparator(c) && !s.escaped
    ensures Run(s, [c] + t) == Run(Splitter(Done(s), None, false), t)
  {
    assert ([c] + t)[0] == c && ([c] + t)[1..] == t;
  }

  /** Options that are written word by word are split into these words. */
  lemma {:induction false} PiecesRead(s: Splitter, pieces: seq<Piece>)
    requires Proper(pieces) && !s.escaped && (s.word.Some? && pieces != [] ==> pieces[0].Separator?)
    ensures Done(Run(s, TextOf(pieces))) == Done(s) + WordsOf(pieces)
    ensures !Run(s, TextOf(pieces)).escaped
    decreases |pieces|
  {
    if pieces != [] {
      var rest := pieces[1..];
      assert Proper(rest) by { assert forall i :: 0 <= i < |rest| ==> rest[i] == pieces[i + 1]; }
      match pieces[0] {
        case Separator(c) =>
          SeparatorRead(s, c, TextOf(rest));
          PiecesRead(Splitter(Done(s), None, false), rest);
        case Written(t, w) =>
          var n := s.(word := Some(w));
          WriteRead(s, t, w);
          assert Word(s) + w == w;
          RunConcat(s, t, TextOf(rest));
          assert rest != [] ==> rest[0] == pieces[1];
          PiecesRead(n, rest);
          assert s.words + [w] + WordsOf(rest) == s.words + ([w] + WordsOf(rest));
      }
    }
  }

  lemma ProperTail(pieces: seq<Piece>)
    requires Proper(pieces) && pieces != []
    ensures Proper(pieces[1..])
  {
    var rest := pieces[1..];
    assert forall i :: 0 <= i < |rest| ==> rest[i] == pieces[i + 1];
  }

  lemma Merged(u: Text, c: CodeUnit, pieces: seq<Piece>) returns (r: seq<Piece>)
    requires Proper(pieces) && pieces != [] && pieces[0].Written? && u != []
    requires Writes(u + pieces[0].t, [c] + pieces[0].w)
    ensures Proper(r) && TextOf(r) == u + TextOf(pieces)
  {
    ProperTail(pieces);
    var first := Written(u + pieces[0].t, [c] + pieces[0].w);
    r := [first] + pieces[1..];
    assert r[1..] == pieces[1..];
    assert forall i :: 1 <= i < |r| ==> r[i] == pieces[i];
    Group(u, pieces[0].t, TextOf(pieces[1..]));
  }

  lemma Begun(u: Text, c: CodeUnit, pieces: seq<Piece>) returns (r: seq<Piece>)
    requires Proper(pieces) && (pieces == [] || pieces[0].Separator?) && u != [] && Writes(u, [c])
    ensures Proper(r) && TextOf(r) == u + TextOf(pieces)
  {
    r := [Written(u, [c])] + pieces;
    assert r[1..] == pieces;
    assert forall i :: 1 <= i < |r| ==> r[i] == pieces[i - 1];
  }

  /** A character of a word before what is written: of its first word, or a word of its own. */
  lemma Extended(u: Text, c: CodeUnit, pieces: seq<Piece>) returns (r: seq<Piece>)
    requires Proper(pieces) && forall t, w :: Writes(t, w) ==> Writes(u + t, [c] + w)
    requires u != []
    ensures Proper(r) && TextOf(r) == u + TextOf(pieces)
  {
    if pieces != [] && pieces[0].Written? {
      r := Merged(u, c, pieces);
    } else {
      assert Writes([], []);
      assert u + [] == u && [c] + [] == [c];
      r := Begun(u, c, pieces);
    }
  }

  lemma Alone(c: CodeUnit, t: Text, w: Text)
    requires !IsSeparator(c) && c != BACKSLASH && Writes(t, w)
    ensures Writes([c] + t, [c] + w)
  {
    assert ([c] + t)[1..] == t && ([c] + w)[1..] == w;
  }

  lemma Escaped(c: CodeUnit, t: Text, w: Text)
    requires Writes(t, w)
    ensures Writes([BACKSLASH, c] + t, [c] + w)
  {
    assert ([BACKSLASH, c] + t)[2..] == t && ([c] + w)[1..] == w;
  }

  lemma Before(c: CodeUnit, pieces: seq<Piece>) returns (r: seq<Piece>)
    requires Proper(pieces) && IsSeparator(c)
    ensures Proper(r) && TextOf(r) == [c] + TextOf(pieces)
  {
    r := [Separator(c)] + pieces;
    assert r[1..] == pieces;
    assert forall i :: 1 <= i < |r| ==> r[i] == pieces[i - 1];
  }

  ghost function OpenEnd(open: bool): Text {
    if open then [BACKSLASH] else []
  }

  /** Every options text is written word by word, but for a backslash left open at its end. */
  lemma {:induction false} Taken(t: Text) returns (pieces: seq<Piece>, open: bool)
    ensures Proper(pieces) && t == TextOf(pieces) + OpenEnd(open)
    decreases |t|
  {
    if t == [] || t == [BACKSLASH] {
      pieces, open := [], t != [];
    } else if t[0] == BACKSLASH {
      var rest;
      rest, open := Taken(t[2..]);
      forall u, w | Writes(u, w) ensures Writes([BACKSLASH, t[1]] + u, [t[1]] + w) { Escaped(t[1], u, w); }
      pieces := Extended([BACKSLASH, t[1]], t[1], rest);
      Fronted([BACKSLASH, t[1]], TextOf(rest), OpenEnd(open), t);
    } else {
      var rest;
      rest, open := Taken(t[1..]);
      if IsSeparator(t[0]) {
        pieces := Before(t[0], rest);
      } else {
        forall u, w | Writes(u, w) ensures Writes([t[0]] + u, [t[0]] + w) { Alone(t[0], u, w); }
        pieces := Extended([t[0]], t[0], rest);
      }
      Fronted([t[0]], TextOf(rest), OpenEnd(open), t);
    }
  }

  lemma Fronted(front: Text, a: Text, b: Text, t: Text)
    requires |front| <= |t| && t[..|front|] == front && t[|front|..] == a + b
    ensures t == (front + a) + b
  {
    assert t == t[..|front|] + t[|front|..];
  }

  /** The words written, and one empty word more where a backslash alone opens one. */
  ghost function WordsWritten(pieces: seq<Piece>, open: bool): seq<Text> {
    if open && (pieces == [] || pieces[|pieces| - 1].Separator?) then WordsOf(pieces) + [[]] else WordsOf(pieces)
  }

  lemma {:induction false} EndsInWord(s: Splitter, pieces: seq<Piece>)
    requires Proper(pieces) && !s.escaped && (s.word.Some? && pieces != [] ==> pieces[0].Separator?)
    ensures Run(s, TextOf(pieces)).word.None? <==>
            if pieces == [] then s.word.None? else pieces[|pieces| - 1].Separator?
    decreases |pieces|
  {
    if pieces != [] {
      var rest := pieces[1..];
      ProperTail(pieces);
      assert rest != [] ==> rest[0] == pieces[1] && rest[|rest| - 1] == pieces[|pieces| - 1];
      match pieces[0] {
        case Separator(c) =>
          SeparatorRead(s, c, TextOf(rest));
          EndsInWord(Splitter(Done(s), None, false), rest);
        case Written(t, w) =>
          WriteRead(s, t, w);
          RunConcat(s, t, TextOf(rest));
          EndsInWord(s.(word := Some(Word(s) + w)), rest);
      }
    }
  }

  lemma WrittenRead(pieces: seq<Piece>, open: bool)
    requires Proper(pieces)
    ensures Words(TextOf(pieces) + OpenEnd(open)) == WordsWritten(pieces, open)
  {
    var t := TextOf(pieces);
    PiecesRead(START, pieces);
    if open {
      EndsInWord(START, pieces);
      RunNext(START, t, BACKSLASH);
    } else {
      assert t + [] == t;
    }
  }

  ghost predicate StatesWords(options: Text, pieces: seq<Piece>, open: bool, words: seq<Text>) {
    Proper(pieces) && options == TextOf(pieces) + OpenEnd(open) && words == WordsWritten(pieces, open)
  }

  /** Options are split into some words exactly when the words are written in them, one after the other. */
  lemma WordsIff(options: Text, words: seq<Text>)
    ensures Words(options) == words <==> exists pieces, open :: StatesWords(options, pieces, open, words)
  {
    if Words(options) == words {
      var pieces, open := Taken(options);
      WrittenRead(pieces, open);
      assert StatesWords(options, pieces, open, words);
    }
    forall pieces, open | StatesWords(options, pieces, open, words) ensures Words(options) == words {
      WrittenRead(pieces, open);
    }
  }

  // ----- reading

  /** A word of flags up to `flag`, the first that takes an argument, and what follows it in the word. */
  ghost predicate Flags(word: Text, flag: CodeUnit, argument: Text) {
    exists n: nat :: FlagsTo(word, n, flag, argument)
  }

  ghost predicate FlagsTo(word: Text, n: nat, flag: CodeUnit, argument: Text) {
    && 1 <= n < |word| && word[0] == DASH && (forall i :: 1 <= i < n ==> !TakesArgument(word[i]))
    && TakesArgument(flag) && word[n] == flag && word[n + 1..] == argument
  }

  lemma {:induction false} FlagAtIs(word: Text, at: nat)
    requires at <= |word|
    ensures var n := FlagAt(word, at);
            (n < |word| ==> TakesArgument(word[n])) && forall i :: at <= i < n ==> !TakesArgument(word[i])
    decreases |word| - at
  {
    if at < |word| && !TakesArgument(word[at]) { FlagAtIs(word, at + 1); }
  }

  lemma FlagsOne(word: Text, n: nat, flag: CodeUnit, argument: Text)
    requires FlagsTo(word, n, flag, argument)
    ensures n == FlagAt(word, 1)
  {
    FlagAtIs(word, 1);
  }

  lemma FlagsIff(word: Text, flag: CodeUnit, argument: Text)
    requires word != [] && word[0] == DASH
    ensures var n := FlagAt(word, 1);
            Flags(word, flag, argument) <==> n < |word| && word[n] == flag && word[n + 1..] == argument
  {
    FlagAtIs(word, 1);
    var at := FlagAt(word, 1);
    if at < |word| && word[at] == flag && word[at + 1..] == argument {
      assert FlagsTo(word, at, flag, argument);
    }
    forall n: nat | FlagsTo(word, n, flag, argument) ensures n == at { FlagsOne(word, n, flag, argument); }
  }

  /** The flags that state a setting: `-c`, and `-` itself. */
  ghost predicate Names(flag: CodeUnit) {
    flag == LETTER_C || flag == DASH
  }

  /** The setting a word states by itself: behind `-c` or `--`, other flags before it or not. */
  ghost predicate StatedIn(word: Text, argument: Text) {
    word != FLAGS_END && argument != [] && exists flag :: Names(flag) && Flags(word, flag, argument)
  }

  /** A reader that waits for nothing reads a setting from a word exactly when the word states it, waits for the next
   *  word exactly behind a flag that ends the word, and stops at `--` alone. */
  lemma WordReads(r: Reader, word: Text, argument: Text, flag: CodeUnit)
    requires Ready(r) && argument != []
    ensures StatedIn(word, argument) ==>
              ReadWord(r, word) == r.(settings := r.settings + [SettingOf(argument)])
    ensures (forall a :: !StatedIn(word, a)) ==> ReadWord(r, word).settings == r.settings
    ensures ReadWord(r, word).awaiting == Some(flag) <==> word != FLAGS_END && Flags(word, flag, [])
    ensures ReadWord(r, word).stopped <==> word == FLAGS_END
  {
    if word != FLAGS_END && word != [] && word[0] == DASH {
      var at := FlagAt(word, 1);
      FlagsIff(word, LETTER_C, argument);
      FlagsIff(word, DASH, argument);
      FlagsIff(word, flag, []);
      if at + 1 < |word| {
        FlagsIff(word, word[at], word[at + 1..]);
        assert Names(word[at]) ==> StatedIn(word, word[at + 1..]);
      }
    }
  }

  /** The word a flag waits for is its argument, whatever it looks like; only `-c` and `-` make a setting of it. */
  lemma AwaitedReads(r: Reader, flag: CodeUnit, word: Text)
    requires !r.stopped && r.awaiting == Some(flag)
    ensures ReadWord(r, word).awaiting.None? && !ReadWord(r, word).stopped
    ensures ReadWord(r, word).settings ==
            if Names(flag) && word != [] then r.settings + [SettingOf(word)] else r.settings
  {
  }

  /** What an argument states: the name before its first `=` and all that follows it, or a name alone. */
  lemma SettingIs(argument: Text, name: Text, value: Text)
    requires EQUALS !in name && (argument == name + [EQUALS] + value || (argument == name && value == []))
    ensures SettingOf(argument).value == value && |SettingOf(argument).name| == |name|
    ensures forall i :: 0 <= i < |name| ==> SettingOf(argument).name[i] == LowerUnit(name[i])
  {
    EqualsFound(argument);
    var eq := EqualsAt(argument);
    if argument == name {
      assert eq == |name|;
    } else {
      assert argument[|name|] == EQUALS;
      assert forall i :: 0 <= i < |name| ==> argument[i] == name[i];
      assert eq == |name|;
      assert argument[..eq] == name && argument[eq + 1..] == value;
    }
    NormalisedIs(name);
  }

  lemma {:induction false} NormalisedIs(t: Text)
    ensures forall i :: 0 <= i < |t| ==> Normalised(t)[i] == LowerUnit(t[i])
  {
    if t != [] {
      NormalisedIs(t[1..]);
      forall i | 0 <= i < |t| ensures Normalised(t)[i] == LowerUnit(t[i]) {
        assert i > 0 ==> Normalised(t)[i] == Normalised(t[1..])[i - 1];
      }
    }
  }

  /** The same letter in either case, the same other character, or a dash and an underscore. */
  ghost predicate SameInName(c: CodeUnit, d: CodeUnit) {
    || c == d || (c == DASH && d == 0x5f) || (c == 0x5f && d == DASH)
    || (0x41 <= c <= 0x5a && d == c + 0x20) || (0x41 <= d <= 0x5a && c == d + 0x20)
  }

  lemma SameUnitIff(c: CodeUnit, d: CodeUnit)
    ensures LowerUnit(c) == LowerUnit(d) <==> SameInName(c, d)
  {
  }

  /** Two names are read as one exactly when they are as long and the same character by character in that way. */
  lemma SameNameIff(a: Text, b: Text)
    ensures Normalised(a) == Normalised(b) <==>
            |a| == |b| && forall i :: 0 <= i < |a| ==> SameInName(a[i], b[i])
  {
    NormalisedIs(a);
    NormalisedIs(b);
    if |a| == |b| {
      forall i | 0 <= i < |a| ensures Normalised(a)[i] == Normalised(b)[i] <==> SameInName(a[i], b[i]) {
        SameUnitIff(a[i], b[i]);
      }
      Pointwise(Normalised(a), Normalised(b), a, b);
    }
  }

  lemma Pointwise(x: Text, y: Text, a: Text, b: Text)
    requires |x| == |y| == |a| == |b|
    requires forall i :: 0 <= i < |a| ==> (x[i] == y[i] <==> SameInName(a[i], b[i]))
    ensures x == y <==> forall i :: 0 <= i < |a| ==> SameInName(a[i], b[i])
  {
    if forall i :: 0 <= i < |a| ==> SameInName(a[i], b[i]) {
      assert forall i :: 0 <= i < |a| ==> x[i] == y[i];
    }
  }
}
