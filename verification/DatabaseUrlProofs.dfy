/** What rewriting a database URL keeps, and what is read from it afterwards. */
module DatabaseUrlProofs {
  import opened Texts
  import opened StartupOptions
  import opened StartupOptionProofs
  import opened OptionTrims
  import opened StatementTimeouts
  import opened DatabaseUrls

  // ----- finding and splitting

  lemma {:induction false} FirstFound(t: Text, c: CodeUnit)
    ensures forall i | 0 <= i < First(t, c) :: t[i] != c
    ensures First(t, c) < |t| ==> t[First(t, c)] == c
  {
    if t != [] && t[0] != c {
      FirstFound(t[1..], c);
      var n := First(t[1..], c);
      forall i | 0 <= i < n + 1 ensures t[i] != c { assert i > 0 ==> t[i] == t[1..][i - 1]; }
      assert n < |t| - 1 ==> t[1..][n] == t[n + 1];
    }
  }

  lemma FirstIs(t: Text, c: CodeUnit, n: nat)
    requires n <= |t| && (forall i | 0 <= i < n :: t[i] != c) && (n < |t| ==> t[n] == c)
    ensures First(t, c) == n
  {
    FirstFound(t, c);
  }

  /** A text without a character, and then that character. */
  lemma FirstAfter(a: Text, c: CodeUnit, rest: Text)
    requires c !in a && (rest == [] || rest[0] == c)
    ensures First(a + rest, c) == |a| && (a + rest)[..|a|] == a && (a + rest)[|a|..] == rest
  {
    FirstIs(a + rest, c, |a|);
  }

  lemma FirstOpens(t: Text, c: CodeUnit)
    ensures c !in t[..First(t, c)] && (t[First(t, c)..] == [] || t[First(t, c)..][0] == c)
  {
    FirstFound(t, c);
  }

  ghost predicate AllWithout(parts: seq<Text>, c: CodeUnit) {
    forall i | 0 <= i < |parts| :: c !in parts[i]
  }

  lemma {:induction false} SplitJoined(pairs: seq<Text>)
    requires pairs != [] && AllWithout(pairs, AMPERSAND)
    ensures Split(JoinPairs(pairs), AMPERSAND) == pairs
  {
    if |pairs| == 1 {
      FirstIs(pairs[0], AMPERSAND, |pairs[0]|);
    } else {
      var rest := [AMPERSAND] + JoinPairs(pairs[1..]);
      assert JoinPairs(pairs) == pairs[0] + rest;
      SplitJoined(pairs[1..]);
      SplitOnce(pairs[0], JoinPairs(pairs[1..]));
    }
  }

  lemma SplitOnce(a: Text, b: Text)
    requires AMPERSAND !in a
    ensures Split(a + ([AMPERSAND] + b), AMPERSAND) == [a] + Split(b, AMPERSAND)
  {
    var t := a + ([AMPERSAND] + b);
    FirstAfter(a, AMPERSAND, [AMPERSAND] + b);
    assert t[|a| + 1..] == b;
  }

  lemma {:induction false} SplitWithout(t: Text, c: CodeUnit, d: CodeUnit)
    requires d !in t
    ensures AllWithout(Split(t, c), c) && AllWithout(Split(t, c), d)
    decreases |t|
  {
    var n := First(t, c);
    FirstFound(t, c);
    if n < |t| {
      SplitWithout(t[n + 1..], c, d);
      var parts := Split(t[n + 1..], c);
      forall i | 0 <= i < |Split(t, c)| ensures c !in Split(t, c)[i] && d !in Split(t, c)[i] {
        if i > 0 { assert Split(t, c)[i] == parts[i - 1]; }
      }
    }
  }

  ghost predicate AllNonEmpty(parts: seq<Text>) {
    forall i | 0 <= i < |parts| :: parts[i] != []
  }

  lemma {:induction false} NonEmptyKeeps(parts: seq<Text>, c: CodeUnit)
    requires AllWithout(parts, c)
    ensures AllNonEmpty(NonEmpty(parts)) && AllWithout(NonEmpty(parts), c)
  {
    if parts != [] {
      forall i | 0 <= i < |parts[1..]| ensures c !in parts[1..][i] { assert parts[1..][i] == parts[i + 1]; }
      NonEmptyKeeps(parts[1..], c);
    }
  }

  lemma {:induction false} NonEmptyOfNonEmpty(parts: seq<Text>)
    requires AllNonEmpty(parts)
    ensures NonEmpty(parts) == parts
  {
    if parts != [] {
      forall i | 0 <= i < |parts[1..]| ensures parts[1..][i] != [] { assert parts[1..][i] == parts[i + 1]; }
      NonEmptyOfNonEmpty(parts[1..]);
    }
  }

  // ----- a URL and its parts

  /** What the parts of any URL are like. */
  ghost predicate WellSplit(u: Url) {
    && HASH !in u.base && QUESTION !in u.base && (u.hash == [] || u.hash[0] == HASH)
    && AllNonEmpty(u.pairs) && AllWithout(u.pairs, HASH) && AllWithout(u.pairs, AMPERSAND)
  }

  lemma ParsedWellSplit(url: Text)
    ensures WellSplit(Parsed(url))
  {
    FirstOpens(url, HASH);
    var beforeHash := url[..First(url, HASH)];
    FirstOpens(beforeHash, QUESTION);
    var n := First(beforeHash, QUESTION);
    if n < |beforeHash| {
      var query := beforeHash[n + 1..];
      SplitWithout(query, AMPERSAND, HASH);
      NonEmptyKeeps(Split(query, AMPERSAND), HASH);
      NonEmptyKeeps(Split(query, AMPERSAND), AMPERSAND);
    }
  }

  lemma {:induction false} JoinWithout(pairs: seq<Text>, c: CodeUnit)
    requires AllWithout(pairs, c) && c != AMPERSAND
    ensures c !in JoinPairs(pairs)
  {
    if |pairs| > 1 {
      forall i | 0 <= i < |pairs[1..]| ensures c !in pairs[1..][i] { assert pairs[1..][i] == pairs[i + 1]; }
      JoinWithout(pairs[1..], c);
    }
  }

  function Joined(u: Url): Text {
    u.base + [QUESTION] + JoinPairs(u.pairs) + u.hash
  }

  /** A URL put together from such parts, with at least one pair, is taken apart into them. */
  lemma ParsedJoined(u: Url)
    requires WellSplit(u) && u.pairs != []
    ensures Parsed(Joined(u)) == u
  {
    JoinWithout(u.pairs, HASH);
    var query := JoinPairs(u.pairs);
    var beforeHash := u.base + ([QUESTION] + query);
    assert Joined(u) == beforeHash + u.hash;
    FirstAfter(beforeHash, HASH, u.hash);
    FirstAfter(u.base, QUESTION, [QUESTION] + query);
    assert beforeHash[|u.base| + 1..] == query;
    SplitJoined(u.pairs);
    NonEmptyOfNonEmpty(u.pairs);
  }

  /** What is not in a URL is in no part of it. */
  lemma PartsWithout(url: Text, c: CodeUnit)
    requires c !in url
    ensures var u := Parsed(url); c !in u.base && c !in u.hash && AllWithout(u.pairs, c)
  {
    var beforeHash := url[..First(url, HASH)];
    var n := First(beforeHash, QUESTION);
    if n < |beforeHash| {
      SplitWithout(beforeHash[n + 1..], AMPERSAND, c);
      NonEmptyKeeps(Split(beforeHash[n + 1..], AMPERSAND), c);
    }
  }

  // ----- the options pair

  function OptionsPair(encoded: Text): Text {
    OPTIONS + [EQUALS] + encoded
  }

  lemma OptionsPairRead(codec: Codec, encoded: Text)
    requires codec.decode(OPTIONS) == Some(OPTIONS)
    ensures IsOptions(codec, OptionsPair(encoded)) && ValueOf(OptionsPair(encoded)) == encoded
  {
    var pair := OptionsPair(encoded);
    assert pair == OPTIONS + ([EQUALS] + encoded);
    FirstAfter(OPTIONS, EQUALS, [EQUALS] + encoded);
    assert pair[8..] == encoded;
  }

  /** The pairs kept are pairs of the URL, none of them its options. */
  ghost predicate KeptOf(codec: Codec, kept: seq<Text>, pairs: seq<Text>) {
    forall i | 0 <= i < |kept| :: kept[i] in pairs && !IsOptions(codec, kept[i])
  }

  lemma {:induction false} OtherPairsKept(codec: Codec, pairs: seq<Text>)
    ensures KeptOf(codec, OtherPairs(codec, pairs), pairs)
  {
    if pairs != [] {
      OtherPairsKept(codec, pairs[1..]);
      var rest := OtherPairs(codec, pairs[1..]);
      forall i | 0 <= i < |OtherPairs(codec, pairs)|
        ensures OtherPairs(codec, pairs)[i] in pairs && !IsOptions(codec, OtherPairs(codec, pairs)[i])
      {
        if IsOptions(codec, pairs[0]) { assert OtherPairs(codec, pairs)[i] == rest[i]; }
        else if i > 0 { assert OtherPairs(codec, pairs)[i] == rest[i - 1]; }
      }
    }
  }

  lemma {:induction false} PairsOfKept(codec: Codec, kept: seq<Text>, pair: Text)
    requires (forall i | 0 <= i < |kept| :: !IsOptions(codec, kept[i])) && IsOptions(codec, pair)
    ensures OtherPairs(codec, kept + [pair]) == kept && OptionPairs(codec, kept + [pair]) == [pair]
  {
    var all := kept + [pair];
    if kept == [] {
      assert all == [pair] && all[1..] == [];
    } else {
      assert all[1..] == kept[1..] + [pair] && all[0] == kept[0];
      forall i | 0 <= i < |kept[1..]| ensures !IsOptions(codec, kept[1..][i]) { assert kept[1..][i] == kept[i + 1]; }
      PairsOfKept(codec, kept[1..], pair);
      assert [] + [pair] == [pair];
    }
  }

  // ----- the rewritten URL, read again

  lemma RewrittenWellSplit(codec: Codec, url: Text, s: Startup, e: Text)
    requires StartupOf(codec, url) == Ok(s) && HASH !in e && AMPERSAND !in e
    ensures WellSplit(Url(s.base, s.kept + [OptionsPair(e)], s.hash))
  {
    var pairs := Parsed(url).pairs;
    ParsedWellSplit(url);
    OtherPairsKept(codec, pairs);
    var all := s.kept + [OptionsPair(e)];
    forall i | 0 <= i < |all| ensures all[i] != [] && HASH !in all[i] && AMPERSAND !in all[i] {
      if i < |s.kept| {
        assert all[i] == s.kept[i] && s.kept[i] in pairs;
      }
    }
  }

  lemma RewrittenWithout(codec: Codec, url: Text, s: Startup, e: Text, c: CodeUnit)
    requires StartupOf(codec, url) == Ok(s) && IsControl(c) && c !in url && c !in e
    ensures c !in Joined(Url(s.base, s.kept + [OptionsPair(e)], s.hash))
  {
    var pairs := Parsed(url).pairs;
    PartsWithout(url, c);
    OtherPairsKept(codec, pairs);
    var all := s.kept + [OptionsPair(e)];
    forall i | 0 <= i < |all| ensures c !in all[i] {
      if i < |s.kept| {
        assert all[i] == s.kept[i] && s.kept[i] in pairs;
      }
    }
    JoinWithout(all, c);
  }

  lemma RewrittenDecodable(codec: Codec, url: Text, s: Startup, e: Text)
    requires StartupOf(codec, url) == Ok(s) && IsOptions(codec, OptionsPair(e))
    ensures Decodable(codec, s.kept + [OptionsPair(e)])
  {
    var pairs := Parsed(url).pairs;
    OtherPairsKept(codec, pairs);
    var all := s.kept + [OptionsPair(e)];
    forall i | 0 <= i < |all| ensures KeyOf(codec, all[i]).Some? {
      if i < |s.kept| {
        assert all[i] == s.kept[i] && s.kept[i] in pairs;
      }
    }
  }

  /**
   * What a rewritten URL states: the new options, trimmed, and everything else as it was, the other
   * pairs in their order.
   */
  lemma RewrittenReads(codec: Codec, url: Text, s: Startup, options: Text, v: Text)
    requires Lawful(codec) && StartupOf(codec, url) == Ok(s) && WithOptions(codec, s, options) == Ok(v)
    ensures StartupOf(codec, v) == Ok(s.(stated := options, existing := Trim(options)))
  {
    var e := codec.encode(options).value;
    var u := Url(s.base, s.kept + [OptionsPair(e)], s.hash);
    assert v == Joined(u);
    forall i | 0 <= i < |v| ensures !IsControl(v[i]) {
      if IsControl(v[i]) { RewrittenWithout(codec, url, s, e, v[i]); }
    }
    RewrittenWellSplit(codec, url, s, e);
    ParsedJoined(u);
    OptionsPairRead(codec, e);
    RewrittenDecodable(codec, url, s, e);
    OtherPairsKept(codec, Parsed(url).pairs);
    PairsOfKept(codec, s.kept, OptionsPair(e));
  }

  // ----- trimmed options

  ghost predicate Trimmed(t: Text) {
    t == [] || (!IsWhitespace(t[0]) && !IsWhitespace(t[|t| - 1]))
  }

  lemma {:induction false} TrimStartOpens(t: Text)
    ensures TrimStart(t) == [] || !IsWhitespace(TrimStart(t)[0])
  {
    if t != [] && IsWhitespace(t[0]) { TrimStartOpens(t[1..]); }
  }

  lemma {:induction false} TrimEndCloses(t: Text)
    ensures TrimEnd(t) <= t && (TrimEnd(t) == [] || !IsWhitespace(TrimEnd(t)[|TrimEnd(t)| - 1]))
    decreases |t|
  {
    if t != [] && IsWhitespace(t[|t| - 1]) { TrimEndCloses(t[..|t| - 1]); }
  }

  lemma TrimTrims(t: Text)
    ensures Trimmed(Trim(t))
    ensures Trimmed(t) ==> Trim(t) == t
  {
    TrimStartOpens(t);
    TrimEndCloses(TrimStart(t));
  }

  lemma AddedTrimmed(options: Text, flag: Text)
    requires Trimmed(options) && Trimmed(flag) && flag != []
    ensures Trimmed(Added(options, flag))
  {
  }

  lemma ExistingTrimmed(codec: Codec, url: Text)
    requires StartupOf(codec, url).Ok?
    ensures var s := StartupOf(codec, url).value; s.existing == Trim(s.stated) && Trimmed(s.existing)
  {
    var written := OptionPairs(codec, Parsed(url).pairs);
    if written == [] { TrimTrims([]); } else { TrimTrims(codec.decode(ValueOf(written[0])).value); }
  }

  lemma UtcTrimmed()
    ensures Trimmed(UTC_SESSION_OPTION) && |UTC_SESSION_OPTION| == 15 && UTC_SESSION_OPTION[0] == DASH
  {
  }

  lemma AddedEndsWithUtc(options: Text)
    ensures EndsWithUtc(Added(options, UTC_SESSION_OPTION))
  {
    if options != [] {
      var t := Added(options, UTC_SESSION_OPTION);
      assert t == options + ([SPACE] + UTC_SESSION_OPTION);
      assert t[|options|..] == [SPACE] + UTC_SESSION_OPTION;
    }
  }

  // ----- the laws

  /** The same URL with trimmed options in place of its own. */
  function Restated(s: Startup, options: Text): Startup {
    s.(stated := options, existing := options)
  }

  /** A URL whose options end with the UTC option is left as it is. */
  lemma UtcFixed(codec: Codec, v: Text)
    requires StartupOf(codec, v).Ok? && EndsWithUtc(StartupOf(codec, v).value.existing)
    ensures WithUtcSession(codec, v) == Ok(v)
  {
  }

  /** What the URL states once it asks for UTC: the same but for the options, which end with it. */
  lemma UtcReads(codec: Codec, url: Text, v: Text)
    requires Lawful(codec) && WithUtcSession(codec, url) == Ok(v)
    ensures var s := StartupOf(codec, url).value;
            && StartupOf(codec, url).Ok?
            && StartupOf(codec, v) ==
               Ok(if EndsWithUtc(s.existing) then s else Restated(s, Added(s.existing, UTC_SESSION_OPTION)))
            && EndsWithUtc(StartupOf(codec, v).value.existing)
  {
    var s := StartupOf(codec, url).value;
    if !EndsWithUtc(s.existing) {
      var options := Added(s.existing, UTC_SESSION_OPTION);
      RewrittenReads(codec, url, s, options, v);
      ExistingTrimmed(codec, url);
      UtcTrimmed();
      AddedTrimmed(s.existing, UTC_SESSION_OPTION);
      TrimTrims(options);
      AddedEndsWithUtc(s.existing);
    }
  }

  /** `withUtcSession` is idempotent. */
  lemma UtcIdempotent(codec: Codec, url: Text, v: Text)
    requires Lawful(codec) && WithUtcSession(codec, url) == Ok(v)
    ensures WithUtcSession(codec, v) == Ok(v)
  {
    UtcReads(codec, url, v);
    UtcFixed(codec, v);
  }

  lemma NatTextTrimmed(ms: nat)
    ensures !IsWhitespace(NatText(ms)[|NatText(ms)| - 1])
  {
    assert IsDigit(NatText(ms)[|NatText(ms)| - 1]);
  }

  lemma TimeoutFlagTrimmed(ms: nat)
    ensures Trimmed(Flagged(TimeoutArgument(ms))) && Flagged(TimeoutArgument(ms)) != []
  {
    NatTextTrimmed(ms);
    var t, n := Flagged(TimeoutArgument(ms)), NatText(ms);
    assert t[|t| - 1] == n[|n| - 1] && t[0] == DASH;
  }

  lemma TimeoutAddedTrimmed(existing: Text, ms: nat)
    requires Trimmed(existing)
    ensures Trimmed(TimeoutAdded(existing, ms)) && (EndsWithUtc(existing) ==> EndsWithUtc(TimeoutAdded(existing, ms)))
  {
    TimeoutFlagTrimmed(ms);
    var flag := Flagged(TimeoutArgument(ms));
    if EndsWithUtc(existing) {
      TrimTrims(existing[..|existing| - |UTC_SESSION_OPTION|]);
      AddedTrimmed(BeforeUtc(existing), flag);
      UtcTrimmed();
      AddedTrimmed(Added(BeforeUtc(existing), flag), UTC_SESSION_OPTION);
      AddedEndsWithUtc(Added(BeforeUtc(existing), flag));
    } else {
      AddedTrimmed(existing, flag);
    }
  }

  /** What the URL states once it carries a timeout: the same, or the same with the timeout among its options. */
  lemma TimeoutReads(codec: Codec, url: Text, ms: nat, v: Text)
    requires Lawful(codec) && WithStatementTimeout(codec, url, Some(ms)) == Ok(v)
    ensures var s := StartupOf(codec, url).value;
            && StartupOf(codec, url).Ok?
            && StartupOf(codec, v) ==
               Ok(if TimeoutsIn(s.existing).values != [] then s else Restated(s, TimeoutAdded(s.existing, ms)))
  {
    var s := StartupOf(codec, url).value;
    if TimeoutsIn(s.existing).values == [] {
      RewrittenReads(codec, url, s, TimeoutAdded(s.existing, ms), v);
      ExistingTrimmed(codec, url);
      TimeoutAddedTrimmed(s.existing, ms);
      TrimTrims(TimeoutAdded(s.existing, ms));
    }
  }

  /** A timeout written into a URL that asks for UTC leaves it asking last: `withUtcSession` keeps the result. */
  lemma UtcFixesTimeout(codec: Codec, url: Text, u: Text, timeout: Option<nat>, v: Text)
    requires Lawful(codec) && WithUtcSession(codec, url) == Ok(u) && WithStatementTimeout(codec, u, timeout) == Ok(v)
    ensures WithUtcSession(codec, v) == Ok(v)
  {
    UtcReads(codec, url, u);
    if timeout.Some? {
      TimeoutReads(codec, u, timeout.value, v);
      ExistingTrimmed(codec, u);
      TimeoutAddedTrimmed(StartupOf(codec, u).value.existing, timeout.value);
    }
    UtcFixed(codec, v);
  }

  // ----- what the server reads

  ghost predicate PlainName(name: Text) {
    Plain(name) && EQUALS !in name && name != [] && name[0] != DASH
  }

  /** A plain name, `=` and a plain value make a setting that can be written. */
  lemma NamedWritable(name: Text, value: Text)
    requires PlainName(name) && Plain(value) && value != []
    ensures Writable(name + [EQUALS] + value) && SettingOf(name + [EQUALS] + value) == Setting(Normalised(name), value)
  {
    var t := name + [EQUALS] + value;
    assert forall i | 0 <= i < |name| :: t[i] == name[i];
    assert t[|name|] == EQUALS;
    assert forall i | |name| < i < |t| :: t[i] == value[i - |name| - 1];
    EqualsFound(t);
    assert EqualsAt(t) == |name|;
    assert t[..|name|] == name && t[|name| + 1..] == value;
  }

  lemma UtcWritable()
    ensures Writable(UTC_ARGUMENT)
  {
    NamedWritable(TIME_ZONE, UTC);
  }

  /** Letters and underscores that reading a name leaves as they are. */
  ghost predicate LowerName(t: Text) {
    t != [] && forall i | 0 <= i < |t| :: t[i] == 0x5f || 0x61 <= t[i] <= 0x7a
  }

  lemma {:induction false} LowerNameNormal(t: Text)
    requires LowerName(t)
    ensures Normalised(t) == t
  {
    if |t| > 1 { LowerNameNormal(t[1..]); } else { assert t[1..] == []; }
  }

  lemma NumberWritable(name: Text, ms: nat)
    requires LowerName(name)
    ensures Writable(name + [EQUALS] + NatText(ms))
            && SettingOf(name + [EQUALS] + NatText(ms)) == Setting(name, NatText(ms))
  {
    var value := NatText(ms);
    assert forall i | 0 <= i < |value| :: IsDigit(value[i]);
    LowerNameNormal(name);
    NamedWritable(name, value);
  }

  lemma TimeoutWritable(ms: nat)
    ensures Writable(TimeoutArgument(ms)) && SettingOf(TimeoutArgument(ms)) == Setting(STATEMENT_TIMEOUT, NatText(ms))
  {
    assert LowerName(STATEMENT_TIMEOUT);
    NumberWritable(STATEMENT_TIMEOUT, ms);
  }

  // ----- what is trimmed

  /** What trimming takes from the start and from the end. */
  function Lead(t: Text): Text {
    t[..|t| - |TrimStart(t)|]
  }

  function Trail(t: Text): Text {
    TrimStart(t)[|Trim(t)|..]
  }

  lemma {:induction false} TrimStartWhite(t: Text)
    ensures |TrimStart(t)| <= |t| && t[|t| - |TrimStart(t)|..] == TrimStart(t) && White(t[..|t| - |TrimStart(t)|])
  {
    if t != [] && IsWhitespace(t[0]) {
      TrimStartWhite(t[1..]);
      var n := |t| - |TrimStart(t)|;
      assert t[1..][n - 1..] == t[n..];
      forall i | 0 <= i < n ensures IsWhitespace(t[i]) { assert i > 0 ==> t[i] == t[1..][..n - 1][i - 1]; }
    }
  }

  lemma {:induction false} TrimEndWhite(t: Text)
    ensures TrimEnd(t) <= t && White(t[|TrimEnd(t)|..])
    decreases |t|
  {
    if t != [] && IsWhitespace(t[|t| - 1]) {
      var u := t[..|t| - 1];
      TrimEndWhite(u);
      var n := |TrimEnd(t)|;
      forall i | n <= i < |t| ensures IsWhitespace(t[i]) { assert i < |u| ==> t[i] == u[n..][i - n]; }
    }
  }

  /** A text is what trimming takes from its start, what it leaves, and what it takes from the end. */
  lemma TrimSplits(t: Text)
    ensures White(Lead(t)) && White(Trail(t)) && t == Lead(t) + Trim(t) + Trail(t)
  {
    TrimStartWhite(t);
    TrimEndWhite(TrimStart(t));
    assert TrimStart(t) == Trim(t) + Trail(t);
  }

  /** All that trimming takes are separators to the server. */
  ghost predicate OnlySeparatorsTrimmed(t: Text) {
    Separators(Lead(t)) && Separators(Trail(t))
  }

  // ----- what the server reads

  /**
   * Once a URL asks for UTC, the server reads the words and settings it stated, and UTC after them,
   * exactly when all that was trimmed from its options are separators and what was left is complete.
   */
  lemma UtcSettings(codec: Codec, url: Text, v: Text, before: Startup, after: Startup)
    requires Lawful(codec) && WithUtcSession(codec, url) == Ok(v)
    requires StartupOf(codec, url) == Ok(before) && StartupOf(codec, v) == Ok(after) && !EndsWithUtc(before.existing)
    ensures Appended(Words(before.stated), Words(after.stated), UTC_ARGUMENT)
            <==> OnlySeparatorsTrimmed(before.stated) && Complete(before.existing)
  {
    UtcReads(codec, url, v);
    ExistingTrimmed(codec, url);
    TrimSplits(before.stated);
    UtcWritable();
    TrimmedAppendedIff(Lead(before.stated), before.existing, Trail(before.stated), UTC_ARGUMENT);
  }

  /** What stands before a UTC option that options end with. */
  function BeforeOption(stated: Text): Text
    requires EndsWithUtc(Trim(stated))
  {
    Lead(stated) + Trim(stated)[..|Trim(stated)| - |UTC_SESSION_OPTION|]
  }

  lemma UtcEnd(options: Text)
    requires EndsWithUtc(options)
    ensures var n := |options| - |UTC_SESSION_OPTION|;
            n >= 0 && options == options[..n] + UTC_SESSION_OPTION && (n > 0 ==> options[n - 1] == SPACE)
  {
    var n := |options| - |UTC_SESSION_OPTION|;
    if options != UTC_SESSION_OPTION {
      assert options[n - 1..] == [SPACE] + UTC_SESSION_OPTION;
      assert options[n..] == options[n - 1..][1..] == UTC_SESSION_OPTION;
    }
  }

  lemma StatedSplits(stated: Text)
    requires EndsWithUtc(Trim(stated))
    ensures White(Lead(stated)) && White(Trail(stated))
    ensures var b := BeforeOption(stated);
            stated == b + UTC_SESSION_OPTION + Trail(stated) && (b == [] || IsWhitespace(b[|b| - 1]))
  {
    TrimSplits(stated);
    UtcEnd(Trim(stated));
    var core := Trim(stated);
    EndSplits(Lead(stated), core[..|core| - |UTC_SESSION_OPTION|], UTC_SESSION_OPTION, Trail(stated));
    LastWhite(Lead(stated), core[..|core| - |UTC_SESSION_OPTION|]);
  }

  lemma EndSplits(lead: Text, core: Text, flag: Text, trail: Text)
    ensures lead + (core + flag) + trail == lead + core + flag + trail
  {
  }

  lemma LastWhite(lead: Text, core: Text)
    requires White(lead) && (core == [] || core[|core| - 1] == SPACE)
    ensures lead + core == [] || IsWhitespace((lead + core)[|lead + core| - 1])
  {
  }

  /**
   * A URL that already asks for UTC is returned as it is. The server then reads what comes before the option, and
   * UTC after it, exactly when the option starts a word, only separators follow it, and what comes
   * before it ended no flags and left none waiting.
   */
  lemma UtcKept(codec: Codec, url: Text, before: Startup)
    requires StartupOf(codec, url) == Ok(before) && EndsWithUtc(before.existing)
    ensures WithUtcSession(codec, url) == Ok(url) && before.existing == Trim(before.stated)
    ensures var b := BeforeOption(before.stated);
            Appended(Words(b), Words(before.stated), UTC_ARGUMENT)
            <==> AtBoundary(b) && Separators(Trail(before.stated)) && Ready(ReadAll(READY, Words(b)))
  {
    ExistingTrimmed(codec, url);
    StatedSplits(before.stated);
    UtcWritable();
    EndsWithIff(BeforeOption(before.stated), UTC_ARGUMENT, Trail(before.stated));
  }

  /** The options up to a UTC option they end with, not trimmed again. */
  function UpToOption(existing: Text): Text
    requires EndsWithUtc(existing)
  {
    existing[..|existing| - |UTC_SESSION_OPTION|]
  }

  /** All that is trimmed around what comes before a UTC option are separators to the server. */
  ghost predicate OnlySeparatorsAround(stated: Text)
    requires EndsWithUtc(Trim(stated))
  {
    Separators(Lead(stated)) && Separators(Trail(UpToOption(Trim(stated)))) && Separators(Trail(stated))
  }

  lemma {:induction false} TrimStartFixed(t: Text)
    requires t == [] || !IsWhitespace(t[0])
    ensures TrimStart(t) == t
  {
  }

  /** A text that opens with no whitespace and ends in some. */
  lemma EndSplit(x: Text)
    requires x == [] || (!IsWhitespace(x[0]) && IsWhitespace(x[|x| - 1]))
    ensures x == Trim(x) + Trail(x) && White(Trail(x)) && (Trim(x) == [] <==> Trail(x) == [])
  {
    TrimStartFixed(x);
    TrimEndWhite(x);
    TrimEndCloses(x);
    if x != [] { TrimEndOpens(x); }
  }

  lemma UpToSplits(existing: Text)
    requires EndsWithUtc(existing) && Trimmed(existing)
    ensures var x := UpToOption(existing);
            && BeforeUtc(existing) == Trim(x) && x == Trim(x) + Trail(x) && White(Trail(x))
            && (Trim(x) == [] <==> Trail(x) == [])
  {
    UtcEnd(existing);
    EndSplit(UpToOption(existing));
  }

  lemma {:induction false} TrimEndOpens(t: Text)
    requires t != [] && !IsWhitespace(t[0])
    ensures TrimEnd(t) != []
    decreases |t|
  {
    if IsWhitespace(t[|t| - 1]) { TrimEndOpens(t[..|t| - 1]); }
  }

  lemma StatedAround(stated: Text)
    requires EndsWithUtc(Trim(stated))
    ensures var lead, gap, trail := Lead(stated), Trail(UpToOption(Trim(stated))), Trail(stated);
            var core := BeforeUtc(Trim(stated));
            && Around(lead, core, gap, trail) && BeforeOption(stated) == lead + core + gap
            && stated == lead + core + gap + UTC_SESSION_OPTION + trail
  {
    StatedSplits(stated);
    TrimTrims(stated);
    UpToSplits(Trim(stated));
    Group(Lead(stated), BeforeUtc(Trim(stated)), Trail(UpToOption(Trim(stated))));
  }

  /**
   * Once a timeout is written into a URL that states none, the server reads the words and settings it stated
   * and the timeout after them, or before a UTC option they end with, exactly when all that was
   * trimmed are separators and what is left before the timeout is complete.
   */
  lemma TimeoutUrlSettings(codec: Codec, url: Text, ms: nat, v: Text, before: Startup, after: Startup)
    requires Lawful(codec) && WithStatementTimeout(codec, url, Some(ms)) == Ok(v)
    requires StartupOf(codec, url) == Ok(before) && StartupOf(codec, v) == Ok(after)
             && TimeoutsIn(before.existing).values == []
    ensures before.existing == Trim(before.stated)
    ensures SettingOf(TimeoutArgument(ms)) == Setting(STATEMENT_TIMEOUT, NatText(ms))
    ensures !EndsWithUtc(before.existing) ==>
              (Appended(Words(before.stated), Words(after.stated), TimeoutArgument(ms))
               <==> OnlySeparatorsTrimmed(before.stated) && Complete(before.existing))
    ensures EndsWithUtc(before.existing) ==>
              (Inserted(Words(BeforeOption(before.stated)), Words(before.stated), Words(after.stated),
                        TimeoutArgument(ms), UTC_ARGUMENT)
               <==> OnlySeparatorsAround(before.stated) && Complete(BeforeUtc(before.existing)))
  {
    TimeoutReads(codec, url, ms, v);
    ExistingTrimmed(codec, url);
    TimeoutWritable(ms);
    UtcWritable();
    var t := before.stated;
    if EndsWithUtc(before.existing) {
      StatedAround(t);
      InsertedIff(Lead(t), BeforeUtc(Trim(t)), Trail(UpToOption(Trim(t))), Trail(t), TimeoutArgument(ms), UTC_ARGUMENT);
    } else {
      TrimSplits(t);
      TrimmedAppendedIff(Lead(t), before.existing, Trail(t), TimeoutArgument(ms));
    }
  }

  /** Where only separators are trimmed, UTC is added to the settings exactly if what is left is complete. */
  lemma UtcSettingsAlone(codec: Codec, url: Text, v: Text, before: Startup, after: Startup)
    requires Lawful(codec) && WithUtcSession(codec, url) == Ok(v)
    requires StartupOf(codec, url) == Ok(before) && StartupOf(codec, v) == Ok(after) && !EndsWithUtc(before.existing)
    requires OnlySeparatorsTrimmed(before.stated)
    ensures Settings(Words(after.stated)) == Settings(Words(before.stated)) + [SettingOf(UTC_ARGUMENT)]
            <==> Complete(before.existing)
  {
    UtcReads(codec, url, v);
    ExistingTrimmed(codec, url);
    TrimSplits(before.stated);
    UtcWritable();
    TrimmedSettingsIff(Lead(before.stated), before.existing, Trail(before.stated), UTC_ARGUMENT);
  }

  /** And so for a timeout, after all settings or before a UTC option. */
  lemma TimeoutSettingsAlone(codec: Codec, url: Text, ms: nat, v: Text, before: Startup, after: Startup)
    requires Lawful(codec) && WithStatementTimeout(codec, url, Some(ms)) == Ok(v)
    requires StartupOf(codec, url) == Ok(before) && StartupOf(codec, v) == Ok(after)
    requires TimeoutsIn(before.existing).values == [] && before.existing == Trim(before.stated)
    ensures !EndsWithUtc(before.existing) && OnlySeparatorsTrimmed(before.stated) ==>
              (Settings(Words(after.stated)) == Settings(Words(before.stated)) + [SettingOf(TimeoutArgument(ms))]
               <==> Complete(before.existing))
    ensures EndsWithUtc(before.existing) && OnlySeparatorsAround(before.stated) ==>
              (Settings(Words(after.stated)) == Settings(Words(BeforeOption(before.stated)))
                                                + [SettingOf(TimeoutArgument(ms))] + [SettingOf(UTC_ARGUMENT)]
               <==> Complete(BeforeUtc(before.existing)))
  {
    TimeoutReads(codec, url, ms, v);
    TimeoutWritable(ms);
    UtcWritable();
    var t := before.stated;
    if EndsWithUtc(before.existing) && OnlySeparatorsAround(t) {
      StatedAround(t);
      InsertedSettingsIff(Lead(t), BeforeUtc(Trim(t)), Trail(UpToOption(Trim(t))), TimeoutArgument(ms), UTC_ARGUMENT);
    } else if !EndsWithUtc(before.existing) && OnlySeparatorsTrimmed(t) {
      TrimSplits(t);
      TrimmedSettingsIff(Lead(t), before.existing, Trail(t), TimeoutArgument(ms));
    }
  }

  /** `a=b`. */
  const A_IS_B: Text := [0x61, 0x3d, 0x62]

  /**
   * The options `-c a=b\  -c TimeZone=UTC` are complete and set `a` to `b` and a space. With a timeout
   * written before the UTC option they set `a` to `b -c` and no timeout.
   */
  lemma EscapedSpaceLosesTimeout(ms: nat)
    ensures var options := Flagged(A_IS_B) + [BACKSLASH, SPACE, SPACE] + UTC_SESSION_OPTION;
            && Complete(options) && EndsWithUtc(options)
            && Settings(Words(options)) == [SettingOf(A_IS_B + [SPACE]), SettingOf(UTC_ARGUMENT)]
            && Settings(Words(TimeoutAdded(options, ms)))
                == [SettingOf(A_IS_B + [SPACE] + C_FLAG), SettingOf(UTC_ARGUMENT)]
  {
    NamedWritable([0x61], [0x62]);
    assert [0x61] + [EQUALS] + [0x62] == A_IS_B;
    EscapedBefore(A_IS_B, ms);
  }

  lemma EscapedBefore(x: Text, ms: nat)
    requires Writable(x)
    ensures var options := Flagged(x) + [BACKSLASH, SPACE, SPACE] + UTC_SESSION_OPTION;
            && Complete(options) && EndsWithUtc(options)
            && Settings(Words(options)) == [SettingOf(x + [SPACE]), SettingOf(UTC_ARGUMENT)]
            && Settings(Words(TimeoutAdded(options, ms))) == [SettingOf(x + [SPACE] + C_FLAG), SettingOf(UTC_ARGUMENT)]
  {
    TimeoutWritable(ms);
    UtcWritable();
    EscapedSpaceLost(x, TimeoutArgument(ms), UTC_ARGUMENT);
    var core, options := Flagged(x) + [BACKSLASH], Flagged(x) + [BACKSLASH, SPACE, SPACE] + UTC_SESSION_OPTION;
    BackslashGroups(Flagged(x), UTC_SESSION_OPTION);
    assert core[0] == DASH && core[|core| - 1] == BACKSLASH;
    SpacesTrimmed(core, UTC_SESSION_OPTION);
    WrittenBefore(options, core, ms);
  }

  lemma BackslashGroups(a: Text, flag: Text)
    ensures a + [BACKSLASH, SPACE, SPACE] + flag == a + [BACKSLASH] + [SPACE, SPACE] + flag
  {
  }

  lemma WrittenBefore(options: Text, core: Text, ms: nat)
    requires EndsWithUtc(options) && BeforeUtc(options) == core
    ensures TimeoutAdded(options, ms) == Added(Added(core, Flagged(TimeoutArgument(ms))), Flagged(UTC_ARGUMENT))
  {
  }

  /** Two spaces after a backslash are trimmed with it left open. */
  lemma SpacesTrimmed(a: Text, flag: Text)
    requires a != [] && !IsWhitespace(a[0]) && !IsWhitespace(a[|a| - 1]) && flag == UTC_SESSION_OPTION
    ensures var options := a + [SPACE, SPACE] + flag;
            EndsWithUtc(options) && BeforeUtc(options) == a
  {
    var options := a + [SPACE, SPACE] + flag;
    var x := a + [SPACE, SPACE];
    assert options[|x| - 1..] == [SPACE] + flag;
    assert options[..|x|] == x;
    TrimStartFixed(x);
    assert x[..|x| - 1] == a + [SPACE] && (a + [SPACE])[..|a|] == a;
    assert TrimEnd(x) == TrimEnd(a + [SPACE]) == TrimEnd(a) == a;
  }

  /** The options `-- -c TimeZone=UTC` end with the UTC option, so they are kept, and no UTC is read from them. */
  lemma UtcUnread()
    ensures var options := FLAGS_END + [SPACE] + UTC_SESSION_OPTION;
            EndsWithUtc(options) && Settings(Words(options)) == []
  {
    UtcWritable();
    FlagsEndSwallows(UTC_ARGUMENT);
    AddedEndsWithUtc(FLAGS_END);
  }
}
