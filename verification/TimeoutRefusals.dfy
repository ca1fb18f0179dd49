/** When a URL is refused, and for what: so whatever is returned for a timeout states no other. */
module TimeoutRefusals {
  import opened Texts
  import opened StartupOptions
  import opened StatementTimeouts
  import opened DatabaseUrls
  import opened DatabaseUrlProofs
  import opened TimeoutReread

  // ----- what options say of the timeout

  /** The settings the server reads from options. */
  function Read(options: Text): seq<Setting> {
    Settings(Words(options))
  }

  /** Every setting of the timeout that is read is this number. */
  ghost predicate OnlyTimeout(options: Text, ms: nat) {
    AllAre(Read(options), NatText(ms))
  }

  /** Some setting of the timeout is read. */
  ghost predicate SetsTimeout(options: Text) {
    AnySet(Read(options))
  }

  /** How often the timeout is named, in whatever form. */
  function Named(options: Text): nat {
    Mentions(Normalised(JoinWords(Words(options))), STATEMENT_TIMEOUT)
  }

  /** How often a setting of the timeout is read. */
  function Set(settings: seq<Setting>): nat {
    if settings == [] then 0 else (if settings[0].name == STATEMENT_TIMEOUT then 1 else 0) + Set(settings[1..])
  }

  /** The timeout is named in a form that is not read as a setting of it. */
  ghost predicate Unreadable(options: Text) {
    Named(options) > Set(Read(options))
  }

  // ----- the values as settings

  ghost predicate AllAre(settings: seq<Setting>, v: Text) {
    forall i | 0 <= i < |settings| && settings[i].name == STATEMENT_TIMEOUT :: settings[i].value == v
  }

  ghost predicate AnySet(settings: seq<Setting>) {
    exists i :: 0 <= i < |settings| && settings[i].name == STATEMENT_TIMEOUT
  }

  lemma SettingsSplit(settings: seq<Setting>, v: Text)
    requires settings != []
    ensures AllAre(settings, v) <==>
            (settings[0].name == STATEMENT_TIMEOUT ==> settings[0].value == v) && AllAre(settings[1..], v)
    ensures AnySet(settings) <==> settings[0].name == STATEMENT_TIMEOUT || AnySet(settings[1..])
  {
    var rest := settings[1..];
    assert forall i | 0 <= i < |rest| :: rest[i] == settings[i + 1];
    if AllAre(rest, v) && (settings[0].name == STATEMENT_TIMEOUT ==> settings[0].value == v) {
      forall i | 0 <= i < |settings| && settings[i].name == STATEMENT_TIMEOUT ensures settings[i].value == v {
        if i > 0 { assert rest[i - 1] == settings[i]; }
      }
    }
    if i :| 0 <= i < |settings| && settings[i].name == STATEMENT_TIMEOUT {
      if i > 0 { assert rest[i - 1] == settings[i]; }
    }
  }

  ghost predicate OnlyValue(values: seq<Text>, v: Text) {
    forall i | 0 <= i < |values| :: values[i] == v
  }

  lemma {:induction false} ValuesAre(settings: seq<Setting>, v: Text)
    ensures OnlyValue(ValuesOf(settings, STATEMENT_TIMEOUT), v) <==> AllAre(settings, v)
    ensures ValuesOf(settings, STATEMENT_TIMEOUT) == [] <==> !AnySet(settings)
    ensures |ValuesOf(settings, STATEMENT_TIMEOUT)| == Set(settings)
  {
    if settings != [] {
      var rest := ValuesOf(settings[1..], STATEMENT_TIMEOUT);
      ValuesAre(settings[1..], v);
      SettingsSplit(settings, v);
      OnlyOneMore(settings[0].value, rest, v);
      assert [] + rest == rest;
    }
  }

  lemma OnlyOneMore(first: Text, rest: seq<Text>, v: Text)
    ensures OnlyValue([first] + rest, v) <==> first == v && OnlyValue(rest, v)
  {
    var more := [first] + rest;
    assert more[0] == first;
    if OnlyValue(more, v) {
      forall i | 0 <= i < |rest| ensures rest[i] == v { assert more[i + 1] == rest[i]; }
    }
  }

  /** What `withStatementTimeout` looks at, in those terms. */
  lemma TimeoutsAre(options: Text, ms: nat)
    ensures var t := TimeoutsIn(options);
            && (t.unread <==> Unreadable(options)) && (t.values == [] <==> !SetsTimeout(options))
            && ((exists i :: 0 <= i < |t.values| && t.values[i] != NatText(ms)) <==> !OnlyTimeout(options, ms))
            && (t.values == [] && !t.unread <==> Named(options) == 0)
  {
    ValuesAre(Read(options), NatText(ms));
    ValuesAreMentions(options);
  }

  // ----- refusals

  /** A URL whose options can be read. */
  ghost predicate Readable(codec: Codec, url: Text) {
    StartupOf(codec, url).Ok?
  }

  /**
   * With no timeout a readable URL is returned exactly when its options do not name one anywhere.
   * With one it is refused first when the options name one in a form that is not read, then when a setting of
   * it is another number, and returned otherwise: as it is, where a setting is read.
   */
  lemma TimeoutRefusedFor(codec: Codec, url: Text, timeout: Option<nat>, before: Startup)
    requires StartupOf(codec, url) == Ok(before)
    ensures var r, options := WithStatementTimeout(codec, url, timeout), before.existing;
            match timeout
            case None => r == if Named(options) == 0 then Ok(url) else Err(TimeoutUnset)
            case Some(ms) =>
              if Unreadable(options) then r == Err(TimeoutUnread)
              else if !OnlyTimeout(options, ms) then r == Err(TimeoutDiffers)
              else if SetsTimeout(options) then r == Ok(url)
              else r.Ok? || r == Err(BadEncoding)
  {
    TimeoutsAre(before.existing, if timeout.Some? then timeout.value else 0);
  }

  /**
   * A URL returned for a timeout: every setting of the timeout read from the options it was given, and
   * every one read from the options it was returned with, is that number.
   */
  lemma ReturnedTimeoutAgrees(codec: Codec, url: Text, ms: nat, v: Text)
    requires Lawful(codec) && WithStatementTimeout(codec, url, Some(ms)) == Ok(v)
    ensures Readable(codec, url) && Readable(codec, v)
    ensures OnlyTimeout(StartupOf(codec, url).value.existing, ms)
    ensures OnlyTimeout(StartupOf(codec, v).value.existing, ms)
  {
    var before := StartupOf(codec, url).value;
    TimeoutReads(codec, url, ms, v);
    TimeoutRefusedFor(codec, url, Some(ms), before);
    if TimeoutsIn(before.existing).values == [] {
      ExistingTrimmed(codec, url);
      AddedReread(before.existing, ms);
      TimeoutsAre(TimeoutAdded(before.existing, ms), ms);
    }
  }

  // ----- what makes a URL unreadable

  ghost predicate HasControl(url: Text) {
    exists i :: 0 <= i < |url| && IsControl(url[i])
  }

  /** Two of a URL's parameters are its options. */
  ghost predicate Repeats(codec: Codec, pairs: seq<Text>) {
    exists i, j :: 0 <= i < j < |pairs| && IsOptions(codec, pairs[i]) && IsOptions(codec, pairs[j])
  }

  /** A parameter's value that its options would be read from does not decode. */
  ghost predicate Undecodable(codec: Codec, pairs: seq<Text>) {
    exists i :: 0 <= i < |pairs| && IsOptions(codec, pairs[i]) && codec.decode(ValueOf(pairs[i])).None?
  }

  lemma {:induction false} OptionPairsAre(codec: Codec, pairs: seq<Text>)
    ensures |OptionPairs(codec, pairs)| > 1 <==> Repeats(codec, pairs)
    ensures OptionPairs(codec, pairs) == [] <==> forall i | 0 <= i < |pairs| :: !IsOptions(codec, pairs[i])
    ensures OptionPairs(codec, pairs) != [] ==>
              OptionPairs(codec, pairs)[0] in pairs && IsOptions(codec, OptionPairs(codec, pairs)[0])
  {
    if pairs != [] {
      var rest := pairs[1..];
      OptionPairsAre(codec, rest);
      assert forall i | 1 <= i < |pairs| :: pairs[i] == rest[i - 1];
      if Repeats(codec, rest) {
        var i, j :| 0 <= i < j < |rest| && IsOptions(codec, rest[i]) && IsOptions(codec, rest[j]);
        assert IsOptions(codec, pairs[i + 1]) && IsOptions(codec, pairs[j + 1]);
      }
      if IsOptions(codec, pairs[0]) && OptionPairs(codec, rest) != [] {
        var j :| 0 <= j < |rest| && IsOptions(codec, rest[j]);
        assert IsOptions(codec, pairs[0]) && IsOptions(codec, pairs[j + 1]);
      }
    }
  }

  /**
   * A URL is refused for a control character anywhere in it, then for a parameter whose name does not
   * decode, then for two parameters that are its options, then for options that do not decode; and for nothing else.
   */
  lemma UnreadableFor(codec: Codec, url: Text)
    ensures var r, pairs := StartupOf(codec, url), Parsed(url).pairs;
            if HasControl(url) then r == Err(ControlCharacter)
            else if !Decodable(codec, pairs) then r == Err(BadEncoding)
            else if Repeats(codec, pairs) then r == Err(RepeatedOptions)
            else if Undecodable(codec, pairs) then r == Err(BadEncoding)
            else r.Ok?
  {
    var pairs := Parsed(url).pairs;
    OptionPairsAre(codec, pairs);
    if OptionPairs(codec, pairs) != [] {
      var k :| 0 <= k < |pairs| && pairs[k] == OptionPairs(codec, pairs)[0];
    }
  }
}
