/**
 * The `options` parameter of a database URL, rewritten: everything else in the URL stays as it is,
 * and what was written is read back.
 */
module DatabaseUrls {
  import opened Texts
  import opened StartupOptions
  import opened StatementTimeouts

  /** `options`. */
  const OPTIONS: Text := [0x6f, 0x70, 0x74, 0x69, 0x6f, 0x6e, 0x73]
  /** `TimeZone`. */
  const TIME_ZONE: Text := [0x54, 0x69, 0x6d, 0x65, 0x5a, 0x6f, 0x6e, 0x65]
  const UTC: Text := [0x55, 0x54, 0x43]
  const UTC_ARGUMENT: Text := TIME_ZONE + [EQUALS] + UTC
  /** `-c TimeZone=UTC`. */
  const UTC_SESSION_OPTION: Text := Flagged(UTC_ARGUMENT)

  /** `encodeURIComponent` and the reading of a form component; each may throw. */
  datatype Codec = Codec(encode: Text -> Option<Text>, decode: Text -> Option<Text>)

  predicate IsControl(c: CodeUnit) {
    c <= 0x1f || c == 0x7f
  }

  /** What is encoded holds no delimiter and no control character, and is decoded to what it was. */
  ghost predicate Lawful(codec: Codec) {
    && (forall t | codec.encode(t).Some? ::
          var e := codec.encode(t).value;
          codec.decode(e) == Some(t) && HASH !in e && AMPERSAND !in e && forall i | 0 <= i < |e| :: !IsControl(e[i]))
    && codec.decode(OPTIONS) == Some(OPTIONS)
  }

  // ----- taking a URL apart

  /** The first place of a character, or the end. */
  function First(t: Text, c: CodeUnit): (n: nat)
    ensures n <= |t|
  {
    if t == [] || t[0] == c then 0 else 1 + First(t[1..], c)
  }

  function Split(t: Text, c: CodeUnit): seq<Text>
    decreases |t|
  {
    var n := First(t, c);
    if n == |t| then [t] else [t[..n]] + Split(t[n + 1..], c)
  }

  function NonEmpty(parts: seq<Text>): seq<Text> {
    if parts == [] then [] else (if parts[0] == [] then [] else [parts[0]]) + NonEmpty(parts[1..])
  }

  function JoinPairs(pairs: seq<Text>): Text {
    if pairs == [] then [] else if |pairs| == 1 then pairs[0] else pairs[0] + [AMPERSAND] + JoinPairs(pairs[1..])
  }

  datatype Url = Url(base: Text, pairs: seq<Text>, hash: Text)

  function Parsed(url: Text): Url {
    var hashAt := First(url, HASH);
    var beforeHash := url[..hashAt];
    var queryAt := First(beforeHash, QUESTION);
    Url(beforeHash[..queryAt],
        if queryAt == |beforeHash| then [] else NonEmpty(Split(beforeHash[queryAt + 1..], AMPERSAND)),
        url[hashAt..])
  }

  function KeyOf(codec: Codec, pair: Text): Option<Text> {
    codec.decode(pair[..First(pair, EQUALS)])
  }

  function ValueOf(pair: Text): Text {
    var n := First(pair, EQUALS);
    if n == |pair| then [] else pair[n + 1..]
  }

  predicate IsOptions(codec: Codec, pair: Text) {
    KeyOf(codec, pair) == Some(OPTIONS)
  }

  predicate Decodable(codec: Codec, pairs: seq<Text>) {
    forall i | 0 <= i < |pairs| :: KeyOf(codec, pairs[i]).Some?
  }

  function OptionPairs(codec: Codec, pairs: seq<Text>): seq<Text> {
    if pairs == [] then []
    else (if IsOptions(codec, pairs[0]) then [pairs[0]] else []) + OptionPairs(codec, pairs[1..])
  }

  function OtherPairs(codec: Codec, pairs: seq<Text>): seq<Text> {
    if pairs == [] then []
    else (if IsOptions(codec, pairs[0]) then [] else [pairs[0]]) + OtherPairs(codec, pairs[1..])
  }

  function TrimStart(t: Text): (r: Text)
    ensures |r| <= |t|
  {
    if t != [] && IsWhitespace(t[0]) then TrimStart(t[1..]) else t
  }

  function TrimEnd(t: Text): (r: Text)
    ensures |r| <= |t|
  {
    if t != [] && IsWhitespace(t[|t| - 1]) then TrimEnd(t[..|t| - 1]) else t
  }

  function Trim(t: Text): Text {
    TrimEnd(TrimStart(t))
  }

  datatype Refusal = ControlCharacter | RepeatedOptions | BadEncoding | TimeoutUnset | TimeoutUnread | TimeoutDiffers
  datatype Result<+T> = Ok(value: T) | Err(refusal: Refusal)

  /** The options a URL carries, as it states them and trimmed, and the rest of it. */
  datatype Startup = Startup(stated: Text, existing: Text, base: Text, kept: seq<Text>, hash: Text)

  /** `startupOptions`. */
  function StartupOf(codec: Codec, url: Text): Result<Startup> {
    if exists i | 0 <= i < |url| :: IsControl(url[i]) then Err(ControlCharacter)
    else
      var parsed := Parsed(url);
      if !Decodable(codec, parsed.pairs) then Err(BadEncoding)
      else
        var written := OptionPairs(codec, parsed.pairs);
        if |written| > 1 then Err(RepeatedOptions)
        else
          var stated := if written == [] then Some([]) else codec.decode(ValueOf(written[0]));
          if stated.None? then Err(BadEncoding)
          else Ok(Startup(stated.value, Trim(stated.value), parsed.base, OtherPairs(codec, parsed.pairs), parsed.hash))
  }

  /** `withOptions`. */
  function WithOptions(codec: Codec, s: Startup, options: Text): Result<Text> {
    var encoded := codec.encode(options);
    if encoded.None? then Err(BadEncoding)
    else Ok(s.base + [QUESTION] + JoinPairs(s.kept + [OPTIONS + [EQUALS] + encoded.value]) + s.hash)
  }

  function EndsWith(t: Text, end: Text): bool {
    |end| <= |t| && t[|t| - |end|..] == end
  }

  predicate EndsWithUtc(options: Text) {
    options == UTC_SESSION_OPTION || EndsWith(options, [SPACE] + UTC_SESSION_OPTION)
  }

  /** `withUtcSession`. */
  function WithUtcSession(codec: Codec, url: Text): Result<Text> {
    var startup := StartupOf(codec, url);
    if startup.Err? then Err(startup.refusal)
    else if EndsWithUtc(startup.value.existing) then Ok(url)
    else WithOptions(codec, startup.value, Added(startup.value.existing, UTC_SESSION_OPTION))
  }

  /** `statement_timeout=` and the number. */
  function TimeoutArgument(ms: nat): Text {
    STATEMENT_TIMEOUT + [EQUALS] + NatText(ms)
  }

  /** What comes before the UTC option that options end with. */
  function BeforeUtc(options: Text): Text
    requires EndsWithUtc(options)
  {
    Trim(options[..|options| - |UTC_SESSION_OPTION|])
  }

  /** The options with a timeout written: last, but before a UTC option they end with. */
  function TimeoutAdded(existing: Text, ms: nat): Text {
    var flag := Flagged(TimeoutArgument(ms));
    if EndsWithUtc(existing) then Added(Added(BeforeUtc(existing), flag), UTC_SESSION_OPTION) else Added(existing, flag)
  }

  /** `withStatementTimeout`. */
  function WithStatementTimeout(codec: Codec, url: Text, timeout: Option<nat>): Result<Text> {
    var startup := StartupOf(codec, url);
    if startup.Err? then Err(startup.refusal)
    else
      var written := TimeoutsIn(startup.value.existing);
      if timeout.None? then (if written.values == [] && !written.unread then Ok(url) else Err(TimeoutUnset))
      else if written.unread then Err(TimeoutUnread)
      else if exists i | 0 <= i < |written.values| :: written.values[i] != NatText(timeout.value)
          then Err(TimeoutDiffers)
      else if written.values != [] then Ok(url)
      else WithOptions(codec, startup.value, TimeoutAdded(startup.value.existing, timeout.value))
  }
}
