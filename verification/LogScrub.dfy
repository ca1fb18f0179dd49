/**
 * Credentials inside log messages: passwords in connection strings, and bearer and basic tokens.
 * What each pass removes is stated by a rule for one match and by taking the first match,
 * then the rest of the text; the one-pass scanners compute exactly that.
 */
module LogScrub {
  import opened Texts
  import opened Ranges

  const TRUNCATED_MESSAGE: Text := [0x2026, 0x5b, 0x54, 0x52, 0x55, 0x4e, 0x43, 0x41, 0x54, 0x45, 0x44, 0x5d]

  // ----- connection strings: the rule

  predicate EndsPassword(c: CodeUnit) {
    c == AT_SIGN || c == SLASH || IsWhitespace(c)
  }

  predicate EndsUser(c: CodeUnit) {
    c == COLON || EndsPassword(c)
  }

  /** `scheme://user:password@`: where its `://`, its colon and its `@` are. */
  datatype Conn = Conn(sep: nat, colon: nat, at: nat)

  ghost predicate IsConn(text: Text, m: Conn) {
    && 1 <= m.sep && m.sep + 3 < m.colon && m.colon + 1 < m.at < |text|
    && IsWordChar(text[m.sep - 1]) && SchemeAt(text, m.sep)
    && (forall i | m.sep + 3 <= i < m.colon :: !EndsUser(text[i])) && text[m.colon] == COLON
    && (forall i | m.colon < i < m.at :: !EndsPassword(text[i])) && text[m.at] == AT_SIGN
  }

  ghost predicate FirstConn(text: Text, m: Conn) {
    IsConn(text, m) && forall n | IsConn(text, n) :: m.sep <= n.sep
  }

  ghost predicate NoConn(text: Text) {
    forall n :: !IsConn(text, n)
  }

  /** The first position from `i` on that stops a run, or the end of the text. */
  ghost function RunEnd(text: Text, i: nat, stops: CodeUnit -> bool): (e: nat)
    requires i <= |text|
    ensures i <= e <= |text|
    decreases |text| - i
  {
    if i < |text| && !stops(text[i]) then RunEnd(text, i + 1, stops) else i
  }

  ghost predicate IsRunEnd(text: Text, i: nat, stops: CodeUnit -> bool, e: nat) {
    && i <= e <= |text|
    && (forall k | i <= k < e :: !stops(text[k])) && (e < |text| ==> stops(text[e]))
  }

  lemma {:induction false} RunEnds(text: Text, i: nat, stops: CodeUnit -> bool)
    requires i <= |text|
    ensures IsRunEnd(text, i, stops, RunEnd(text, i, stops))
    decreases |text| - i
  {
    if i < |text| && !stops(text[i]) { RunEnds(text, i + 1, stops); }
  }

  lemma RunEndIs(text: Text, i: nat, stops: CodeUnit -> bool, e: nat)
    requires IsRunEnd(text, i, stops, e)
    ensures RunEnd(text, i, stops) == e
  {
    RunEnds(text, i, stops);
  }

  /** The match at one `://`, if it has one. */
  ghost function ConnAt(text: Text, sep: nat): (r: Option<Conn>)
    ensures r.Some? ==> sep == r.value.sep > 0 && sep + 3 < r.value.colon && r.value.colon + 1 < r.value.at < |text|
  {
    if sep == 0 || !SchemeAt(text, sep) || !IsWordChar(text[sep - 1]) then None
    else
      var colon := RunEnd(text, sep + 3, EndsUser);
      if colon == sep + 3 || colon == |text| || text[colon] != COLON then None
      else
        var at := RunEnd(text, colon + 1, EndsPassword);
        if at == colon + 1 || at == |text| || text[at] != AT_SIGN then None else Some(Conn(sep, colon, at))
  }

  lemma ConnAtIff(text: Text, m: Conn)
    ensures ConnAt(text, m.sep) == Some(m) <==> IsConn(text, m)
  {
    if IsConn(text, m) {
      RunEndIs(text, m.sep + 3, EndsUser, m.colon);
      RunEndIs(text, m.colon + 1, EndsPassword, m.at);
    }
    if ConnAt(text, m.sep) == Some(m) {
      RunEnds(text, m.sep + 3, EndsUser);
      RunEnds(text, m.colon + 1, EndsPassword);
    }
  }

  /** The first match whose `://` is at `from` or after it. */
  ghost function FindConnFrom(text: Text, from: nat): (r: Option<Conn>)
    ensures r.Some? ==> 0 < r.value.sep < r.value.colon && r.value.colon + 1 < r.value.at < |text|
    decreases |text| - from
  {
    if from >= |text| then None
    else if ConnAt(text, from).Some? then ConnAt(text, from)
    else FindConnFrom(text, from + 1)
  }

  ghost function FindConn(text: Text): Option<Conn> {
    FindConnFrom(text, 0)
  }

  lemma {:induction false} FindConnFromFinds(text: Text, from: nat)
    ensures var r := FindConnFrom(text, from);
            && (r.Some? ==>
                  IsConn(text, r.value) && forall n | IsConn(text, n) && n.sep >= from :: r.value.sep <= n.sep)
            && (r.None? ==> forall n | IsConn(text, n) :: n.sep < from)
    decreases |text| - from
  {
    if from < |text| {
      if ConnAt(text, from).Some? {
        ConnAtIff(text, ConnAt(text, from).value);
      } else {
        FindConnFromFinds(text, from + 1);
        forall n | IsConn(text, n) ensures n.sep != from { ConnAtIff(text, n); }
      }
    }
  }

  lemma FindConnFinds(text: Text)
    ensures FindConn(text).Some? ==> FirstConn(text, FindConn(text).value)
    ensures FindConn(text).None? ==> NoConn(text)
  {
    FindConnFromFinds(text, 0);
  }

  /** The first password replaced, then those after it. */
  ghost function ScrubConns(text: Text): Text
    decreases |text|
  {
    match FindConn(text)
    case None => text
    case Some(m) => text[..m.colon + 1] + REDACTED_TEXT + ScrubConns(text[m.at..])
  }

  /** Every connection string's password is the replacement. */
  ghost predicate Settled(text: Text) {
    forall m | IsConn(text, m) :: text[m.colon + 1..m.at] == REDACTED_TEXT
  }

  lemma ConnUnique(text: Text, m: Conn, n: Conn)
    requires IsConn(text, m) && IsConn(text, n) && m.sep == n.sep
    ensures m == n
  {
    assert EndsUser(text[m.colon]) && EndsUser(text[n.colon]);
    assert EndsPassword(text[m.at]) && EndsPassword(text[n.at]);
  }

  lemma FoundConn(text: Text, m: Conn)
    requires FirstConn(text, m)
    ensures FindConn(text) == Some(m)
  {
    FindConnFinds(text);
    ConnUnique(text, m, FindConn(text).value);
  }

  // ----- connection strings: the scan

  /** A `://` after `copied` with a word character before it: where the user and the password after it end. */
  method ScanConn(text: Text, sep: nat, copied: nat) returns (m: Option<Conn>)
    requires SchemeAt(text, sep)
    ensures m.Some? ==> IsConn(text, m.value) && m.value.sep == sep > copied
    ensures m.None? ==> forall n | IsConn(text, n) && n.sep > copied :: n.sep != sep
  {
    if sep < copied + 1 || !IsWordChar(text[sep - 1]) {
      return None;
    }
    var at := sep + 3;
    var userStart := at;
    while at < |text| && !EndsUser(text[at])
      invariant userStart <= at <= |text|
      invariant forall i | userStart <= i < at :: !EndsUser(text[i])
    {
      at := at + 1;
    }
    var colon := at;
    forall n | IsConn(text, n) && n.sep == sep ensures n.colon == colon {
      assert EndsUser(text[n.colon]);
    }
    if at == userStart || at == |text| || text[at] != COLON {
      return None;
    }
    var passwordStart := at + 1;
    at := passwordStart;
    while at < |text| && !EndsPassword(text[at])
      invariant passwordStart <= at <= |text|
      invariant forall i | passwordStart <= i < at :: !EndsPassword(text[i])
    {
      at := at + 1;
    }
    forall n | IsConn(text, n) && n.sep == sep ensures n.at == at {
      assert EndsPassword(text[n.at]);
    }
    if at == passwordStart || at == |text| || text[at] != AT_SIGN {
      return None;
    }
    return Some(Conn(sep, colon, at));
  }

  /** The next `://`, or -1. */
  method NextScheme(text: Text, from: nat) returns (sep: int)
    ensures sep == -1 ==> forall i | from <= i :: !SchemeAt(text, i)
    ensures sep != -1 ==> from <= sep && SchemeAt(text, sep) && forall i | from <= i < sep :: !SchemeAt(text, i)
  {
    sep := IndexOf(text, SCHEME_END, from);
    forall i ensures StartsAt(text, SCHEME_END, i) <==> SchemeAt(text, i) { SchemeChars(text, i); }
  }

  function Moved(m: Conn, d: int): Conn
    requires 0 <= m.sep + d && 0 <= m.colon + d && 0 <= m.at + d
  {
    Conn(m.sep + d, m.colon + d, m.at + d)
  }

  /** A match stands wherever its characters stand. */
  lemma ConnMoves(a: Text, b: Text, m: Conn, d: int)
    requires IsConn(a, m) && 1 <= m.sep + d && m.at + d < |b|
    requires forall i | m.sep - 1 <= i <= m.at :: b[i + d] == a[i]
    ensures IsConn(b, Moved(m, d))
  {
    forall i | m.sep + d + 3 <= i < m.colon + d ensures !EndsUser(b[i]) { assert b[(i - d) + d] == a[i - d]; }
    forall i | m.colon + d < i < m.at + d ensures !EndsPassword(b[i]) { assert b[(i - d) + d] == a[i - d]; }
    assert b[(m.sep - 1) + d] == a[m.sep - 1] && b[m.sep + d] == a[m.sep];
    assert b[(m.sep + 1) + d] == a[m.sep + 1] && b[(m.sep + 2) + d] == a[m.sep + 2];
  }

  /** `rest` is what follows the first `k` characters. */
  ghost predicate Follows(text: Text, k: nat, rest: Text) {
    |text| == k + |rest| && forall i | k <= i < |text| :: text[i] == rest[i - k]
  }

  lemma ConnInRest(text: Text, k: nat, rest: Text, n: Conn)
    requires Follows(text, k, rest) && IsConn(text, n) && k < n.sep
    ensures IsConn(rest, Moved(n, 0 - k))
  {
    ConnMoves(text, rest, n, 0 - k);
  }

  lemma ConnFromRest(text: Text, k: nat, rest: Text, n: Conn)
    requires Follows(text, k, rest) && IsConn(rest, n)
    ensures IsConn(text, Moved(n, k))
  {
    ConnMoves(rest, text, n, k);
  }

  lemma NoneAfter(text: Text, k: nat, rest: Text)
    requires Follows(text, k, rest) && forall n | IsConn(text, n) :: n.sep <= k
    ensures NoConn(rest)
  {
    forall n ensures !IsConn(rest, n) {
      if IsConn(rest, n) { ConnFromRest(text, k, rest, n); }
    }
  }

  lemma FirstAfter(text: Text, k: nat, rest: Text, m: Conn)
    requires Follows(text, k, rest) && IsConn(text, m) && k < m.sep
    requires forall n | IsConn(text, n) && n.sep > k :: n.sep >= m.sep
    ensures FirstConn(rest, Moved(m, 0 - k))
  {
    ConnInRest(text, k, rest, m);
    forall n | IsConn(rest, n) ensures m.sep - k <= n.sep { ConnFromRest(text, k, rest, n); }
  }

  lemma ScrubConnsAt(text: Text, m: Conn, before: Text, after: Text)
    requires FirstConn(text, m) && before == text[..m.colon + 1] && after == text[m.at..]
    ensures ScrubConns(text) == before + REDACTED_TEXT + ScrubConns(after)
  {
    FoundConn(text, m);
  }

  lemma SlicesOfRest(text: Text, k: nat, a: nat, b: nat)
    requires k <= a <= |text| && k <= b <= |text|
    ensures text[k..][..a - k] == text[k..a] && text[k..][b - k..] == text[b..]
  {
  }

  /** The scan's next match ends what can be written so far. */
  lemma ScrubbedUpTo(text: Text, k: nat, m: Conn)
    requires k < m.sep < m.colon < m.at < |text| && FirstConn(text[k..], Moved(m, 0 - k))
    ensures ScrubConns(text[k..]) == text[k..m.colon + 1] + REDACTED_TEXT + ScrubConns(text[m.at..])
  {
    SlicesOfRest(text, k, m.colon + 1, m.at);
    ScrubConnsAt(text[k..], Moved(m, 0 - k), text[k..m.colon + 1], text[m.at..]);
  }

  /** What is written so far, what is copied, and from where matches are still to be looked for. */
  ghost predicate ConnsScanned(text: Text, out: Text, copied: int, from: int) {
    && 0 <= copied <= from <= |text| && (copied == 0 ==> out == [])
    && ScrubConns(text) == out + ScrubConns(text[copied..])
    && forall n | IsConn(text, n) && n.sep > copied :: n.sep >= from
  }

  lemma ScannedToEnd(text: Text, out: Text, copied: int, from: int)
    requires ConnsScanned(text, out, copied, from) && forall i | from <= i :: !SchemeAt(text, i)
    ensures ScrubConns(text) == if copied == 0 then text else out + text[copied..]
  {
    NoneAfter(text, copied, text[copied..]);
    FindConnFinds(text[copied..]);
  }

  lemma ScannedMatch(text: Text, out: Text, copied: int, from: int, m: Conn)
    requires ConnsScanned(text, out, copied, from) && IsConn(text, m) && copied < m.sep
    requires forall i | from <= i < m.sep :: !SchemeAt(text, i)
    ensures copied < m.colon < m.at < |text| && from <= m.sep
    ensures ConnsScanned(text, out + text[copied..m.colon + 1] + REDACTED_TEXT, m.at, m.at)
  {
    FirstAfter(text, copied, text[copied..], m);
    ScrubbedUpTo(text, copied, m);
    GroupFour(out, text[copied..m.colon + 1], REDACTED_TEXT, ScrubConns(text[m.at..]));
  }

  lemma ScannedSkip(text: Text, out: Text, copied: int, from: int, sep: int)
    requires ConnsScanned(text, out, copied, from) && from <= sep < |text|
    requires forall i | from <= i < sep :: !SchemeAt(text, i)
    requires forall n | IsConn(text, n) && n.sep > copied :: n.sep != sep
    ensures ConnsScanned(text, out, copied, sep + 1)
  {
  }

  lemma ConnScanStarts(text: Text)
    ensures ConnsScanned(text, [], 0, 0)
  {
    assert text[0..] == text;
  }

  /** `scrubConnectionStrings`. */
  method ScrubConnectionStrings(text: Text) returns (r: Text)
    ensures r == ScrubConns(text)
  {
    var out: Text := [];
    var copied, from := 0, 0;
    ConnScanStarts(text);
    while true
      invariant ConnsScanned(text, out, copied, from)
      decreases |text| - from
    {
      var sep := NextScheme(text, from);
      if sep == -1 {
        ScannedToEnd(text, out, copied, from);
        return if copied == 0 then text else out + text[copied..];
      }
      var found := ScanConn(text, sep, copied);
      if found.Some? {
        var m := found.value;
        ScannedMatch(text, out, copied, from, m);
        out := out + text[copied..m.colon + 1] + REDACTED_TEXT;
        copied := m.at;
        from := m.at;
      } else {
        ScannedSkip(text, out, copied, from, sep);
        from := sep + 1;
      }
    }
  }

  // ----- bearer and basic tokens: the rule

  const BEARER: Text := [0x62, 0x65, 0x61, 0x72, 0x65, 0x72]
  const BASIC: Text := [0x62, 0x61, 0x73, 0x69, 0x63]

  /** Any character a token may have before its padding. */
  predicate IsTokenChar(c: CodeUnit) {
    IsWordChar(c) || c == 0x2e || c == 0x7e || c == 0x2b || c == SLASH || c == 0x2d
  }

  /** Letter by letter, ASCII case aside: no character past ASCII has a letter of either word for its lower case. */
  predicate Spells(text: Text, word: Text, at: nat) {
    at + |word| <= |text| && forall i | 0 <= i < |word| :: Lower(text[at + i]) == word[i]
  }

  /** `schemeLength`. */
  function SchemeLength(text: Text, at: nat): nat {
    if Spells(text, BEARER, at) then 6 else if Spells(text, BASIC, at) then 5 else 0
  }

  /** A scheme on a word boundary, whitespace and a token: where each starts. */
  datatype Auth = Auth(at: nat, space: nat, token: nat)

  ghost predicate IsAuth(text: Text, m: Auth) {
    && m.at < m.space < m.token < |text|
    && (m.at > 0 ==> !IsWordChar(text[m.at - 1]))
    && SchemeLength(text, m.at) == m.space - m.at
    && (forall i | m.space <= i < m.token :: IsWhitespace(text[i]))
    && IsTokenChar(text[m.token])
  }

  predicate EndsToken(c: CodeUnit) {
    !IsTokenChar(c)
  }

  predicate EndsPad(c: CodeUnit) {
    c != EQUALS
  }

  predicate EndsSpace(c: CodeUnit) {
    !IsWhitespace(c)
  }

  /** Where the match whose token starts at `token` ends. */
  ghost function AuthEnd(text: Text, token: nat): (e: nat)
    requires token <= |text|
    ensures token <= e <= |text|
  {
    RunEnd(text, RunEnd(text, token, EndsToken), EndsPad)
  }

  ghost predicate FirstAuth(text: Text, m: Auth) {
    IsAuth(text, m) && forall n | IsAuth(text, n) :: m.at <= n.at
  }

  ghost predicate NoAuth(text: Text) {
    forall n :: !IsAuth(text, n)
  }

  lemma AuthUnique(text: Text, m: Auth, n: Auth)
    requires IsAuth(text, m) && IsAuth(text, n) && m.at == n.at
    ensures m == n
  {
    assert !IsWhitespace(text[m.token]) && !IsWhitespace(text[n.token]);
  }

  /** The match that starts at one position, if one does. */
  ghost function AuthAt(text: Text, at: nat): (r: Option<Auth>)
    ensures r.Some? ==> at == r.value.at < r.value.space < r.value.token < |text|
  {
    var length := SchemeLength(text, at);
    if length == 0 || (at > 0 && IsWordChar(text[at - 1])) then None
    else
      var token := RunEnd(text, at + length, EndsSpace);
      if token == at + length || token == |text| || !IsTokenChar(text[token]) then None
      else Some(Auth(at, at + length, token))
  }

  lemma AuthAtIff(text: Text, m: Auth)
    ensures AuthAt(text, m.at) == Some(m) <==> IsAuth(text, m)
  {
    if IsAuth(text, m) { RunEndIs(text, m.space, EndsSpace, m.token); }
    if AuthAt(text, m.at) == Some(m) { RunEnds(text, m.space, EndsSpace); }
  }

  /** The first match at `from` or after it. */
  ghost function FindAuthFrom(text: Text, from: nat): (r: Option<Auth>)
    ensures r.Some? ==> r.value.at < r.value.space < r.value.token < |text|
    decreases |text| - from
  {
    if from >= |text| then None
    else if AuthAt(text, from).Some? then AuthAt(text, from)
    else FindAuthFrom(text, from + 1)
  }

  ghost function FindAuth(text: Text): Option<Auth> {
    FindAuthFrom(text, 0)
  }

  lemma {:induction false} FindAuthFromFinds(text: Text, from: nat)
    ensures var r := FindAuthFrom(text, from);
            && (r.Some? ==> IsAuth(text, r.value) && forall n | IsAuth(text, n) && n.at >= from :: r.value.at <= n.at)
            && (r.None? ==> forall n | IsAuth(text, n) :: n.at < from)
    decreases |text| - from
  {
    if from < |text| {
      if AuthAt(text, from).Some? {
        AuthAtIff(text, AuthAt(text, from).value);
      } else {
        FindAuthFromFinds(text, from + 1);
        forall n | IsAuth(text, n) ensures n.at != from { AuthAtIff(text, n); }
      }
    }
  }

  lemma FindAuthFinds(text: Text)
    ensures FindAuth(text).Some? ==> FirstAuth(text, FindAuth(text).value)
    ensures FindAuth(text).None? ==> NoAuth(text)
  {
    FindAuthFromFinds(text, 0);
  }

  const REPLACED_TOKEN: Text := [SPACE] + REDACTED_TEXT

  /** The first token and the whitespace before it replaced, then those after it. */
  ghost function ScrubAuths(text: Text): Text
    decreases |text|
  {
    match FindAuth(text)
    case None => text
    case Some(m) => text[..m.space] + REPLACED_TOKEN + ScrubAuths(text[AuthEnd(text, m.token)..])
  }

  lemma FoundAuth(text: Text, m: Auth)
    requires FirstAuth(text, m)
    ensures FindAuth(text) == Some(m)
  {
    FindAuthFinds(text);
    AuthUnique(text, m, FindAuth(text).value);
  }

  // ----- bearer and basic tokens: the scan

  function MovedAuth(m: Auth, d: int): Auth
    requires 0 <= m.at + d && 0 <= m.space + d && 0 <= m.token + d
  {
    Auth(m.at + d, m.space + d, m.token + d)
  }

  lemma SchemeMoves(a: Text, b: Text, at: nat, d: int, n: nat)
    requires n == SchemeLength(a, at) > 0 && 0 <= at + d && at + d + n <= |b|
    requires forall i | at <= i < at + n :: b[i + d] == a[i]
    ensures SchemeLength(b, at + d) == n
  {
    if n == 6 {
      forall i | 0 <= i < 6 ensures Lower(b[at + d + i]) == BEARER[i] { assert b[(at + i) + d] == a[at + i]; }
    } else {
      forall i | 0 <= i < 5 ensures Lower(b[at + d + i]) == BASIC[i] { assert b[(at + i) + d] == a[at + i]; }
      assert Lower(b[at + d + 1]) == BASIC[1] != BEARER[1];
    }
  }

  /** A match stands wherever its characters stand after something that is not a word. */
  lemma AuthMoves(a: Text, b: Text, m: Auth, d: int)
    requires IsAuth(a, m) && 0 <= m.at + d && m.token + d < |b|
    requires m.at + d > 0 ==> !IsWordChar(b[m.at + d - 1])
    requires forall i | m.at <= i <= m.token :: b[i + d] == a[i]
    ensures IsAuth(b, MovedAuth(m, d))
  {
    SchemeMoves(a, b, m.at, d, m.space - m.at);
    forall i | m.space + d <= i < m.token + d ensures IsWhitespace(b[i]) { assert b[(i - d) + d] == a[i - d]; }
    assert b[m.token + d] == a[m.token];
  }

  lemma RunEndInRest(text: Text, k: nat, rest: Text, i: nat, stops: CodeUnit -> bool)
    requires Follows(text, k, rest) && k <= i <= |text|
    ensures RunEnd(rest, i - k, stops) == RunEnd(text, i, stops) - k
  {
    var e := RunEnd(text, i, stops);
    RunEnds(text, i, stops);
    forall j | i - k <= j < e - k ensures !stops(rest[j]) { assert text[j + k] == rest[j]; }
    RunEndIs(rest, i - k, stops, e - k);
  }

  lemma AuthEndInRest(text: Text, k: nat, rest: Text, token: nat)
    requires Follows(text, k, rest) && k <= token <= |text|
    ensures AuthEnd(rest, token - k) == AuthEnd(text, token) - k
  {
    RunEndInRest(text, k, rest, token, EndsToken);
    RunEndInRest(text, k, rest, RunEnd(text, token, EndsToken), EndsPad);
  }

  /** Whether a whole match starts at `at`, where a scheme does, and how far reading it got. */
  method ScanAuth(text: Text, at: nat, length: nat) returns (m: Option<Auth>, end: nat)
    requires at < |text| && length == SchemeLength(text, at) > 0 && (at > 0 ==> !IsWordChar(text[at - 1]))
    ensures m.Some? ==> IsAuth(text, m.value) && m.value.at == at && m.value.space == at + length
    ensures m.Some? ==> end == AuthEnd(text, m.value.token) > m.value.token
    ensures m.None? ==> at + length <= end <= |text| && forall n | IsAuth(text, n) :: n.at != at
    ensures m.None? ==> forall i | at + length <= i < end :: IsWhitespace(text[i])
  {
    end := at + length;
    var spaceStart := end;
    while end < |text| && IsWhitespace(text[end])
      invariant spaceStart <= end <= |text|
      invariant forall i | spaceStart <= i < end :: IsWhitespace(text[i])
    {
      end := end + 1;
    }
    var tokenStart := end;
    forall n | IsAuth(text, n) && n.at == at ensures n == Auth(at, spaceStart, tokenStart) {
      assert !IsWhitespace(text[n.token]);
    }
    if end == spaceStart || end == |text| || !IsTokenChar(text[end]) {
      return None, end;
    }
    var found := Auth(at, spaceStart, tokenStart);
    assert IsAuth(text, found);
    while end < |text| && IsTokenChar(text[end])
      invariant tokenStart <= end <= |text|
      invariant forall i | tokenStart <= i < end :: IsTokenChar(text[i])
    {
      end := end + 1;
    }
    RunEndIs(text, tokenStart, EndsToken, end);
    ghost var pad := end;
    while end < |text| && text[end] == EQUALS
      invariant pad <= end <= |text|
      invariant forall i | pad <= i < end :: text[i] == EQUALS
    {
      end := end + 1;
    }
    RunEndIs(text, pad, EndsPad, end);
    return Some(found), end;
  }

  /** A text's rest starts on a word boundary, or with nothing a scheme starts with. */
  ghost predicate Resumes(text: Text, k: nat) {
    0 < k < |text| ==> !IsWordChar(text[k - 1]) || !IsTokenChar(text[k])
  }

  lemma AuthFromRest(text: Text, k: nat, rest: Text, n: Auth)
    requires Follows(text, k, rest) && Resumes(text, k) && IsAuth(rest, n)
    ensures IsAuth(text, MovedAuth(n, k))
  {
    SchemeStart(rest, n.at);
    assert n.at > 0 ==> text[k + n.at - 1] == rest[n.at - 1];
    AuthMoves(rest, text, n, k);
  }

  lemma AuthInRest(text: Text, k: nat, rest: Text, m: Auth)
    requires Follows(text, k, rest) && IsAuth(text, m) && k <= m.at
    ensures IsAuth(rest, MovedAuth(m, 0 - k))
  {
    AuthMoves(text, rest, m, 0 - k);
  }

  lemma SchemeStart(text: Text, at: nat)
    requires SchemeLength(text, at) > 0
    ensures at < |text| && (text[at] == 0x42 || text[at] == 0x62)
  {
    assert Lower(text[at + 0]) == BEARER[0] == BASIC[0];
  }

  lemma NoAuthAfter(text: Text, k: nat, rest: Text)
    requires Follows(text, k, rest) && Resumes(text, k) && forall n | IsAuth(text, n) :: n.at < k
    ensures NoAuth(rest)
  {
    forall n ensures !IsAuth(rest, n) {
      if IsAuth(rest, n) { AuthFromRest(text, k, rest, n); }
    }
  }

  lemma FirstAuthAfter(text: Text, k: nat, rest: Text, m: Auth)
    requires Follows(text, k, rest) && Resumes(text, k) && k <= m.at && IsAuth(text, m)
    requires forall n | IsAuth(text, n) && n.at >= k :: n.at >= m.at
    ensures FirstAuth(rest, MovedAuth(m, 0 - k))
  {
    AuthInRest(text, k, rest, m);
    forall n | IsAuth(rest, n) ensures m.at - k <= n.at { AuthFromRest(text, k, rest, n); }
  }

  lemma ScrubAuthsAt(text: Text, m: Auth, before: Text, after: Text)
    requires FirstAuth(text, m) && before == text[..m.space] && after == text[AuthEnd(text, m.token)..]
    ensures ScrubAuths(text) == before + REPLACED_TOKEN + ScrubAuths(after)
  {
    FoundAuth(text, m);
  }

  lemma TokenReplaced(text: Text, k: nat, m: Auth)
    requires k <= m.at < m.space < m.token < |text| && FirstAuth(text[k..], MovedAuth(m, 0 - k))
    ensures ScrubAuths(text[k..]) == text[k..m.space] + REPLACED_TOKEN + ScrubAuths(text[AuthEnd(text, m.token)..])
  {
    AuthEndInRest(text, k, text[k..], m.token);
    SlicesOfRest(text, k, m.space, AuthEnd(text, m.token));
    ScrubAuthsAt(text[k..], MovedAuth(m, 0 - k), text[k..m.space], text[AuthEnd(text, m.token)..]);
  }

  /** What is written so far, what is copied, and from where matches are still to be looked for. */
  ghost predicate AuthsScanned(text: Text, out: Text, copied: int, at: int) {
    && 0 <= copied <= at <= |text| && (copied == 0 ==> out == [])
    && ScrubAuths(text) == out + ScrubAuths(text[copied..])
    && (forall n | IsAuth(text, n) && n.at >= copied :: n.at >= at)
    && Resumes(text, copied)
  }

  lemma TokensScannedToEnd(text: Text, out: Text, copied: int)
    requires AuthsScanned(text, out, copied, |text|)
    ensures ScrubAuths(text) == if copied == 0 then text else out + text[copied..]
  {
    NoAuthAfter(text, copied, text[copied..]);
    FindAuthFinds(text[copied..]);
  }

  lemma TokenScanned(text: Text, out: Text, copied: int, m: Auth)
    requires AuthsScanned(text, out, copied, m.at) && IsAuth(text, m)
    ensures var end := AuthEnd(text, m.token); AuthsScanned(text, out + text[copied..m.space] + REPLACED_TOKEN, end,
                                                            end)
  {
    FirstAuthAfter(text, copied, text[copied..], m);
    TokenReplaced(text, copied, m);
    GroupFour(out, text[copied..m.space], REPLACED_TOKEN, ScrubAuths(text[AuthEnd(text, m.token)..]));
    AfterToken(text, m);
  }

  /** Whatever follows a match starts no scheme, or follows the `=` that ended it. */
  lemma AfterToken(text: Text, m: Auth)
    requires IsAuth(text, m)
    ensures m.token < AuthEnd(text, m.token) && Resumes(text, AuthEnd(text, m.token))
  {
    var pad, end := RunEnd(text, m.token, EndsToken), AuthEnd(text, m.token);
    RunEnds(text, m.token, EndsToken);
    RunEnds(text, pad, EndsPad);
    if pad < end { assert !EndsPad(text[end - 1]); }
  }

  lemma SchemeLetter(text: Text, at: nat, i: nat)
    requires i < SchemeLength(text, at)
    ensures IsWordChar(text[at + i])
  {
    if SchemeLength(text, at) == 6 {
      assert Lower(text[at + i]) == BEARER[i];
    } else {
      assert Lower(text[at + i]) == BASIC[i];
    }
  }

  /** Inside a scheme's letters, or at whitespace, no scheme starts. */
  lemma NoSchemeWithin(text: Text, at: nat, end: nat, n: Auth)
    requires SchemeLength(text, at) > 0 && at + SchemeLength(text, at) <= end <= |text|
    requires forall i | at + SchemeLength(text, at) <= i < end :: IsWhitespace(text[i])
    requires IsAuth(text, n) && n.at > at
    ensures n.at >= end
  {
    SchemeStart(text, n.at);
    forall i | at <= i < at + SchemeLength(text, at) ensures IsWordChar(text[i]) {
      SchemeLetter(text, at, i - at);
    }
  }

  lemma SchemeSkipped(text: Text, out: Text, copied: int, at: int, end: int)
    requires AuthsScanned(text, out, copied, at) && forall n | IsAuth(text, n) :: n.at != at
    requires SchemeLength(text, at) > 0 && at + SchemeLength(text, at) <= end <= |text|
    requires forall i | at + SchemeLength(text, at) <= i < end :: IsWhitespace(text[i])
    ensures AuthsScanned(text, out, copied, end)
  {
    forall n | IsAuth(text, n) && n.at >= copied ensures n.at >= end { NoSchemeWithin(text, at, end, n); }
  }

  lemma CharacterSkipped(text: Text, out: Text, copied: int, at: int)
    requires AuthsScanned(text, out, copied, at) && at < |text|
    requires (text[at] != 0x42 && text[at] != 0x62) || (at > 0 && IsWordChar(text[at - 1]))
             || SchemeLength(text, at) == 0
    ensures AuthsScanned(text, out, copied, at + 1)
  {
    forall n | IsAuth(text, n) ensures n.at != at { SchemeStart(text, n.at); }
  }

  lemma SplitSlice(out: Text, text: Text, a: nat, b: nat, c: nat)
    requires a <= b <= c <= |text|
    ensures out + text[a..b] + text[b..c] == out + text[a..c]
  {
  }

  lemma TokenWritten(text: Text, out: Text, copied: int, m: Auth, at: nat, space: nat, end: nat)
    requires AuthsScanned(text, out, copied, at) && IsAuth(text, m)
    requires m.at == at && m.space == space && AuthEnd(text, m.token) == end
    ensures AuthsScanned(text, out + text[copied..at] + text[at..space] + REPLACED_TOKEN, end, end)
  {
    TokenScanned(text, out, copied, m);
    SplitSlice(out, text, copied, m.at, m.space);
  }

  lemma TokenScanStarts(text: Text)
    ensures AuthsScanned(text, [], 0, 0)
  {
    assert text[0..] == text;
  }

  /** `scrubAuthSchemes`. */
  method ScrubAuthSchemes(text: Text) returns (r: Text)
    ensures r == ScrubAuths(text)
  {
    var out: Text := [];
    var copied, at := 0, 0;
    TokenScanStarts(text);
    while at < |text|
      invariant AuthsScanned(text, out, copied, at)
      decreases |text| - at
    {
      var length := 0;
      if (text[at] == 0x42 || text[at] == 0x62) && (at == 0 || !IsWordChar(text[at - 1])) {
        length := SchemeLength(text, at);
      }
      if length > 0 {
        var m, end := ScanAuth(text, at, length);
        if m.Some? {
          var space := at + length;
          TokenWritten(text, out, copied, m.value, at, space, end);
          out := out + text[copied..at] + text[at..space] + REPLACED_TOKEN;
          copied := end;
          at := end;
        } else {
          SchemeSkipped(text, out, copied, at, end);
          at := end;
        }
      } else {
        CharacterSkipped(text, out, copied, at);
        at := at + 1;
      }
    }
    TokensScannedToEnd(text, out, copied);
    r := if copied == 0 then text else out + text[copied..];
  }
}
