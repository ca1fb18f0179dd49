/**
 * What scrubbing a message guarantees: nothing left to scrub, nothing changed twice, whitespace
 * splits the work, and what is cut off before scrubbing hides nothing.
 */
module LogScrubProofs {
  import opened Texts
  import opened Ranges
  import opened LogScrub

  // ----- texts that share characters

  /** The first `k` characters of `text`, then `mark`, then `rest`. */
  ghost predicate Spliced(t: Text, text: Text, k: nat, mark: Text, rest: Text) {
    && k <= |text|
    && (forall i | 0 <= i < k <= |t| :: t[i] == text[i])
    && (forall i | k <= i < k + |mark| && i < |t| :: t[i] == mark[i - k])
    && Follows(t, k + |mark|, rest)
  }

  lemma SplicedOf(text: Text, k: nat, mark: Text, rest: Text)
    requires k <= |text|
    ensures Spliced(text[..k] + mark + rest, text, k, mark, rest)
  {
  }

  ghost predicate Agree(t: Text, text: Text, k: nat) {
    k <= |t| && k <= |text| && forall i | 0 <= i < k :: t[i] == text[i]
  }

  lemma ConnShared(t: Text, text: Text, k: nat, n: Conn)
    requires Agree(t, text, k) && IsConn(t, n) && n.at < k
    ensures IsConn(text, n)
  {
    ConnMoves(t, text, n, 0);
  }

  // ----- connection strings: every password left is the replacement

  /** Two connection strings do not overlap: the later one's scheme comes after the earlier one's `@`. */
  lemma ConnsApart(text: Text, m: Conn, n: Conn)
    requires IsConn(text, m) && IsConn(text, n) && m.sep < n.sep
    ensures m.at < n.sep - 1
  {
    assert EndsPassword(text[n.sep + 1]) && EndsUser(text[n.sep]);
    assert !IsWordChar(text[m.at]);
  }

  lemma ScrubConnsStart(text: Text)
    requires text != []
    ensures ScrubConns(text) != [] && ScrubConns(text)[0] == text[0]
  {
  }

  lemma ReplacedIsConn(t: Text, text: Text, m: Conn, rest: Text)
    requires IsConn(text, m) && Spliced(t, text, m.colon + 1, REDACTED_TEXT, rest) && rest != [] && rest[0] == AT_SIGN
    ensures IsConn(t, Conn(m.sep, m.colon, m.colon + 11))
  {
    forall i | m.colon < i < m.colon + 11 ensures !EndsPassword(t[i]) {
      assert t[i] == REDACTED_TEXT[i - (m.colon + 1)];
    }
    assert t[m.colon + 11] == rest[0];
  }

  /** The connection strings around a replaced password: its own, and those after it. */
  lemma ConnsOfReplaced(t: Text, text: Text, m: Conn, rest: Text, n: Conn)
    requires FirstConn(text, m) && Spliced(t, text, m.colon + 1, REDACTED_TEXT, rest)
    requires rest != [] && rest[0] == AT_SIGN && IsConn(t, n)
    ensures n == Conn(m.sep, m.colon, m.colon + 11) || n.sep > m.colon + 11
  {
    var here := Conn(m.sep, m.colon, m.colon + 11);
    ReplacedIsConn(t, text, m, rest);
    if n.sep < m.sep {
      ConnsApart(t, n, here);
      ConnShared(t, text, m.colon + 1, n);
    } else if n.sep == m.sep {
      ConnUnique(t, here, n);
    } else {
      ConnsApart(t, here, n);
    }
  }

  lemma PasswordMoves(t: Text, k: nat, rest: Text, n: Conn)
    requires Follows(t, k, rest) && IsConn(t, n) && n.sep > k && Settled(rest)
    ensures t[n.colon + 1..n.at] == REDACTED_TEXT
  {
    ConnInRest(t, k, rest, n);
    assert t[n.colon + 1..n.at] == rest[Moved(n, 0 - k).colon + 1..Moved(n, 0 - k).at];
  }

  lemma PasswordShared(t: Text, text: Text, k: nat, n: Conn)
    requires Agree(t, text, k) && IsConn(t, n) && n.at < k && Settled(text)
    ensures t[n.colon + 1..n.at] == REDACTED_TEXT
  {
    ConnShared(t, text, k, n);
    assert t[n.colon + 1..n.at] == text[n.colon + 1..n.at];
  }

  lemma SettledAround(t: Text, text: Text, m: Conn, rest: Text)
    requires FirstConn(text, m) && Spliced(t, text, m.colon + 1, REDACTED_TEXT, rest)
    requires rest != [] && rest[0] == AT_SIGN && Settled(rest)
    ensures Settled(t)
  {
    forall n | IsConn(t, n) ensures t[n.colon + 1..n.at] == REDACTED_TEXT {
      ConnsOfReplaced(t, text, m, rest, n);
      if n.sep > m.colon + 11 {
        PasswordMoves(t, m.colon + 11, rest, n);
      } else {
        assert t[m.colon + 1..m.colon + 11] == REDACTED_TEXT;
      }
    }
  }

  lemma {:induction false} ConnsSettled(text: Text)
    ensures Settled(ScrubConns(text))
    decreases |text|
  {
    FindConnFinds(text);
    if FindConn(text).Some? {
      var m := FindConn(text).value;
      var rest := ScrubConns(text[m.at..]);
      ConnsSettled(text[m.at..]);
      ScrubConnsStart(text[m.at..]);
      SplicedOf(text, m.colon + 1, REDACTED_TEXT, rest);
      SettledAround(ScrubConns(text), text, m, rest);
    }
  }

  lemma SettledSuffix(text: Text, k: nat)
    requires k <= |text| && Settled(text)
    ensures Settled(text[k..])
  {
    var rest := text[k..];
    forall n | IsConn(rest, n) ensures rest[n.colon + 1..n.at] == REDACTED_TEXT {
      ConnFromRest(text, k, rest, n);
      assert rest[n.colon + 1..n.at] == text[Moved(n, k).colon + 1..Moved(n, k).at];
    }
  }

  lemma SplitAt(text: Text, a: nat, b: nat)
    requires a <= b <= |text|
    ensures text[..a] + text[a..b] + text[b..] == text
  {
  }

  lemma {:induction false} SettledFixed(text: Text)
    requires Settled(text)
    ensures ScrubConns(text) == text
    decreases |text|
  {
    FindConnFinds(text);
    if FindConn(text).Some? {
      var m := FindConn(text).value;
      SettledSuffix(text, m.at);
      SettledFixed(text[m.at..]);
      SplitAt(text, m.colon + 1, m.at);
    }
  }

  /** Scrubbing connection strings twice is scrubbing them once. */
  lemma ConnsIdempotent(text: Text)
    ensures ScrubConns(ScrubConns(text)) == ScrubConns(text)
  {
    ConnsSettled(text);
    SettledFixed(ScrubConns(text));
  }

  // ----- tokens: none is left

  lemma AuthShared(t: Text, text: Text, k: nat, n: Auth)
    requires Agree(t, text, k) && IsAuth(t, n) && n.token < k
    ensures IsAuth(text, n)
  {
    AuthMoves(t, text, n, 0);
  }

  /** A match before a word boundary where a scheme may start finds its token by then. */
  lemma EarlierAuthEnds(text: Text, n: Auth, at: nat)
    requires IsAuth(text, n) && n.at < at < |text| && !IsWordChar(text[at - 1]) && !IsWhitespace(text[at])
    ensures n.token <= at
  {
    if at < n.space { SchemeLetter(text, n.at, at - 1 - n.at); }
  }

  lemma EarlierAuthShared(t: Text, text: Text, k: nat, m: Auth, n: Auth)
    requires Agree(t, text, k) && IsAuth(text, m) && m.at < k && IsAuth(t, n) && n.at < m.at
    ensures IsAuth(text, n)
  {
    SchemeStart(text, m.at);
    EarlierAuthEnds(t, n, m.at);
    AuthShared(t, text, k, n);
  }

  lemma NoSchemeInReplaced(t: Text, text: Text, k: nat, rest: Text, at: nat)
    requires Spliced(t, text, k, REPLACED_TOKEN, rest) && SchemeLength(t, at) > 0
    ensures at < k || at >= k + 11
  {
    SchemeStart(t, at);
  }

  /** After the scheme stand a space and a bracket, which starts no token. */
  lemma NoneAtReplaced(t: Text, text: Text, m: Auth, rest: Text, n: Auth)
    requires IsAuth(text, m) && Spliced(t, text, m.space, REPLACED_TOKEN, rest) && n.at == m.at
    ensures !IsAuth(t, n)
  {
    assert SchemeLength(t, m.at) == m.space - m.at by { SchemeMoves(text, t, m.at, 0, m.space - m.at); }
    assert t[m.space + 1] == 0x5b by { assert t[m.space + 1] == REPLACED_TOKEN[1]; }
    NoTokenAfterSpace(t, m.space, n);
  }

  lemma NoTokenAfterSpace(t: Text, space: nat, n: Auth)
    requires space + 1 < |t| && t[space + 1] == 0x5b && SchemeLength(t, n.at) == space - n.at > 0
    ensures !IsAuth(t, n)
  {
  }

  lemma NoneBeforeReplaced(t: Text, text: Text, m: Auth, rest: Text, n: Auth)
    requires FirstAuth(text, m) && Spliced(t, text, m.space, REPLACED_TOKEN, rest) && n.at < m.at
    ensures !IsAuth(t, n)
  {
    if IsAuth(t, n) { EarlierAuthShared(t, text, m.space, m, n); }
  }

  lemma AuthsOfReplaced(t: Text, text: Text, m: Auth, rest: Text, n: Auth)
    requires FirstAuth(text, m) && Spliced(t, text, m.space, REPLACED_TOKEN, rest) && IsAuth(t, n)
    ensures n.at >= m.space + 11
  {
    NoSchemeInReplaced(t, text, m.space, rest, n.at);
    if n.at < m.at {
      NoneBeforeReplaced(t, text, m, rest, n);
    } else if n.at == m.at {
      NoneAtReplaced(t, text, m, rest, n);
    } else if n.at < m.space {
      SchemeLetter(text, m.at, n.at - 1 - m.at);
    }
  }

  lemma NoAuthAround(t: Text, text: Text, m: Auth, rest: Text)
    requires FirstAuth(text, m) && Spliced(t, text, m.space, REPLACED_TOKEN, rest) && NoAuth(rest)
    ensures NoAuth(t)
  {
    forall n ensures !IsAuth(t, n) {
      if IsAuth(t, n) {
        AuthsOfReplaced(t, text, m, rest, n);
        AuthInRest(t, m.space + 11, rest, n);
      }
    }
  }

  /** No token is left. */
  lemma {:induction false} AuthsGone(text: Text)
    ensures NoAuth(ScrubAuths(text))
    decreases |text|
  {
    FindAuthFinds(text);
    if FindAuth(text).Some? {
      var m := FindAuth(text).value;
      var after := text[AuthEnd(text, m.token)..];
      AuthsGone(after);
      SplicedOf(text, m.space, REPLACED_TOKEN, ScrubAuths(after));
      NoAuthAround(ScrubAuths(text), text, m, ScrubAuths(after));
    }
  }

  lemma NoAuthFixed(text: Text)
    requires NoAuth(text)
    ensures ScrubAuths(text) == text
  {
    FindAuthFinds(text);
  }

  lemma AuthsIdempotent(text: Text)
    ensures ScrubAuths(ScrubAuths(text)) == ScrubAuths(text)
  {
    AuthsGone(text);
    NoAuthFixed(ScrubAuths(text));
  }

  // ----- both passes

  /** Nothing left to scrub: no token, and no password but the replacement. */
  ghost predicate Scrubbed(text: Text) {
    Settled(text) && NoAuth(text)
  }

  ghost function Scrub(text: Text): Text {
    ScrubAuths(ScrubConns(text))
  }

  lemma NoWhitespaceIn(text: Text, m: Conn, i: nat)
    requires IsConn(text, m) && i < |text| && IsWhitespace(text[i])
    ensures i < m.sep - 1 || i > m.at
  {
  }

  lemma ConnAroundToken(t: Text, text: Text, k: nat, rest: Text, n: Conn)
    requires Spliced(t, text, k, REPLACED_TOKEN, rest) && IsConn(t, n)
    ensures n.at < k || n.sep > k + 11
  {
    assert t[k] == REPLACED_TOKEN[0] == SPACE;
    NoWhitespaceIn(t, n, k);
    if k < n.sep - 1 {
      NotWithinToken(t, text, k, rest, n);
    }
  }

  /** No colon stands in the replacement, and no word character ends it. */
  lemma NotWithinToken(t: Text, text: Text, k: nat, rest: Text, n: Conn)
    requires Spliced(t, text, k, REPLACED_TOKEN, rest) && IsConn(t, n) && k < n.sep - 1
    ensures n.sep > k + 11
  {
  }

  lemma SettledAroundToken(t: Text, text: Text, k: nat, rest: Text)
    requires Spliced(t, text, k, REPLACED_TOKEN, rest) && Settled(text) && Settled(rest)
    ensures Settled(t)
  {
    forall n | IsConn(t, n) ensures t[n.colon + 1..n.at] == REDACTED_TEXT {
      ConnAroundToken(t, text, k, rest, n);
      if n.at < k {
        PasswordShared(t, text, k, n);
      } else {
        PasswordMoves(t, k + 11, rest, n);
      }
    }
  }

  /** Replacing tokens leaves no password that was not there. */
  lemma {:induction false} AuthsKeepSettled(text: Text)
    requires Settled(text)
    ensures Settled(ScrubAuths(text))
    decreases |text|
  {
    FindAuthFinds(text);
    if FindAuth(text).Some? {
      var m := FindAuth(text).value;
      var after := text[AuthEnd(text, m.token)..];
      SettledSuffix(text, AuthEnd(text, m.token));
      AuthsKeepSettled(after);
      SplicedOf(text, m.space, REPLACED_TOKEN, ScrubAuths(after));
      SettledAroundToken(ScrubAuths(text), text, m.space, ScrubAuths(after));
    }
  }

  /** Both passes leave nothing to scrub. */
  lemma ScrubScrubs(text: Text)
    ensures Scrubbed(Scrub(text))
  {
    ConnsSettled(text);
    AuthsKeepSettled(ScrubConns(text));
    AuthsGone(ScrubConns(text));
  }

  /** A text is left as it is exactly when there is nothing to scrub in it; so both passes, again, change nothing. */
  lemma ScrubFixesIff(text: Text)
    ensures Scrub(text) == text <==> Scrubbed(text)
    ensures Scrub(Scrub(text)) == Scrub(text)
  {
    ScrubScrubs(text);
    if Scrubbed(text) {
      SettledFixed(text);
      NoAuthFixed(text);
    }
    SettledFixed(Scrub(text));
    NoAuthFixed(Scrub(text));
  }

  // ----- whitespace splits a text

  ghost predicate EndsInSpace(text: Text) {
    text == [] || IsWhitespace(text[|text| - 1])
  }

  /** `h` and then `r`, character by character. */
  ghost predicate JoinOf(t: Text, h: Text, r: Text) {
    Agree(t, h, |h|) && Follows(t, |h|, r)
  }

  /** A connection string stands on one side of whitespace. */
  lemma ConnOnOneSide(t: Text, h: Text, r: Text, n: Conn)
    requires JoinOf(t, h, r) && EndsInSpace(h) && IsConn(t, n)
    ensures n.at < |h| || n.sep > |h|
  {
    if h != [] { NoWhitespaceIn(t, n, |h| - 1); }
  }

  /** Without a connection string in the first part, the first of both is the first of the second. */
  lemma FirstConnSecond(t: Text, h: Text, r: Text, m: Conn)
    requires JoinOf(t, h, r) && EndsInSpace(h) && NoConn(h) && FirstConn(r, m)
    ensures FirstConn(t, Moved(m, |h|))
  {
    ConnFromRest(t, |h|, r, m);
    forall n | IsConn(t, n) ensures m.sep + |h| <= n.sep {
      ConnOnOneSide(t, h, r, n);
      if n.at < |h| { ConnShared(t, h, |h|, n); } else { ConnInRest(t, |h|, r, n); }
    }
  }

  lemma NoConnJoined(t: Text, h: Text, r: Text)
    requires JoinOf(t, h, r) && EndsInSpace(h) && NoConn(h) && NoConn(r)
    ensures NoConn(t)
  {
    forall n ensures !IsConn(t, n) {
      if IsConn(t, n) {
        ConnOnOneSide(t, h, r, n);
        if n.at < |h| { ConnShared(t, h, |h|, n); } else { ConnInRest(t, |h|, r, n); }
      }
    }
  }

  lemma FirstConnFirst(t: Text, h: Text, m: Conn)
    requires Agree(t, h, |h|) && FirstConn(h, m)
    ensures FirstConn(t, m)
  {
    ConnShared(h, t, |h|, m);
    forall n | IsConn(t, n) ensures m.sep <= n.sep {
      if n.sep < m.sep {
        ConnsApart(t, n, m);
        ConnShared(t, h, |h|, n);
      }
    }
  }

  lemma SlicesOfSecond(h: Text, r: Text, c: nat, a: nat)
    requires c <= |r| && a <= |r|
    ensures (h + r)[..c + |h|] == h + r[..c] && (h + r)[a + |h|..] == r[a..]
  {
  }

  lemma SlicesOfFirst(h: Text, r: Text, c: nat, a: nat)
    requires c <= |h| && a <= |h|
    ensures (h + r)[..c] == h[..c] && (h + r)[a..] == h[a..] + r
  {
  }

  lemma SecondReplaced(h: Text, r: Text, m: Conn)
    requires EndsInSpace(h) && NoConn(h) && FirstConn(r, m)
    ensures ScrubConns(h + r) == h + ScrubConns(r)
  {
    FirstConnSecond(h + r, h, r, m);
    SlicesOfSecond(h, r, m.colon + 1, m.at);
    ScrubConnsAt(h + r, Moved(m, |h|), h + r[..m.colon + 1], r[m.at..]);
    ScrubConnsAt(r, m, r[..m.colon + 1], r[m.at..]);
    GroupFour(h, r[..m.colon + 1], REDACTED_TEXT, ScrubConns(r[m.at..]));
  }

  lemma FirstReplaced(h: Text, r: Text, m: Conn)
    requires FirstConn(h, m)
    requires ScrubConns(h[m.at..] + r) == ScrubConns(h[m.at..]) + ScrubConns(r)
    ensures ScrubConns(h + r) == ScrubConns(h) + ScrubConns(r)
  {
    FirstConnFirst(h + r, h, m);
    SlicesOfFirst(h, r, m.colon + 1, m.at);
    ScrubConnsAt(h + r, m, h[..m.colon + 1], h[m.at..] + r);
    ScrubConnsAt(h, m, h[..m.colon + 1], h[m.at..]);
    Group(h[..m.colon + 1] + REDACTED_TEXT, ScrubConns(h[m.at..]), ScrubConns(r));
  }

  /** Scrubbing connection strings goes part by part where whitespace ends the first. */
  lemma {:induction false} ConnsLocal(h: Text, r: Text)
    requires EndsInSpace(h)
    ensures ScrubConns(h + r) == ScrubConns(h) + ScrubConns(r)
    decreases |h|
  {
    FindConnFinds(h);
    FindConnFinds(r);
    if FindConn(h).Some? {
      ConnsLocal(h[FindConn(h).value.at..], r);
      FirstReplaced(h, r, FindConn(h).value);
    } else if FindConn(r).Some? {
      SecondReplaced(h, r, FindConn(r).value);
    } else {
      NoConnJoined(h + r, h, r);
      FindConnFinds(h + r);
    }
  }

  // ----- where each character went

  function Plus(place: Option<nat>, k: nat): Option<nat> {
    match place
    case None => None
    case Some(p) => Some(p + k)
  }

  /** Where a character stands after the passwords are replaced, or nowhere. */
  ghost function ConnPlace(text: Text, i: nat): Option<nat>
    decreases |text|
  {
    match FindConn(text)
    case None => Some(i)
    case Some(m) =>
      if i <= m.colon then Some(i) else if i < m.at then None
      else Plus(ConnPlace(text[m.at..], i - m.at), m.colon + 11)
  }

  /** Where a character stands after the tokens are replaced, or nowhere. */
  ghost function AuthPlace(text: Text, i: nat): Option<nat>
    decreases |text|
  {
    match FindAuth(text)
    case None => Some(i)
    case Some(m) =>
      var end := AuthEnd(text, m.token);
      if i < m.space then Some(i) else if i < end then None
      else Plus(AuthPlace(text[end..], i - end), m.space + 11)
  }

  ghost function Place(text: Text, i: nat): Option<nat> {
    match ConnPlace(text, i)
    case None => None
    case Some(p) => AuthPlace(ScrubConns(text), p)
  }

  lemma SplicedAt(t: Text, text: Text, k: nat, mark: Text, rest: Text, place: Option<nat>, c: CodeUnit)
    requires Spliced(t, text, k, mark, rest) && place.Some? && place.value < |rest| && rest[place.value] == c
    ensures Plus(place, k + |mark|).value < |t| && t[Plus(place, k + |mark|).value] == c
  {
  }

  lemma SplicedBefore(t: Text, text: Text, k: nat, mark: Text, rest: Text, i: nat)
    requires Spliced(t, text, k, mark, rest) && i < k
    ensures i < |t| && t[i] == text[i]
  {
  }

  lemma ConnPlaceLater(text: Text, m: Conn, after: Text, i: nat)
    requires FindConn(text) == Some(m) && after == text[m.at..] && m.at <= i < |text|
    requires var p := ConnPlace(after, i - m.at);
             p.Some? && p.value < |ScrubConns(after)| && ScrubConns(after)[p.value] == text[i]
    ensures ConnPlace(text, i).Some?
    ensures ConnPlace(text, i).value < |ScrubConns(text)| && ScrubConns(text)[ConnPlace(text, i).value] == text[i]
  {
    ConnUnfolds(text, m, after, i);
    SplicedOf(text, m.colon + 1, REDACTED_TEXT, ScrubConns(after));
    SplicedAt(ScrubConns(text), text, m.colon + 1, REDACTED_TEXT, ScrubConns(after), ConnPlace(after, i - m.at),
              text[i]);
  }

  lemma ConnUnfolds(text: Text, m: Conn, after: Text, i: nat)
    requires FindConn(text) == Some(m) && after == text[m.at..] && m.at <= i < |text|
    ensures ScrubConns(text) == text[..m.colon + 1] + REDACTED_TEXT + ScrubConns(after)
    ensures ConnPlace(text, i) == Plus(ConnPlace(after, i - m.at), m.colon + 11)
  {
  }

  lemma {:induction false} ConnPlaceTrue(text: Text, i: nat)
    requires i < |text| && ConnPlace(text, i).Some?
    ensures ConnPlace(text, i).value < |ScrubConns(text)| && ScrubConns(text)[ConnPlace(text, i).value] == text[i]
    decreases |text|
  {
    if FindConn(text).Some? {
      var m := FindConn(text).value;
      if i >= m.at {
        var after := text[m.at..];
        ConnPlaceTrue(after, i - m.at);
        ConnPlaceLater(text, m, after, i);
      } else {
        var rest := ScrubConns(text[m.at..]);
        SplicedOf(text, m.colon + 1, REDACTED_TEXT, rest);
        SplicedBefore(ScrubConns(text), text, m.colon + 1, REDACTED_TEXT, rest, i);
      }
    }
  }

  lemma {:induction false} AuthPlaceTrue(text: Text, i: nat)
    requires i < |text| && AuthPlace(text, i).Some?
    ensures AuthPlace(text, i).value < |ScrubAuths(text)| && ScrubAuths(text)[AuthPlace(text, i).value] == text[i]
    decreases |text|
  {
    if FindAuth(text).Some? {
      var m := FindAuth(text).value;
      var end := AuthEnd(text, m.token);
      var after := text[end..];
      var t, rest := ScrubAuths(text), ScrubAuths(after);
      SplicedOf(text, m.space, REPLACED_TOKEN, rest);
      if i >= end {
        AuthPlaceTrue(after, i - end);
        SplicedAt(t, text, m.space, REPLACED_TOKEN, rest, AuthPlace(after, i - end), text[i]);
      } else {
        SplicedBefore(t, text, m.space, REPLACED_TOKEN, rest, i);
      }
    }
  }

  /** A character that has a place stands there. */
  lemma PlaceTrue(text: Text, i: nat)
    requires i < |text| && Place(text, i).Some?
    ensures Place(text, i).value < |Scrub(text)| && Scrub(text)[Place(text, i).value] == text[i]
  {
    ConnPlaceTrue(text, i);
    AuthPlaceTrue(ScrubConns(text), ConnPlace(text, i).value);
  }

  lemma {:induction false} ConnPlaceOrdered(text: Text, i: nat, j: nat)
    requires i < j && ConnPlace(text, i).Some? && ConnPlace(text, j).Some?
    ensures ConnPlace(text, i).value < ConnPlace(text, j).value
    decreases |text|
  {
    if FindConn(text).Some? {
      var m := FindConn(text).value;
      if i >= m.at { ConnPlaceOrdered(text[m.at..], i - m.at, j - m.at); }
    }
  }

  lemma PlusOrdered(a: Option<nat>, b: Option<nat>, k: nat)
    requires a.Some? && b.Some? && a.value < b.value
    ensures Plus(a, k).value < Plus(b, k).value
  {
  }

  lemma {:induction false} AuthPlaceOrdered(text: Text, i: nat, j: nat)
    requires i < j && AuthPlace(text, i).Some? && AuthPlace(text, j).Some?
    ensures AuthPlace(text, i).value < AuthPlace(text, j).value
    decreases |text|
  {
    if FindAuth(text).Some? {
      var m := FindAuth(text).value;
      var end := AuthEnd(text, m.token);
      if i >= end {
        var rest := text[end..];
        AuthPlaceOrdered(rest, i - end, j - end);
        PlusOrdered(AuthPlace(rest, i - end), AuthPlace(rest, j - end), m.space + 11);
      } else {
        assert i < m.space;
      }
    }
  }

  /** Characters keep their order, so each place is one character's. */
  lemma PlaceOrdered(text: Text, i: nat, j: nat)
    requires i < j && Place(text, i).Some? && Place(text, j).Some?
    ensures Place(text, i).value < Place(text, j).value
  {
    ConnPlaceOrdered(text, i, j);
    AuthPlaceOrdered(ScrubConns(text), ConnPlace(text, i).value, ConnPlace(text, j).value);
  }

  /** The rule at every `://`: a character of a password. */
  ghost predicate InPassword(text: Text, i: int) {
    exists m :: IsConn(text, m) && m.colon < i < m.at
  }

  lemma PasswordInRest(text: Text, m: Conn, rest: Text, i: nat)
    requires FirstConn(text, m) && Follows(text, m.at, rest) && m.at <= i && InPassword(text, i)
    ensures InPassword(rest, i - m.at)
  {
    var n :| IsConn(text, n) && n.colon < i < n.at;
    if n.sep == m.sep { ConnUnique(text, m, n); } else { ConnsApart(text, m, n); }
    ConnInRest(text, m.at, rest, n);
  }

  lemma PasswordFromRest(text: Text, k: nat, rest: Text, i: nat)
    requires Follows(text, k, rest) && k <= i && InPassword(rest, i - k)
    ensures InPassword(text, i)
  {
    var n :| IsConn(rest, n) && n.colon < i - k < n.at;
    ConnFromRest(text, k, rest, n);
    assert Moved(n, k).colon < i < Moved(n, k).at;
  }

  lemma InFirstPassword(text: Text, m: Conn, i: nat)
    requires FirstConn(text, m) && i < m.at
    ensures InPassword(text, i) <==> i > m.colon
  {
    if InPassword(text, i) {
      var n :| IsConn(text, n) && n.colon < i < n.at;
      if n.sep == m.sep { ConnUnique(text, m, n); } else { ConnsApart(text, m, n); }
    }
  }

  /** The one-pass scan takes exactly what the rule takes at every `://`. */
  lemma {:induction false} ConnPlaceIff(text: Text, i: nat)
    requires i < |text|
    ensures ConnPlace(text, i).None? <==> InPassword(text, i)
    decreases |text|
  {
    FindConnFinds(text);
    if FindConn(text).Some? {
      var m := FindConn(text).value;
      if i >= m.at {
        ConnPlaceIff(text[m.at..], i - m.at);
        if InPassword(text, i) { PasswordInRest(text, m, text[m.at..], i); }
        if InPassword(text[m.at..], i - m.at) { PasswordFromRest(text, m.at, text[m.at..], i); }
      } else {
        InFirstPassword(text, m, i);
      }
    }
  }

  // ----- cutting before scrubbing

  lemma {:induction false} ConnPlaceLocal(h: Text, r: Text, i: nat)
    requires EndsInSpace(h) && i < |h|
    ensures ConnPlace(h + r, i) == ConnPlace(h, i)
    decreases |h|
  {
    FindConnFinds(h);
    FindConnFinds(r);
    if FindConn(h).Some? {
      var m := FindConn(h).value;
      FirstConnFirst(h + r, h, m);
      FoundConn(h + r, m);
      if i >= m.at {
        SlicesOfFirst(h, r, m.colon + 1, m.at);
        ConnPlaceLocal(h[m.at..], r, i - m.at);
      }
    } else if FindConn(r).Some? {
      FirstConnSecond(h + r, h, r, FindConn(r).value);
      FoundConn(h + r, Moved(FindConn(r).value, |h|));
    } else {
      NoConnJoined(h + r, h, r);
      FindConnFinds(h + r);
    }
  }

  lemma SuffixEndsInSpace(text: Text, k: nat)
    requires EndsInSpace(text) && k <= |text|
    ensures EndsInSpace(text[k..])
  {
  }

  lemma JoinedEndsInSpace(a: Text, b: Text)
    requires EndsInSpace(b) && (b == [] ==> EndsInSpace(a))
    ensures EndsInSpace(a + b)
  {
  }

  lemma {:induction false} ConnsEndInSpace(text: Text)
    requires EndsInSpace(text)
    ensures EndsInSpace(ScrubConns(text))
    decreases |text|
  {
    if FindConn(text).Some? {
      var m := FindConn(text).value;
      SuffixEndsInSpace(text, m.at);
      ConnsEndInSpace(text[m.at..]);
      ScrubConnsStart(text[m.at..]);
      JoinedEndsInSpace(text[..m.colon + 1] + REDACTED_TEXT, ScrubConns(text[m.at..]));
    }
  }

  /** In a text that ends in whitespace a match ends before that. */
  lemma AuthEndsBefore(text: Text, m: Auth)
    requires EndsInSpace(text) && IsAuth(text, m)
    ensures AuthEnd(text, m.token) < |text|
  {
    var pad := RunEnd(text, m.token, EndsToken);
    RunEnds(text, m.token, EndsToken);
    RunEnds(text, pad, EndsPad);
    assert EndsToken(text[|text| - 1]) && EndsPad(text[|text| - 1]);
  }

  lemma ScrubAuthsStart(text: Text)
    requires text != []
    ensures ScrubAuths(text) != []
  {
  }

  lemma {:induction false} AuthsEndInSpace(text: Text)
    requires EndsInSpace(text)
    ensures EndsInSpace(ScrubAuths(text))
    decreases |text|
  {
    FindAuthFinds(text);
    if FindAuth(text).Some? {
      var m := FindAuth(text).value;
      var end := AuthEnd(text, m.token);
      AuthEndsBefore(text, m);
      SuffixEndsInSpace(text, end);
      AuthsEndInSpace(text[end..]);
      ScrubAuthsStart(text[end..]);
      JoinedEndsInSpace(text[..m.space] + REPLACED_TOKEN, ScrubAuths(text[end..]));
    }
  }

  /** A scheme that starts before whitespace ends before it. */
  lemma SchemeEndsBefore(t: Text, m: Auth, k: nat)
    requires IsAuth(t, m) && m.at <= k < |t| && IsWhitespace(t[k])
    ensures m.space <= k
  {
    if k < m.space { SchemeLetter(t, m.at, k - m.at); }
  }

  /** A match across the end of a text without one takes only whitespace of it. */
  lemma AcrossTakesSpace(t: Text, h: Text, m: Auth, k: nat)
    requires Agree(t, h, |h|) && h != [] && EndsInSpace(h) && NoAuth(h) && IsAuth(t, m) && m.at < |h|
    requires k < |h| && !IsWhitespace(h[k])
    ensures k < m.space
  {
    SchemeEndsBefore(t, m, |h| - 1);
    if m.token < |h| { AuthShared(t, h, |h|, m); }
  }

  lemma FirstAuthFirst(t: Text, h: Text, m: Auth)
    requires Agree(t, h, |h|) && FirstAuth(h, m)
    ensures FirstAuth(t, m)
  {
    AuthShared(h, t, |h|, m);
    var k := |h|;
    forall n | IsAuth(t, n) ensures m.at <= n.at {
      if n.at < m.at { EarlierAuthShared(t, h, k, m, n); }
    }
  }

  lemma RunEndShared(t: Text, h: Text, i: nat, stops: CodeUnit -> bool)
    requires Agree(t, h, |h|) && i <= |h| && RunEnd(h, i, stops) < |h|
    ensures RunEnd(t, i, stops) == RunEnd(h, i, stops)
  {
    RunEnds(h, i, stops);
    RunEndIs(t, i, stops, RunEnd(h, i, stops));
  }

  lemma AuthEndShared(t: Text, h: Text, token: nat)
    requires Agree(t, h, |h|) && token <= |h| && AuthEnd(h, token) < |h|
    ensures AuthEnd(t, token) == AuthEnd(h, token)
  {
    RunEndShared(t, h, token, EndsToken);
    RunEndShared(t, h, RunEnd(h, token, EndsToken), EndsPad);
  }

  /** What survives in a text that ends in whitespace survives when more follows it. */
  lemma {:induction false} AuthPlaceStays(h: Text, r: Text, k: nat)
    requires EndsInSpace(h) && k < |h| && !IsWhitespace(h[k]) && AuthPlace(h, k).Some?
    ensures AuthPlace(h + r, k).Some?
    decreases |h|
  {
    FindAuthFinds(h);
    FindAuthFinds(h + r);
    if FindAuth(h).Some? {
      var m := FindAuth(h).value;
      var end := AuthEnd(h, m.token);
      FirstAuthFirst(h + r, h, m);
      FoundAuth(h + r, m);
      AuthEndsBefore(h, m);
      AuthEndShared(h + r, h, m.token);
      if k >= end {
        SlicesOfFirst(h, r, m.space, end);
        SuffixEndsInSpace(h, end);
        AuthPlaceStays(h[end..], r, k - end);
      }
    } else if FindAuth(h + r).Some? && FindAuth(h + r).value.at < |h| {
      AcrossTakesSpace(h + r, h, FindAuth(h + r).value, k);
    }
  }

  /** A character survives scrubbing. */
  ghost predicate Survives(text: Text, i: nat) {
    Place(text, i).Some?
  }

  /**
   * Whatever is cut off after whitespace, a character that is not whitespace and survives the
   * scrubbing of what is left would have survived the scrubbing of all of it.
   */
  lemma CutHidesNothing(h: Text, r: Text, i: nat)
    requires EndsInSpace(h) && i < |h| && !IsWhitespace(h[i]) && Survives(h, i)
    ensures Survives(h + r, i)
  {
    ConnPlaceLocal(h, r, i);
    ConnsLocal(h, r);
    ConnsEndInSpace(h);
    ConnPlaceTrue(h, i);
    AuthPlaceStays(ScrubConns(h), ScrubConns(r), ConnPlace(h, i).value);
  }
}
