/**
 * When a written stack has something left to scrub, told from the stack as it came: a scheme that scrubbing
 * leaves at the end of its message, and a first frame that is near enough to be read as a token.
 */
module StackSchemes {
  import opened Texts
  import opened Ranges
  import opened LogScrub
  import opened LogScrubProofs
  import opened LogMessages
  import opened ErrorSerializer

  // ----- a scheme at the end, counted from the end

  ghost predicate HangsFromEnd(t: Text, d: nat) {
    d <= |t| && SchemeHangsAt(t, |t| - d)
  }

  /** No scheme hangs at or before a character that is neither of a word nor whitespace. */
  lemma NoneUpTo(t: Text, k: nat, d: nat)
    requires k < |t| && !IsWordChar(t[k]) && !IsWhitespace(t[k]) && |t| <= k + d
    ensures !HangsFromEnd(t, d)
  {
    if HangsFromEnd(t, d) {
      var at := |t| - d;
      if k < at + SchemeLength(t, at) { SchemeLetter(t, at, k - at); }
    }
  }

  lemma SuffixHangs(t: Text, k: nat, u: Text, d: nat)
    requires Follows(t, k, u) && Resumes(t, k) && d <= |u| && HangsFromEnd(u, d)
    ensures HangsFromEnd(t, d)
  {
    var at := |u| - d;
    var n := SchemeLength(u, at);
    SchemeStart(u, at);
    SchemeMoves(u, t, at, k, n);
    assert at > 0 ==> t[k + at - 1] == u[at - 1];
    assert at == 0 ==> t[k] == u[0];
    forall i | k + at + n <= i < |t| ensures IsWhitespace(t[i]) { assert t[i] == u[i - k]; }
  }

  lemma HangsInSuffix(t: Text, k: nat, u: Text, d: nat)
    requires Follows(t, k, u) && d <= |u| && HangsFromEnd(t, d)
    ensures HangsFromEnd(u, d)
  {
    var at := |t| - d;
    var n := SchemeLength(t, at);
    SchemeMoves(t, u, at, 0 - k, n);
    assert at > k ==> t[at - 1] == u[at - k - 1];
    forall i | at - k + n <= i < |u| ensures IsWhitespace(u[i]) { assert t[i + k] == u[i]; }
  }

  // ----- passwords are replaced before it

  /** Passwords are replaced before a scheme that hangs, and it keeps its distance from the end. */
  ghost predicate ConnsKeep(text: Text, d: nat) {
    && (HangsFromEnd(ScrubConns(text), d) <==> HangsFromEnd(text, d))
    && (HangsFromEnd(text, d) ==>
          d <= |ScrubConns(text)| && ConnPlace(text, |text| - d) == Some(|ScrubConns(text)| - d))
  }

  lemma {:induction false} ConnsKeepHanging(text: Text, d: nat)
    ensures ConnsKeep(text, d)
    decreases |text|
  {
    FindConnFinds(text);
    if FindConn(text).Some? {
      var m := FindConn(text).value;
      ConnsKeepHanging(text[m.at..], d);
      ConnsKeepStep(text, m, text[m.at..], d);
    }
  }

  lemma ConnsKeepStep(text: Text, m: Conn, rest: Text, d: nat)
    requires FindConn(text) == Some(m) && IsConn(text, m) && rest == text[m.at..] && ConnsKeep(rest, d)
    ensures ConnsKeep(text, d)
  {
    var t, u := ScrubConns(text), ScrubConns(rest);
    ScrubConnsStart(rest);
    HangingAfterConn(text, m, rest, d);
    assert HangsFromEnd(t, d) <==> HangsFromEnd(u, d) by { HangingAfterPassword(t, text, m, u, d); }
    if HangsFromEnd(text, d) { ConnPlaceStep(text, m, rest, d); }
  }

  lemma ConnPlaceStep(text: Text, m: Conn, rest: Text, d: nat)
    requires FindConn(text) == Some(m) && rest == text[m.at..] && d <= |rest| && d <= |ScrubConns(rest)|
    requires ConnPlace(rest, |rest| - d) == Some(|ScrubConns(rest)| - d)
    ensures d <= |ScrubConns(text)| && ConnPlace(text, |text| - d) == Some(|ScrubConns(text)| - d)
  {
    assert |ScrubConns(text)| == m.colon + 11 + |ScrubConns(rest)|;
  }

  lemma HangingAfterConn(text: Text, m: Conn, rest: Text, d: nat)
    requires IsConn(text, m) && rest == text[m.at..]
    ensures HangsFromEnd(text, d) <==> d < |rest| && HangsFromEnd(rest, d)
    ensures HangsFromEnd(rest, d) ==> d < |rest|
  {
    if d >= |rest| {
      NoneUpTo(text, m.at, d);
      NoneUpTo(rest, 0, d);
    } else if HangsFromEnd(text, d) {
      HangsInSuffix(text, m.at, rest, d);
    } else if HangsFromEnd(rest, d) {
      SuffixHangs(text, m.at, rest, d);
    }
  }

  lemma HangingAfterPassword(t: Text, text: Text, m: Conn, rest: Text, d: nat)
    requires IsConn(text, m) && t == text[..m.colon + 1] + REDACTED_TEXT + rest && rest != [] && rest[0] == AT_SIGN
    ensures HangsFromEnd(t, d) <==> HangsFromEnd(rest, d)
  {
    var k := m.colon + 11;
    assert Follows(t, k, rest);
    assert t[k] == rest[0];
    if d >= |rest| {
      NoneUpTo(t, k, d);
      NoneUpTo(rest, 0, d);
    } else if HangsFromEnd(t, d) {
      HangsInSuffix(t, k, rest, d);
    } else if HangsFromEnd(rest, d) {
      SuffixHangs(t, k, rest, d);
    }
  }

  // ----- and tokens, of which it may be one

  /** A scheme that hangs comes after the whitespace of any match. */
  lemma HangsAfterSpace(text: Text, m: Auth, at: nat)
    requires IsAuth(text, m) && SchemeHangsAt(text, at)
    ensures at >= m.space
  {
    assert IsWhitespace(text[m.space]) && !IsWhitespace(text[m.token]);
    if at < m.space < at + SchemeLength(text, at) { SchemeLetter(text, at, m.space - at); }
  }

  lemma HangingAfterToken(t: Text, text: Text, m: Auth, rest: Text, d: nat)
    requires IsAuth(text, m) && t == text[..m.space] + REPLACED_TOKEN + rest
    ensures HangsFromEnd(t, d) <==> HangsFromEnd(rest, d)
  {
    var k := m.space + 11;
    assert Follows(t, k, rest);
    assert t[k - 1] == REPLACED_TOKEN[10] == 0x5d;
    if d > |rest| {
      NoneUpTo(t, k - 1, d);
    } else if HangsFromEnd(t, d) {
      HangsInSuffix(t, k, rest, d);
    } else if HangsFromEnd(rest, d) {
      SuffixHangs(t, k, rest, d);
    }
  }

  lemma HangingAfterMatch(text: Text, m: Auth, end: nat, rest: Text, d: nat)
    requires IsAuth(text, m) && end == AuthEnd(text, m.token) && rest == text[end..] && d <= |rest|
    ensures HangsFromEnd(text, d) <==> HangsFromEnd(rest, d)
  {
    AfterToken(text, m);
    if HangsFromEnd(text, d) { HangsInSuffix(text, end, rest, d); }
    if HangsFromEnd(rest, d) { SuffixHangs(text, end, rest, d); }
  }

  lemma PlacedAfter(text: Text, m: Auth, rest: Text, d: nat)
    requires FindAuth(text) == Some(m) && rest == text[AuthEnd(text, m.token)..] && d <= |rest|
    ensures AuthPlace(text, |text| - d).Some? <==> AuthPlace(rest, |rest| - d).Some?
  {
    var i, end := |text| - d, AuthEnd(text, m.token);
    assert i - end == |rest| - d && m.space < end <= i;
  }

  lemma TakenByToken(text: Text, m: Auth, i: nat)
    requires FindAuth(text) == Some(m) && m.space <= i < AuthEnd(text, m.token)
    ensures AuthPlace(text, i).None?
  {
  }

  /** A scheme hangs at the end, and no token took it. */
  ghost predicate HangsApart(text: Text, d: nat) {
    HangsFromEnd(text, d) && AuthPlace(text, |text| - d).Some?
  }

  ghost predicate AuthsKeep(text: Text, d: nat) {
    HangsFromEnd(ScrubAuths(text), d) <==> HangsApart(text, d)
  }

  lemma HangsApartLater(text: Text, m: Auth, end: nat, rest: Text, d: nat)
    requires FindAuth(text) == Some(m) && IsAuth(text, m) && end == AuthEnd(text, m.token) && rest == text[end..]
    requires m.token < end
    ensures HangsApart(text, d) <==> HangsApart(rest, d)
  {
    if d <= |rest| {
      assert HangsFromEnd(text, d) <==> HangsFromEnd(rest, d) by { HangingAfterMatch(text, m, end, rest, d); }
      assert AuthPlace(text, |text| - d).Some? <==> AuthPlace(rest, |rest| - d).Some? by {
        PlacedAfter(text, m, rest, d);
      }
      ApartAlike(text, rest, d);
    } else {
      NotApartInToken(text, m, end, d);
    }
  }

  lemma ApartAlike(text: Text, rest: Text, d: nat)
    requires d <= |rest| <= |text| && (HangsFromEnd(text, d) <==> HangsFromEnd(rest, d))
    requires AuthPlace(text, |text| - d).Some? <==> AuthPlace(rest, |rest| - d).Some?
    ensures HangsApart(text, d) <==> HangsApart(rest, d)
  {
  }

  lemma NotApartInToken(text: Text, m: Auth, end: nat, d: nat)
    requires FindAuth(text) == Some(m) && IsAuth(text, m) && end == AuthEnd(text, m.token) && d > |text| - end
    ensures !HangsApart(text, d)
  {
    if HangsFromEnd(text, d) {
      HangsAfterSpace(text, m, |text| - d);
      TakenByToken(text, m, |text| - d);
    }
  }

  lemma AuthsKeepStep(text: Text, m: Auth, end: nat, rest: Text, d: nat)
    requires FindAuth(text) == Some(m) && IsAuth(text, m) && end == AuthEnd(text, m.token) && rest == text[end..]
    requires m.token < end && AuthsKeep(rest, d)
    ensures AuthsKeep(text, d)
  {
    HangingAfterToken(ScrubAuths(text), text, m, ScrubAuths(rest), d);
    HangsApartLater(text, m, end, rest, d);
  }

  /** A scheme hangs after the tokens are replaced exactly when it hung before and was no part of one. */
  lemma {:induction false} AuthsKeepHanging(text: Text, d: nat)
    ensures AuthsKeep(text, d)
    decreases |text|
  {
    FindAuthFinds(text);
    if FindAuth(text).Some? {
      var m := FindAuth(text).value;
      var end := AuthEnd(text, m.token);
      AfterToken(text, m);
      AuthsKeepHanging(text[end..], d);
      AuthsKeepStep(text, m, end, text[end..], d);
    }
  }

  /** A scheme hangs at the end of a text, and scrubbing leaves it there. */
  ghost predicate HangsOnAt(t: Text, at: nat) {
    SchemeHangsAt(t, at) && Place(t, at).Some?
  }

  ghost predicate HangsOn(t: Text) {
    exists at :: HangsOnAt(t, at)
  }

  lemma ScrubKeepsFromEnd(t: Text, d: nat)
    ensures HangsFromEnd(Scrub(t), d) <==> d <= |t| && HangsOnAt(t, |t| - d)
  {
    var c := ScrubConns(t);
    ConnsKeepHanging(t, d);
    AuthsKeepHanging(c, d);
    if HangsFromEnd(t, d) { PlacedAtEnd(t, d, c); }
  }

  lemma PlacedAtEnd(t: Text, d: nat, c: Text)
    requires d <= |t| && c == ScrubConns(t) && d <= |c| && ConnPlace(t, |t| - d) == Some(|c| - d)
    ensures Place(t, |t| - d) == AuthPlace(c, |c| - d)
  {
    PlaceIs(t, |t| - d, |c| - d);
  }

  lemma PlaceIs(t: Text, i: nat, p: nat)
    requires ConnPlace(t, i) == Some(p)
    ensures Place(t, i) == AuthPlace(ScrubConns(t), p)
  {
  }

  /** A scheme hangs in a scrubbed text exactly when one hung in the text and is not scrubbed away. */
  lemma ScrubKeepsHanging(t: Text)
    ensures SchemeHangs(Scrub(t)) <==> HangsOn(t)
  {
    if SchemeHangs(Scrub(t)) {
      var p :| SchemeHangsAt(Scrub(t), p);
      ScrubKeepsFromEnd(t, |Scrub(t)| - p);
    }
    if HangsOn(t) {
      var at :| HangsOnAt(t, at);
      ScrubKeepsFromEnd(t, |t| - at);
    }
  }

  // ----- the message part

  /** The message part is not cut, before or after it is scrubbed, and a scheme hangs on at its end. */
  ghost predicate HeadHangs(head: Text) {
    |head| <= SCRUB_MESSAGE_MAX && |Scrub(head)| <= SCRUB_MESSAGE_MAX && HangsOn(head)
  }

  lemma MessageHangsIff(head: Text)
    ensures SchemeHangs(Message(head, SCRUB_MESSAGE_MAX)) <==> HeadHangs(head)
  {
    var t := Message(head, SCRUB_MESSAGE_MAX);
    if |head| > SCRUB_MESSAGE_MAX || |Scrub(HeadOf(head, SCRUB_MESSAGE_MAX))| > SCRUB_MESSAGE_MAX {
      MarkedNeverHangs(HeadOf(Scrub(HeadOf(head, SCRUB_MESSAGE_MAX)), SCRUB_MESSAGE_MAX));
    } else {
      ScrubKeepsHanging(head);
    }
  }

  lemma MarkedNeverHangs(h: Text)
    ensures !SchemeHangs(h + TRUNCATED_MESSAGE)
  {
    var t := h + TRUNCATED_MESSAGE;
    assert t[|t| - 1] == TRUNCATED_MESSAGE[11] == 0x5d;
    forall at ensures !SchemeHangsAt(t, at) {
      if SchemeHangsAt(t, at) { NoneUpTo(t, |t| - 1, |t| - at); }
    }
  }

  // ----- the frames

  /** Whitespace, then `at `. */
  ghost predicate OpensWithFrame(g: Text, k: nat) {
    k + 3 <= |g| && (forall i | 0 <= i < k :: IsWhitespace(g[i])) && g[k] == 0x61 && g[k + 1] == 0x74
        && g[k + 2] == SPACE
  }

  lemma ConnsKeepFrame(g: Text, k: nat)
    requires OpensWithFrame(g, k)
    ensures OpensWithFrame(ScrubConns(g), k)
  {
    FindConnFinds(g);
    if FindConn(g).Some? {
      var m := FindConn(g).value;
      assert g[m.sep] == COLON;
      assert m.sep >= k + 3;
      SpliceKeepsFrame(g, k, m.colon + 1, REDACTED_TEXT, ScrubConns(g[m.at..]));
    }
  }

  lemma AuthsKeepFrame(g: Text, k: nat)
    requires OpensWithFrame(g, k)
    ensures OpensWithFrame(ScrubAuths(g), k)
  {
    FindAuthFinds(g);
    if FindAuth(g).Some? {
      var m := FindAuth(g).value;
      FirstSchemeAfter(g, k, m);
      SpliceKeepsFrame(g, k, m.space, REPLACED_TOKEN, ScrubAuths(g[AuthEnd(g, m.token)..]));
    }
  }

  lemma PrefixKeepsFrame(g: Text, k: nat, n: nat, more: Text, t: Text)
    requires OpensWithFrame(g, k) && k + 3 <= n <= |g| && t == g[..n] + more
    ensures OpensWithFrame(t, k)
  {
    forall i | 0 <= i < k + 3 ensures t[i] == g[i] {}
  }

  lemma SpliceKeepsFrame(g: Text, k: nat, n: nat, mark: Text, rest: Text)
    requires OpensWithFrame(g, k) && k + 3 <= n <= |g|
    ensures OpensWithFrame(g[..n] + mark + rest, k)
  {
    Group(g[..n], mark, rest);
    PrefixKeepsFrame(g, k, n, mark + rest, g[..n] + (mark + rest));
  }

  lemma FirstSchemeAfter(g: Text, k: nat, m: Auth)
    requires OpensWithFrame(g, k) && IsAuth(g, m)
    ensures k + 3 <= m.space <= |g|
  {
    SchemeStart(g, m.at);
    assert m.at < k ==> IsWhitespace(g[m.at]);
  }

  lemma {:induction false} LastSpaceAfter(t: Text, max: nat, e: nat)
    requires 0 < e <= max <= |t| && IsWhitespace(t[e - 1])
    ensures LastSpace(t, max) >= e
  {
    if e < max && !IsWhitespace(t[max - 1]) { LastSpaceAfter(t, max - 1, e); }
  }

  lemma HeadKeepsFrame(g: Text, k: nat, max: nat)
    requires OpensWithFrame(g, k) && k + 3 <= max
    ensures OpensWithFrame(HeadOf(g, max), k)
  {
    if |g| > max {
      LastSpaceAfter(g, max, k + 3);
      var n := LastSpace(g, max);
      assert g[..n] == g[..n] + [];
      PrefixKeepsFrame(g, k, n, [], g[..n]);
    }
  }

  lemma MessageKeepsFrame(g: Text, k: nat, max: nat)
    requires OpensWithFrame(g, k) && k + 3 <= max
    ensures OpensWithFrame(Message(g, max), k)
  {
    var h := HeadOf(g, max);
    HeadKeepsFrame(g, k, max);
    ConnsKeepFrame(h, k);
    AuthsKeepFrame(ScrubConns(h), k);
    var s := Scrub(h);
    HeadKeepsFrame(s, k, max);
    var n := |HeadOf(s, max)|;
    if |g| > max || |s| > max {
      PrefixKeepsFrame(HeadOf(s, max), k, n, TRUNCATED_MESSAGE, HeadOf(s, max) + TRUNCATED_MESSAGE);
    }
  }

  ghost predicate White(t: Text) {
    forall i | 0 <= i < |t| :: IsWhitespace(t[i])
  }

  lemma WhiteScrubbed(t: Text)
    requires White(t)
    ensures Scrub(t) == t
  {
    forall n ensures !IsConn(t, n) {}
    forall n ensures !IsAuth(t, n) {}
    ScrubFixesIff(t);
  }

  lemma FarFrameHead(g: Text, k: nat, max: nat) returns (h: Text)
    requires OpensWithFrame(g, k) && k + 3 > max
    ensures HeadOf(g, max) == h && White(h) && |h| <= max < |g|
  {
    var e := if k < max then k else max;
    assert e > 0 ==> IsWhitespace(g[e - 1]);
    LastSpaceIs(g, max, e);
    h := g[..e];
  }

  lemma WhiteOpensNone(h: Text)
    requires White(h)
    ensures !TokenOpens(h + TRUNCATED_MESSAGE)
  {
    var t := h + TRUNCATED_MESSAGE;
    assert t[|h|] == TRUNCATED_MESSAGE[0];
    assert forall i | 0 <= i < |h| :: t[i] == h[i];
    assert !IsWhitespace(t[|h|]) && !IsTokenChar(t[|h|]);
  }

  /** A frame that starts at the limit or past it is cut away with its line. */
  lemma FarFrameCut(g: Text, k: nat, max: nat)
    requires OpensWithFrame(g, k) && k + 3 > max
    ensures !TokenOpens(Message(g, max))
  {
    var h := FarFrameHead(g, k, max);
    WhiteScrubbed(h);
    WhiteOpensNone(h);
  }

  lemma FramesOpenIff(g: Text, k: nat)
    requires OpensWithFrame(g, k)
    ensures TokenOpens(Message(g, SCRUB_MESSAGE_MAX)) <==> k + 3 <= SCRUB_MESSAGE_MAX
  {
    if k + 3 <= SCRUB_MESSAGE_MAX {
      MessageKeepsFrame(g, k, SCRUB_MESSAGE_MAX);
      assert TokenOpensAt(Message(g, SCRUB_MESSAGE_MAX), k);
    } else {
      FarFrameCut(g, k, SCRUB_MESSAGE_MAX);
    }
  }

  // ----- the first frame of a stack

  lemma {:induction false} IndentIs(t: Text)
    ensures forall i | 0 <= i < Indent(t) :: IsWhitespace(t[i])
    ensures Indent(t) < |t| ==> !IsWhitespace(t[Indent(t)])
  {
    if t != [] && IsWhitespace(t[0]) {
      IndentIs(t[1..]);
      var n := Indent(t[1..]);
      forall i | 0 <= i < n + 1 ensures IsWhitespace(t[i]) { assert i > 0 ==> t[i] == t[1..][i - 1]; }
      assert n + 1 < |t| ==> t[n + 1] == t[1..][n];
    }
  }

  lemma {:induction false} FirstFrameIs(lines: seq<Text>)
    ensures FirstFrame(lines) < |lines| ==> IsFrame(lines[FirstFrame(lines)])
  {
    if lines != [] && !IsFrame(lines[0]) { FirstFrameIs(lines[1..]); }
  }

  lemma UnlinesOpens(lines: seq<Text>)
    requires lines != [] && IsFrame(lines[0])
    ensures OpensWithFrame(Unlines(lines), Indent(lines[0]))
  {
    var t, line := Unlines(lines), lines[0];
    var k := Indent(line);
    IndentIs(line);
    assert line <= t;
    var word := line[k..k + 3];
    assert word[0] == line[k] && word[1] == line[k + 1] && word[2] == line[k + 2];
    forall i | 0 <= i < k + 3 ensures t[i] == line[i] {}
  }

  /** How far the first frame of a stack is indented; the limit, where there is none. */
  function FrameIndent(stack: Text): nat {
    var lines := ScannedLines(stack);
    var first := FirstFrame(lines);
    if first == |lines| then SCRUB_MESSAGE_MAX else Indent(lines[first])
  }

  lemma FramesRead(stack: Text)
    ensures RawFrames(stack).Some? ==> OpensWithFrame(RawFrames(stack).value, FrameIndent(stack))
    ensures RawFrames(stack).None? ==> FrameIndent(stack) == SCRUB_MESSAGE_MAX
  {
    var lines := ScannedLines(stack);
    var first := FirstFrame(lines);
    FirstFrameIs(lines);
    if RawFrames(stack).Some? {
      var end := if |lines| - first > MAX_STACK_FRAMES then first + MAX_STACK_FRAMES else |lines|;
      assert lines[first..end][0] == lines[first];
      UnlinesOpens(lines[first..end]);
    }
  }

  /**
   * A stack is written with something left to scrub exactly when a scheme that is not scrubbed away hangs at
   * the end of its message part, that part is not cut, and its first frame stands within the limit.
   */
  lemma StackScrubbedIff(scrub: Text -> Text, stack: Text)
    requires ScrubsErrors(scrub)
    ensures Scrubbed(ScrubStack(scrub, stack))
            <==> !(HeadHangs(RawHead(stack)) && FrameIndent(stack) + 3 <= SCRUB_MESSAGE_MAX)
  {
    ScrubbingTames(scrub);
    HalvesScrubbedIff(scrub, stack);
    MessageHangsIff(RawHead(stack));
    FramesRead(stack);
    if RawFrames(stack).Some? { FramesOpenIff(RawFrames(stack).value, FrameIndent(stack)); }
  }
}
