/** `scrubMessage`: a message bounded, scrubbed, and bounded again. */
module LogMessages {
  import opened Texts
  import opened Ranges
  import opened LogScrub
  import opened LogScrubProofs

  /** Where the last word boundary by `end` is: after whitespace, or at the start. */
  ghost function LastSpace(text: Text, end: nat): (e: nat)
    requires end <= |text|
    ensures e <= end
  {
    if end == 0 || IsWhitespace(text[end - 1]) then end else LastSpace(text, end - 1)
  }

  lemma {:induction false} LastSpaceIs(t: Text, max: nat, e: nat)
    requires e <= max <= |t| && (e > 0 ==> IsWhitespace(t[e - 1])) && forall i | e <= i < max :: !IsWhitespace(t[i])
    ensures LastSpace(t, max) == e
  {
    if max > e { LastSpaceIs(t, max - 1, e); }
  }

  /** The text, or what comes before the word that the limit runs through. */
  ghost function HeadOf(text: Text, max: nat): Text {
    if |text| <= max then text else text[..LastSpace(text, max)]
  }

  lemma {:induction false} LastSpaceEnds(text: Text, end: nat)
    requires end <= |text|
    ensures EndsInSpace(text[..LastSpace(text, end)])
  {
    if end > 0 && !IsWhitespace(text[end - 1]) { LastSpaceEnds(text, end - 1); }
  }

  lemma HeadIsPrefix(text: Text, max: nat)
    ensures HeadOf(text, max) <= text && |HeadOf(text, max)| <= max
    ensures |text| > max ==> EndsInSpace(HeadOf(text, max))
  {
    if |text| > max { LastSpaceEnds(text, max); }
  }

  /** Of an over-long text, no longer prefix within the limit ends after whitespace. */
  lemma {:induction false} HeadIsLongest(text: Text, max: nat, h: Text)
    requires |text| > max && h <= text && |h| <= max && EndsInSpace(h)
    ensures h <= HeadOf(text, max)
  {
    if h != [] { assert text[|h| - 1] == h[|h| - 1]; }
    LastSpacePast(text, max, |h|);
  }

  lemma {:induction false} LastSpacePast(text: Text, end: nat, e: nat)
    requires e <= end <= |text| && (e > 0 ==> IsWhitespace(text[e - 1]))
    ensures LastSpace(text, end) >= e
  {
    if end > e && !IsWhitespace(text[end - 1]) { LastSpacePast(text, end - 1, e); }
  }

  /** `head`. */
  method Head(text: Text, max: nat) returns (h: Text)
    ensures h == HeadOf(text, max)
  {
    if |text| <= max {
      return text;
    }
    var end := max;
    while end > 0 && !IsWhitespace(text[end - 1])
      invariant 0 <= end <= max && LastSpace(text, max) == LastSpace(text, end)
    {
      end := end - 1;
    }
    h := text[..end];
  }

  /** What a message becomes: cut, scrubbed, and cut again. */
  ghost function Message(message: Text, max: nat): Text {
    var scrubbed := Scrub(HeadOf(message, max));
    if |message| > max || |scrubbed| > max then HeadOf(scrubbed, max) + TRUNCATED_MESSAGE else scrubbed
  }

  // ----- what is written is scrubbed

  lemma ScrubEndsInSpace(text: Text)
    requires EndsInSpace(text)
    ensures EndsInSpace(Scrub(text))
  {
    ConnsEndInSpace(text);
    AuthsEndInSpace(ScrubConns(text));
  }

  lemma NoConnInMarker()
    ensures NoConn(TRUNCATED_MESSAGE)
  {
  }

  lemma NoConnPast(t: Text, k: nat, rest: Text, n: Conn)
    requires Follows(t, k, rest) && NoConn(rest) && IsConn(t, n)
    ensures n.sep <= k
  {
    if k < n.sep { ConnInRest(t, k, rest, n); }
  }

  lemma SettledBeforeMarker(t: Text, text: Text, h: Text)
    requires Settled(text) && h <= text && EndsInSpace(h) && JoinOf(t, h, TRUNCATED_MESSAGE)
    ensures Settled(t)
  {
    NoConnInMarker();
    forall n | IsConn(t, n) ensures t[n.colon + 1..n.at] == REDACTED_TEXT {
      ConnOnOneSide(t, h, TRUNCATED_MESSAGE, n);
      NoConnPast(t, |h|, TRUNCATED_MESSAGE, n);
      PasswordShared(t, text, |h|, n);
    }
  }

  /** Neither does the marker start a scheme, nor a token. */
  lemma NoAuthAcrossMarker(t: Text, h: Text, n: Auth)
    requires EndsInSpace(h) && JoinOf(t, h, TRUNCATED_MESSAGE) && IsAuth(t, n)
    ensures n.token < |h|
  {
    SchemeStart(t, n.at);
    assert t[|h|] == TRUNCATED_MESSAGE[0] == 0x2026;
    if n.at < |h| { SchemeEndsBefore(t, n, |h| - 1); }
  }

  lemma NoAuthBeforeMarker(t: Text, text: Text, h: Text)
    requires NoAuth(text) && h <= text && EndsInSpace(h) && JoinOf(t, h, TRUNCATED_MESSAGE)
    ensures NoAuth(t)
  {
    forall n ensures !IsAuth(t, n) {
      if IsAuth(t, n) {
        NoAuthAcrossMarker(t, h, n);
        AuthShared(t, text, |h|, n);
      }
    }
  }

  lemma ScrubbedBeforeMarker(text: Text, h: Text)
    requires Scrubbed(text) && h <= text && EndsInSpace(h)
    ensures Scrubbed(h + TRUNCATED_MESSAGE)
  {
    SettledBeforeMarker(h + TRUNCATED_MESSAGE, text, h);
    NoAuthBeforeMarker(h + TRUNCATED_MESSAGE, text, h);
  }

  /**
   * Whatever the message and the limit: no token is written, no password but the replacement, and
   * no more than the limit and the marker.
   */
  lemma MessageScrubbed(message: Text, max: nat)
    ensures Scrubbed(Message(message, max)) && |Message(message, max)| <= max + |TRUNCATED_MESSAGE|
  {
    var kept := HeadOf(message, max);
    HeadIsPrefix(message, max);
    HeadIsPrefix(Scrub(kept), max);
    ScrubScrubs(kept);
    if |message| > max { ScrubEndsInSpace(kept); }
    if |message| > max || |Scrub(kept)| > max { ScrubbedBeforeMarker(Scrub(kept), HeadOf(Scrub(kept), max)); }
  }

  /**
   * A message that is short enough, before and after scrubbing, is all of what scrubbing leaves; any
   * other is the longest part of that which fits and ends after whitespace, and the marker.
   */
  lemma MessageIs(message: Text, max: nat)
    ensures |message| <= max && |Scrub(message)| <= max ==> Message(message, max) == Scrub(message)
    ensures |message| > max || |Scrub(message)| > max ==>
              exists kept, end :: Became(message, max, kept, end) && Message(message, max) == end + TRUNCATED_MESSAGE
  {
    var kept := HeadOf(message, max);
    IsHeadOf(message, max);
    IsHeadOf(Scrub(kept), max);
    assert |message| <= max ==> kept == message;
    assert Became(message, max, kept, HeadOf(Scrub(kept), max));
  }

  ghost predicate Became(message: Text, max: nat, kept: Text, end: Text) {
    IsHead(message, max, kept) && IsHead(Scrub(kept), max, end)
  }

  /** The text, or the longest part of it within the limit that ends after whitespace. */
  ghost predicate IsHead(text: Text, max: nat, h: Text) {
    if |text| <= max then h == text
    else
      && h <= text && |h| <= max && EndsInSpace(h)
      && forall g | g <= text && |g| <= max && EndsInSpace(g) :: |g| <= |h|
  }

  lemma IsHeadOf(text: Text, max: nat)
    ensures IsHead(text, max, HeadOf(text, max))
  {
    HeadIsPrefix(text, max);
    if |text| > max {
      forall g | g <= text && |g| <= max && EndsInSpace(g) ensures |g| <= |HeadOf(text, max)| {
        HeadIsLongest(text, max, g);
      }
    }
  }

  lemma ScrubbedPrefix(text: Text, h: Text)
    requires Scrubbed(text) && h <= text
    ensures Scrubbed(h)
  {
    forall n | IsConn(h, n) ensures h[n.colon + 1..n.at] == REDACTED_TEXT { PasswordShared(h, text, |h|, n); }
    forall n ensures !IsAuth(h, n) {
      if IsAuth(h, n) { AuthShared(h, text, |h|, n); }
    }
  }

  lemma MarkerSolid(i: nat)
    requires i < |TRUNCATED_MESSAGE|
    ensures !IsWhitespace(TRUNCATED_MESSAGE[i])
  {
  }

  /** The marker is one word, so a limit that runs through it leaves what came before it. */
  lemma HeadBeforeMarker(end: Text, max: nat)
    requires EndsInSpace(end) && |end| <= max < |end + TRUNCATED_MESSAGE|
    ensures HeadOf(end + TRUNCATED_MESSAGE, max) == end
  {
    var mark := TRUNCATED_MESSAGE;
    var t := end + mark;
    forall i | |end| <= i < max ensures !IsWhitespace(t[i]) {
      MarkerSolid(i - |end|);
    }
    LastSpaceIs(t, max, |end|);
  }

  /** Scrubbing a message again changes nothing, the marker included. */
  lemma MessageIdempotent(message: Text, max: nat)
    ensures Message(Message(message, max), max) == Message(message, max)
  {
    var kept, again := HeadOf(message, max), Message(message, max);
    var scrubbed := Scrub(kept);
    MessageScrubbed(message, max);
    ScrubFixesIff(again);
    if |again| > max {
      var end := HeadOf(scrubbed, max);
      HeadIsPrefix(message, max);
      HeadIsPrefix(scrubbed, max);
      ScrubScrubs(kept);
      if |message| > max { ScrubEndsInSpace(kept); }
      HeadBeforeMarker(end, max);
      ScrubbedPrefix(scrubbed, end);
      ScrubFixesIff(end);
    }
  }

  /** Cutting a message first lets through no character that scrubbing all of it would have removed. */
  lemma CutMessageHidesNothing(message: Text, max: nat, i: nat)
    requires i < |HeadOf(message, max)| && i < |message| && !IsWhitespace(message[i])
             && Survives(HeadOf(message, max), i)
    ensures Survives(message, i)
  {
    var kept := HeadOf(message, max);
    HeadIsPrefix(message, max);
    if |message| > max {
      CutHidesNothing(kept, message[|kept|..], i);
      assert kept + message[|kept|..] == message;
    }
  }

  /** `scrubMessage`. */
  method ScrubMessage(message: Text, max: nat) returns (r: Text)
    ensures r == Message(message, max)
  {
    var cut := |message| > max;
    var kept := Head(message, max);
    var passwords := ScrubConnectionStrings(kept);
    var scrubbed := ScrubAuthSchemes(passwords);
    if cut || |scrubbed| > max {
      var end := Head(scrubbed, max);
      return end + TRUNCATED_MESSAGE;
    }
    r := scrubbed;
  }
}
