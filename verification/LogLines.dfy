/**
 * One serialised log line: every JSON string literal in it is decoded, scrubbed and, where that
 * changed it, written anew; nothing else in the line changes. `scrub` stands for `scrubMessage`
 * with the limit for one string.
 */
module LogLines {
  import opened Texts
  import opened Utf8Encoding
  import opened JsonStrings
  import opened LogLiterals
  import opened LogScrubProofs
  import opened LogMessages

  const MAX_LOG_LINE_LENGTH := 64 * 1024
  const MAX_LOG_STRING_LENGTH := 16 * 1024

  /** `JSON.parse` of a body between its quotes; nothing, when an escape in it is bad. */
  function Parsed(body: Text): Option<Text> {
    var read := ReadString(body + [QUOTE]);
    if read.Got? && read.rest == [] then Some(read.value) else None
  }

  /** The string a literal's body states: itself, where no backslash is in it. */
  ghost function Decoded(body: Text): Option<Text> {
    if BACKSLASH in body then Parsed(body) else Some(body)
  }

  /** What becomes of one literal's body. */
  function Rewrite(scrub: Text -> Text, body: Text, escaped: bool): Rewriting {
    var text := if escaped then Parsed(body) else Some(body);
    if text.None? then Bad
    else
      var scrubbed := scrub(text.value);
      if scrubbed == text.value then Kept else Anew(Escape(scrubbed))
  }

  /** Every literal is closed, and every body states a string. */
  ghost predicate Scans(line: Line) {
    match line
    case End(_) => true
    case Broken(_) => false
    case Literal(_, body, more) => Decoded(body).Some? && Scans(more)
  }

  // ----- what becomes of them

  /** A body whose string scrubbing changes is written anew. */
  ghost function ScrubbedBody(scrub: Text -> Text, body: Text): Text
    requires Decoded(body).Some?
  {
    var text := Decoded(body).value;
    var scrubbed := scrub(text);
    if scrubbed == text then body else Escape(scrubbed)
  }

  ghost function ScrubbedParts(scrub: Text -> Text, line: Line): Line
    requires Scans(line)
  {
    match line
    case End(text) => line
    case Literal(gap, body, more) => Literal(gap, ScrubbedBody(scrub, body), ScrubbedParts(scrub, more))
  }

  /** The same text between the literals, and each literal states the scrubbed string of its counterpart. */
  ghost predicate Rewritten(scrub: Text -> Text, before: Line, after: Line) {
    match (before, after)
    case (End(t), End(u)) => t == u
    case (Literal(gap, body, more), Literal(gap', body', more')) =>
      && gap == gap'
      && Decoded(body).Some? && Decoded(body') == Some(scrub(Decoded(body).value))
      && Rewritten(scrub, more, more')
    case _ => false
  }

  /** No string in it has anything left to scrub, or is longer than the limit and the marker. */
  ghost predicate AllScrubbed(line: Line) {
    match line
    case End(_) => true
    case Broken(_) => false
    case Literal(_, body, more) =>
      && Decoded(body).Some? && Scrubbed(Decoded(body).value)
      && |Decoded(body).value| <= MAX_LOG_STRING_LENGTH + 12 && AllScrubbed(more)
  }

  // ----- literals written anew

  lemma {:induction false} PlainEscape(s: Text)
    requires BACKSLASH !in Escape(s)
    ensures Escape(s) == s
  {
    if s != [] {
      if PairAtStart(s) {
        assert forall c | c in Escape(s[2..]) :: c in Escape(s);
        PlainEscape(s[2..]);
        assert s == [s[0], s[1]] + s[2..];
      } else {
        assert EscapeUnit(s[0])[0] in Escape(s);
        assert forall c | c in Escape(s[1..]) :: c in Escape(s);
        PlainEscape(s[1..]);
        assert s == [s[0]] + s[1..];
      }
    }
  }

  lemma EscapeDecodes(s: Text)
    ensures Decoded(Escape(s)) == Some(s)
  {
    if BACKSLASH in Escape(s) {
      StringRoundTrip(s, []);
      assert Escape(s) + [QUOTE] + [] == Escape(s) + [QUOTE];
    } else {
      PlainEscape(s);
    }
  }

  /** A run of characters, none a quote or a backslash, is passed over. */
  lemma {:induction false} PassPlain(a: Text, t: Text)
    requires forall i | 0 <= i < |a| :: a[i] != QUOTE && a[i] != BACKSLASH
    ensures BodyLength(a + t) == More(BodyLength(t), |a|)
  {
    if a == [] {
      assert a + t == t;
    } else {
      PassPlain(a[1..], t);
      assert (a + t)[1..] == a[1..] + t;
    }
  }

  lemma PassEscape(c: CodeUnit, a: Text, t: Text)
    requires forall i | 0 <= i < |a| :: a[i] != QUOTE && a[i] != BACKSLASH
    ensures BodyLength([BACKSLASH, c] + a + t) == More(BodyLength(t), 2 + |a|)
  {
    var whole := [BACKSLASH, c] + a + t;
    assert whole[2..] == a + t;
    PassPlain(a, t);
  }

  lemma PassUnit(c: CodeUnit, t: Text)
    ensures BodyLength(EscapeUnit(c) + t) == More(BodyLength(t), |EscapeUnit(c)|)
  {
    match ShortEscape(c)
    case Some(letter) =>
      PassEscape(letter, [], t);
      assert [BACKSLASH, letter] + [] + t == EscapeUnit(c) + t;
    case None =>
      if c < 0x20 || IsSurrogate(c) {
        PassEscape(LETTER_U, Hex4(c), t);
      } else {
        PassPlain([c], t);
      }
  }

  lemma {:induction false} EscapeCloses(s: Text, rest: Text)
    ensures BodyLength(Escape(s) + ([QUOTE] + rest)) == Some(|Escape(s)|)
  {
    var t := [QUOTE] + rest;
    if s == [] {
      assert Escape(s) + t == t;
    } else if PairAtStart(s) {
      EscapeCloses(s[2..], rest);
      PassPlain([s[0], s[1]], Escape(s[2..]) + t);
      Group([s[0], s[1]], Escape(s[2..]), t);
    } else {
      EscapeCloses(s[1..], rest);
      PassUnit(s[0], Escape(s[1..]) + t);
      Group(EscapeUnit(s[0]), Escape(s[1..]), t);
    }
  }

  // ----- the line rewritten

  lemma ScrubbedBodyDecodes(scrub: Text -> Text, body: Text)
    requires Decoded(body).Some? && BodyLength(body + [QUOTE]) == Some(|body|)
    ensures Decoded(ScrubbedBody(scrub, body)) == Some(scrub(Decoded(body).value))
    ensures BodyLength(ScrubbedBody(scrub, body) + [QUOTE]) == Some(|ScrubbedBody(scrub, body)|)
  {
    WrittenBody(scrub(Decoded(body).value));
  }

  lemma WrittenBody(s: Text)
    ensures Decoded(Escape(s)) == Some(s) && BodyLength(Escape(s) + [QUOTE]) == Some(|Escape(s)|)
  {
    EscapeDecodes(s);
    EscapeCloses(s, []);
    assert [QUOTE] + [] == [QUOTE];
  }

  lemma {:induction false} ScrubbedPartsRewritten(scrub: Text -> Text, line: Line)
    requires Wellformed(line) && Scans(line)
    ensures Rewritten(scrub, line, ScrubbedParts(scrub, line)) && Wellformed(ScrubbedParts(scrub, line))
  {
    match line
    case End(text) =>
    case Literal(gap, body, more) =>
      ScrubbedBodyDecodes(scrub, body);
      ScrubbedPartsRewritten(scrub, more);
  }

  /** The line that is written, read again: the same but for its strings, each one scrubbed. */
  lemma LineRewritten(scrub: Text -> Text, t: Text)
    requires Scans(Parts(t))
    ensures Rewritten(scrub, Parts(t), Parts(Rendered(ScrubbedParts(scrub, Parts(t)))))
  {
    RenderedParts(t);
    ScrubbedPartsRewritten(scrub, Parts(t));
    PartsOfRendered(ScrubbedParts(scrub, Parts(t)));
  }

  /** The function each string is passed through. */
  ghost predicate ScrubsMessages(scrub: Text -> Text) {
    forall t :: scrub(t) == Message(t, MAX_LOG_STRING_LENGTH)
  }

  /** No string of a rewritten line has anything left to scrub. */
  lemma {:induction false} RewrittenScrubbed(scrub: Text -> Text, before: Line, after: Line)
    requires ScrubsMessages(scrub) && Rewritten(scrub, before, after)
    ensures AllScrubbed(after)
  {
    match (before, after)
    case (End(t), End(u)) =>
    case (Literal(_, body, more), Literal(_, body', more')) =>
      MessageScrubbed(Decoded(body).value, MAX_LOG_STRING_LENGTH);
      RewrittenScrubbed(scrub, more, more');
  }

  lemma {:induction false} OutcomeIs(scrub: Text -> Text, rewrite: (Text, bool) -> Rewriting, line: Line)
    requires forall body, escaped :: rewrite(body, escaped) == Rewrite(scrub, body, escaped)
    ensures Outcome(rewrite, line) == if Scans(line) then Some(Rendered(ScrubbedParts(scrub, line))) else None
  {
    match line
    case End(text) =>
    case Broken(_) =>
    case Literal(gap, body, more) => OutcomeIs(scrub, rewrite, more);
  }

  datatype LineResult = Written(line: Text) | Oversize(length: nat) | Malformed

  /**
   * `scrubLine`, for whatever each string is passed through. What is written is within the limit, differs
   * from the line in its strings alone, and each of them is the scrubbed string of the one it stands for.
   */
  method ScrubLine(scrub: Text -> Text, line: Text, originalLength: nat) returns (r: LineResult)
    ensures r == Malformed
            <==> |line| <= MAX_LOG_LINE_LENGTH && originalLength <= MAX_LOG_LINE_LENGTH && !Scans(Parts(line))
    ensures r.Oversize? ==> r.length > MAX_LOG_LINE_LENGTH
    ensures r.Oversize? <==> (|| |line| > MAX_LOG_LINE_LENGTH || originalLength > MAX_LOG_LINE_LENGTH
                              || (Scans(Parts(line))
                                  && |Rendered(ScrubbedParts(scrub, Parts(line)))| > MAX_LOG_LINE_LENGTH))
    ensures r.Written? ==> |r.line| <= MAX_LOG_LINE_LENGTH && r.line == Rendered(ScrubbedParts(scrub, Parts(line)))
    ensures r.Written? ==> Rewritten(scrub, Parts(line), Parts(r.line))
  {
    var length := if |line| >= originalLength then |line| else originalLength;
    if length > MAX_LOG_LINE_LENGTH {
      return Oversize(length);
    }
    var rewrite := (body, escaped) => Rewrite(scrub, body, escaped);
    var written := RewriteLiterals(rewrite, line);
    OutcomeIs(scrub, rewrite, Parts(line));
    if written.None? {
      return Malformed;
    }
    if |written.value| > MAX_LOG_LINE_LENGTH {
      return Oversize(|written.value|);
    }
    LineRewritten(scrub, line);
    r := Written(written.value);
  }
}
