/**
 * The JSON string literals of one line of text, and the one-pass scan that rewrites them.
 * `rewrite` says what becomes of a literal's body: bad, left as it is, or written anew.
 */
module LogLiterals {
  import opened Texts
  import opened JsonStrings

  // ----- the literals of a line

  function More(n: Option<nat>, k: nat): Option<nat> {
    if n.Some? then Some(n.value + k) else None
  }

  /** How long a literal's body is: up to the first quote that no backslash escapes. */
  ghost function BodyLength(t: Text): (n: Option<nat>)
    ensures n.Some? ==> n.value < |t|
    decreases |t|
  {
    if t == [] then None
    else if t[0] == QUOTE then Some(0)
    else if t[0] != BACKSLASH then More(BodyLength(t[1..]), 1)
    else if |t| < 2 then None
    else More(BodyLength(t[2..]), 2)
  }

  /** A line, literal by literal; broken where a literal is not closed. */
  datatype Line = End(text: Text) | Broken(text: Text) | Literal(gap: Text, body: Text, more: Line)

  ghost function FirstQuote(t: Text): (n: nat)
    ensures n <= |t|
  {
    if t == [] || t[0] == QUOTE then 0 else 1 + FirstQuote(t[1..])
  }

  ghost predicate IsFirstQuote(t: Text, n: nat) {
    n <= |t| && (n < |t| ==> t[n] == QUOTE) && forall i | 0 <= i < n :: t[i] != QUOTE
  }

  lemma {:induction false} FirstQuoteFound(t: Text)
    ensures IsFirstQuote(t, FirstQuote(t))
  {
    if t != [] && t[0] != QUOTE {
      FirstQuoteFound(t[1..]);
      var n := FirstQuote(t[1..]);
      forall i | 0 <= i < n + 1 ensures t[i] != QUOTE { assert i > 0 ==> t[i] == t[1..][i - 1]; }
      assert n < |t[1..]| ==> t[1..][n] == t[n + 1];
    }
  }

  lemma {:induction false} BodyCloses(t: Text)
    requires BodyLength(t).Some?
    ensures t[BodyLength(t).value] == QUOTE
    decreases |t|
  {
    if t[0] != QUOTE {
      var k := if t[0] == BACKSLASH then 2 else 1;
      BodyCloses(t[k..]);
      assert t[k..][BodyLength(t[k..]).value] == t[BodyLength(t[k..]).value + k];
    }
  }

  ghost function Parts(t: Text): Line
    decreases |t|
  {
    var open := FirstQuote(t);
    if open == |t| then End(t)
    else
      var length := BodyLength(t[open + 1..]);
      if length.None? then Broken(t)
      else
        var close := open + 1 + length.value;
        Literal(t[..open], t[open + 1..close], Parts(t[close + 1..]))
  }

  ghost function Rendered(line: Line): Text {
    match line
    case End(text) => text
    case Broken(text) => text
    case Literal(gap, body, more) => gap + [QUOTE] + body + [QUOTE] + Rendered(more)
  }

  // ----- a line and its literals

  /** What a line's parts look like: no quote between literals, and each body ends at its own closing quote. */
  ghost predicate Wellformed(line: Line) {
    match line
    case End(text) => QUOTE !in text
    case Broken(text) => FirstQuote(text) < |text| && BodyLength(text[FirstQuote(text) + 1..]).None?
    case Literal(gap, body, more) =>
      QUOTE !in gap && BodyLength(body + [QUOTE]) == Some(|body|) && Wellformed(more)
  }

  /** A body ends where it does whatever follows its closing quote. */
  lemma {:induction false} BodyLengthShared(t: Text, u: Text, n: nat)
    requires BodyLength(t) == Some(n) && n < |u| && t[..n + 1] == u[..n + 1]
    ensures BodyLength(u) == Some(n)
    decreases |t|
  {
    assert t[..n + 1][0] == t[0] && u[..n + 1][0] == u[0];
    if t[0] != QUOTE {
      var k := if t[0] == BACKSLASH then 2 else 1;
      assert t[k..][..n - k + 1] == t[..n + 1][k..] && u[k..][..n - k + 1] == u[..n + 1][k..];
      BodyLengthShared(t[k..], u[k..], n - k);
    }
  }

  lemma FirstQuoteIs(t: Text, n: nat)
    requires IsFirstQuote(t, n)
    ensures FirstQuote(t) == n
  {
    FirstQuoteFound(t);
  }

  lemma BodyBefore(body: Text, rest: Text)
    requires BodyLength(body + [QUOTE]) == Some(|body|)
    ensures BodyLength(body + [QUOTE] + rest) == Some(|body|)
  {
    assert (body + [QUOTE] + rest)[..|body| + 1] == (body + [QUOTE])[..|body| + 1];
    BodyLengthShared(body + [QUOTE], body + [QUOTE] + rest, |body|);
  }

  lemma LiteralSlices(gap: Text, body: Text, rest: Text)
    ensures var t := gap + [QUOTE] + body + [QUOTE] + rest;
            && t[..|gap|] == gap && t[|gap|] == QUOTE && t[|gap| + 1..] == body + [QUOTE] + rest
            && t[|gap| + 1..|gap| + 1 + |body|] == body && t[|gap| + |body| + 2..] == rest
  {
  }

  lemma PartsOfLiteral(gap: Text, body: Text, rest: Text)
    requires QUOTE !in gap && BodyLength(body + [QUOTE]) == Some(|body|)
    ensures Parts(gap + [QUOTE] + body + [QUOTE] + rest) == Literal(gap, body, Parts(rest))
  {
    var t := gap + [QUOTE] + body + [QUOTE] + rest;
    LiteralSlices(gap, body, rest);
    assert forall i | 0 <= i < |gap| :: t[i] == gap[i];
    FirstQuoteIs(t, |gap|);
    BodyBefore(body, rest);
  }

  lemma {:induction false} PartsOfRendered(line: Line)
    requires Wellformed(line)
    ensures Parts(Rendered(line)) == line
  {
    match line
    case End(text) => FirstQuoteIs(text, |text|);
    case Broken(text) =>
    case Literal(gap, body, more) =>
      PartsOfRendered(more);
      PartsOfLiteral(gap, body, Rendered(more));
  }

  lemma LiteralWhole(t: Text, open: nat, close: nat)
    requires open < close < |t| && t[open] == QUOTE && t[close] == QUOTE
    ensures t[..open] + [QUOTE] + t[open + 1..close] + [QUOTE] + t[close + 1..] == t
  {
  }

  lemma BodyAlone(t: Text, n: nat)
    requires BodyLength(t) == Some(n)
    ensures BodyLength(t[..n] + [QUOTE]) == Some(n)
  {
    BodyCloses(t);
    assert t[..n + 1] == t[..n] + [QUOTE];
    assert (t[..n] + [QUOTE])[..n + 1] == t[..n] + [QUOTE];
    BodyLengthShared(t, t[..n] + [QUOTE], n);
  }

  /** The first literal of a line, and what follows it. */
  lemma FirstLiteral(t: Text, open: nat, n: nat, body: Text, rest: Text)
    requires FirstQuote(t) == open < |t| && BodyLength(t[open + 1..]) == Some(n)
    requires body == t[open + 1..][..n] && rest == t[open + 2 + n..]
    ensures Parts(t) == Literal(t[..open], body, Parts(rest))
    ensures QUOTE !in t[..open] && BodyLength(body + [QUOTE]) == Some(|body|)
    ensures t[..open] + [QUOTE] + body + [QUOTE] + rest == t
  {
    FirstQuoteFound(t);
    BodyCloses(t[open + 1..]);
    BodyAlone(t[open + 1..], n);
    LiteralSplit(t, open, n, body, rest);
    PartsOfLiteral(t[..open], body, rest);
  }

  lemma LiteralSplit(t: Text, open: nat, n: nat, body: Text, rest: Text)
    requires open + 1 + n < |t| && t[open] == QUOTE && t[open + 1..][n] == QUOTE
    requires body == t[open + 1..][..n] && rest == t[open + 2 + n..]
    ensures t[..open] + [QUOTE] + body + [QUOTE] + rest == t
  {
    LiteralWhole(t, open, open + 1 + n);
    assert body == t[open + 1..open + 1 + n];
  }

  /** Any text is what its parts say. */
  lemma {:induction false} RenderedParts(t: Text)
    ensures Rendered(Parts(t)) == t && Wellformed(Parts(t))
    decreases |t|
  {
    var open := FirstQuote(t);
    FirstQuoteFound(t);
    if open < |t| && BodyLength(t[open + 1..]).Some? {
      var n := BodyLength(t[open + 1..]).value;
      var rest := t[open + 2 + n..];
      FirstLiteral(t, open, n, t[open + 1..][..n], rest);
      RenderedParts(rest);
    }
  }

  // ----- rewriting them

  datatype Rewriting = Bad | Kept | Anew(body: Text)

  ghost predicate Escaped(body: Text) {
    BACKSLASH in body
  }

  /** The body a literal has then. */
  ghost function Fresh(r: Rewriting, was: Text): Text {
    if r.Anew? then r.body else was
  }

  /** The line that is written, or nothing when a literal is not closed or its body is bad. */
  ghost function Outcome(rewrite: (Text, bool) -> Rewriting, line: Line): Option<Text> {
    match line
    case End(text) => Some(text)
    case Broken(_) => None
    case Literal(gap, body, more) =>
      var r := rewrite(body, Escaped(body));
      if r.Bad? then None else Glue(gap + [QUOTE] + Fresh(r, body) + [QUOTE], Outcome(rewrite, more))
  }

  ghost function Glue(a: Text, o: Option<Text>): Option<Text> {
    if o.Some? then Some(a + o.value) else None
  }

  /** From just after an opening quote: where its closing quote is, or -1, and whether a backslash was seen. */
  method ScanBody(line: Text, from: nat) returns (close: int, escaped: bool)
    requires from <= |line|
    ensures close == -1 <==> BodyLength(line[from..]).None?
    ensures close != -1 ==>
              from <= close < |line| && line[close] == QUOTE && BodyLength(line[from..]) == Some(close - from)
    ensures close != -1 ==> (escaped <==> Escaped(line[from..close]))
  {
    close := from;
    escaped := false;
    while true
      invariant BodyScanned(line, from, close, escaped)
      decreases |line| + 2 - close
    {
      if close >= |line| {
        return -1, escaped;
      }
      if line[close] == QUOTE {
        return;
      }
      if line[close] == BACKSLASH {
        EscapeScanned(line, from, close, escaped);
        escaped := true;
        close := close + 1;
      } else {
        CharacterScanned(line, from, close, escaped);
      }
      close := close + 1;
    }
  }

  ghost predicate BodyScanned(line: Text, from: nat, close: int, escaped: bool) {
    && from <= close <= |line| + 1 && from <= |line|
    && (if close > |line| then BodyLength(line[from..]).None?
        else && BodyLength(line[from..]) == More(BodyLength(line[close..]), close - from)
             && (escaped <==> Escaped(line[from..close])))
  }

  lemma BodyLengthStep(line: Text, close: nat)
    requires close < |line| && line[close] != QUOTE
    ensures line[close] != BACKSLASH ==> BodyLength(line[close..]) == More(BodyLength(line[close + 1..]), 1)
    ensures line[close] == BACKSLASH && close + 1 < |line| ==>
            BodyLength(line[close..]) == More(BodyLength(line[close + 2..]), 2)
    ensures line[close] == BACKSLASH && close + 1 == |line| ==> BodyLength(line[close..]).None?
  {
    var rest := line[close..];
    assert rest[0] == line[close] && rest[1..] == line[close + 1..];
    if close + 1 < |line| { assert rest[2..] == line[close + 2..]; }
  }

  lemma CharacterScanned(line: Text, from: nat, close: nat, escaped: bool)
    requires BodyScanned(line, from, close, escaped) && close < |line| && line[close] != QUOTE
             && line[close] != BACKSLASH
    ensures BodyScanned(line, from, close + 1, escaped)
  {
    BodyLengthStep(line, close);
    assert line[from..close + 1] == line[from..close] + [line[close]];
  }

  lemma EscapeScanned(line: Text, from: nat, close: nat, escaped: bool)
    requires BodyScanned(line, from, close, escaped) && close < |line| && line[close] == BACKSLASH
    ensures BodyScanned(line, from, close + 2, true)
  {
    BodyLengthStep(line, close);
    if close + 1 < |line| { assert line[from..close + 2][close - from] == BACKSLASH; }
  }

  // ----- the scan

  /** What is left of a line from `at` on. */
  ghost predicate Left(line: Text, at: int, rest: Line) {
    0 <= at <= |line| && line[at..] == Rendered(rest) && Wellformed(rest)
  }

  /** The literal from `open` to `close` comes first in what is left. */
  ghost predicate NextLiteral(line: Text, at: nat, rest: Line, open: nat, close: nat) {
    && at <= open < close < |line| && line[open] == QUOTE && line[close] == QUOTE
    && rest.Literal? && rest.gap == line[at..open] && rest.body == line[open + 1..close]
  }

  lemma SlicesAfter(line: Text, at: nat, open: nat, close: nat)
    requires at <= open < close < |line|
    ensures var t := line[at..];
            && t[open - at + 1..] == line[open + 1..] && t[open - at + 1..][..close - open - 1] == line[open + 1..close]
            && t[close - at + 1..] == line[close + 1..] && t[..open - at] == line[at..open]
  {
  }

  lemma ClosedLiteral(line: Text, at: nat, open: nat, close: nat)
    requires at <= open < close < |line| && line[open] == QUOTE && line[close] == QUOTE
    requires forall i | at <= i < open :: line[i] != QUOTE
    requires BodyLength(line[open + 1..]) == Some(close - open - 1)
    ensures Parts(line[at..]) == Literal(line[at..open], line[open + 1..close], Parts(line[close + 1..]))
  {
    FirstQuoteIs(line[at..], open - at);
    SlicesAfter(line, at, open, close);
    FirstLiteral(line[at..], open - at, close - open - 1, line[open + 1..close], line[close + 1..]);
  }

  lemma OpenLiteral(line: Text, at: nat, open: nat)
    requires at <= open < |line| && (forall i | at <= i < open :: line[i] != QUOTE) && line[open] == QUOTE
    requires BodyLength(line[open + 1..]).None?
    ensures Parts(line[at..]).Broken?
  {
    FirstQuoteIs(line[at..], open - at);
    assert line[at..][open - at + 1..] == line[open + 1..];
  }

  lemma LeftParts(line: Text, at: nat, rest: Line)
    requires at <= |line|
    ensures Left(line, at, rest) <==> rest == Parts(line[at..])
  {
    RenderedParts(line[at..]);
    if Left(line, at, rest) { PartsOfRendered(rest); }
  }

  /** The next literal after `at`: its quotes, -1 where there is none, and whether a backslash is in it. */
  method ScanLiteral(line: Text, at: nat, ghost rest: Line) returns (open: int, close: int, escaped: bool)
    requires Left(line, at, rest)
    ensures open == -1 ==> rest.End?
    ensures open != -1 && close == -1 ==> rest.Broken?
    ensures open != -1 && close != -1 ==> at <= open < close < |line| && NextLiteral(line, at, rest, open, close)
    ensures open != -1 && close != -1 ==> Left(line, close + 1, rest.more) && (escaped <==> Escaped(rest.body))
  {
    open := NextQuote(line, at);
    if open == -1 {
      NoneLeft(line, at, rest);
      return open, -1, false;
    }
    close, escaped := ScanBody(line, open + 1);
    if close == -1 {
      OpenLeft(line, at, rest, open);
    } else {
      LiteralLeft(line, at, rest, open, close);
    }
  }

  lemma NoneLeft(line: Text, at: nat, rest: Line)
    requires Left(line, at, rest) && forall i | at <= i < |line| :: line[i] != QUOTE
    ensures rest.End?
  {
    LeftParts(line, at, rest);
    FirstQuoteIs(line[at..], |line| - at);
  }

  lemma OpenLeft(line: Text, at: nat, rest: Line, open: nat)
    requires Left(line, at, rest) && at <= open < |line| && (forall i | at <= i < open :: line[i] != QUOTE)
             && line[open] == QUOTE
    requires BodyLength(line[open + 1..]).None?
    ensures rest.Broken?
  {
    LeftParts(line, at, rest);
    OpenLiteral(line, at, open);
  }

  lemma LiteralLeft(line: Text, at: nat, rest: Line, open: nat, close: nat)
    requires Left(line, at, rest) && at <= open < close < |line| && line[open] == QUOTE && line[close] == QUOTE
    requires forall i | at <= i < open :: line[i] != QUOTE
    requires BodyLength(line[open + 1..]) == Some(close - open - 1)
    ensures NextLiteral(line, at, rest, open, close) && Left(line, close + 1, rest.more)
  {
    LeftParts(line, at, rest);
    ClosedLiteral(line, at, open, close);
    LeftParts(line, close + 1, rest.more);
  }

  /** What is written so far, what is copied, and the literals still to come. */
  ghost predicate LineScanned(whole: Option<Text>, rest: Option<Text>, line: Text, out: Text, copied: int, at: int) {
    && 0 <= copied <= at <= |line| && (copied == 0 ==> out == [])
    && whole == Glue(out + line[copied..at], rest)
  }

  lemma LineScanStarts(whole: Option<Text>, line: Text)
    ensures LineScanned(whole, whole, line, [], 0, 0)
  {
    assert [] + line[0..0] == [];
    GlueNothing(whole);
  }

  lemma GlueNothing(o: Option<Text>)
    ensures Glue([], o) == o
  {
    if o.Some? { assert [] + o.value == o.value; }
  }

  lemma LineScanEnds(whole: Option<Text>, line: Text, out: Text, copied: int, at: int)
    requires 0 <= at <= |line| && LineScanned(whole, Some(line[at..]), line, out, copied, at)
    ensures whole == Some(if copied == 0 then line else out + line[copied..])
  {
    CopyRest(out, line, copied, at);
    assert [] + line[0..] == line;
  }

  lemma CopyRest(out: Text, line: Text, copied: nat, at: nat)
    requires copied <= at <= |line|
    ensures out + line[copied..at] + line[at..] == out + line[copied..]
  {
  }

  lemma GlueTwice(a: Text, b: Text, c: Text, o: Option<Text>)
    requires a + b == c
    ensures Glue(a, Glue(b, o)) == Glue(c, o)
  {
    if o.Some? { Group(a, b, o.value); }
  }

  /** The literal is written anew: all before it is copied. */
  lemma LiteralChanged(whole: Option<Text>, rest: Option<Text>, line: Text, out: Text, copied: int, at: nat, open: nat,
                       close: nat,
                       anew: Text, so: Text)
    requires at <= open < close < |line|
    requires LineScanned(whole, Glue(line[at..open] + [QUOTE] + anew + [QUOTE], rest), line, out, copied, at)
    requires so == out + line[copied..open] + ([QUOTE] + anew + [QUOTE])
    ensures LineScanned(whole, rest, line, so, close + 1, close + 1)
  {
    WriteAnew(out, line, copied, at, open, anew);
    GlueTwice(out + line[copied..at], line[at..open] + [QUOTE] + anew + [QUOTE], so, rest);
    assert so + line[close + 1..close + 1] == so;
  }

  lemma WriteAnew(out: Text, line: Text, copied: nat, at: nat, open: nat, body: Text)
    requires copied <= at <= open <= |line|
    ensures out + line[copied..at] + (line[at..open] + [QUOTE] + body + [QUOTE])
            == out + line[copied..open] + ([QUOTE] + body + [QUOTE])
  {
  }

  /** The literal stays: it is still to be copied. */
  lemma LiteralKept(whole: Option<Text>, rest: Option<Text>, line: Text, out: Text, copied: int, at: nat, open: nat,
                    close: nat)
    requires at <= open < close < |line| && line[open] == QUOTE && line[close] == QUOTE
    requires LineScanned(whole, Glue(line[at..open] + [QUOTE] + line[open + 1..close] + [QUOTE], rest), line, out,
                         copied, at)
    ensures LineScanned(whole, rest, line, out, copied, close + 1)
  {
    KeepLiteral(out, line, copied, at, open, close);
    GlueTwice(out + line[copied..at], line[at..open] + [QUOTE] + line[open + 1..close] + [QUOTE],
              out + line[copied..close + 1], rest);
  }

  lemma KeepLiteral(out: Text, line: Text, copied: nat, at: nat, open: nat, close: nat)
    requires copied <= at <= open < close < |line| && line[open] == QUOTE && line[close] == QUOTE
    ensures out + line[copied..at] + (line[at..open] + [QUOTE] + line[open + 1..close] + [QUOTE])
            == out + line[copied..close + 1]
  {
    assert line[copied..close + 1] == line[copied..at] + line[at..open] + [QUOTE] + line[open + 1..close] + [QUOTE];
  }

  /** One literal: written anew after all that was not copied yet, or left to be copied. */
  method RewriteLiteral(rewrite: (Text, bool) -> Rewriting, line: Text, out: Text, copied: nat, ghost at: nat,
                        open: nat, close: nat,
                        escaped: bool, ghost whole: Option<Text>, ghost rest: Line)
    returns (bad: bool, more: Text, copiedNow: nat)
    requires NextLiteral(line, at, rest, open, close) && (escaped <==> Escaped(rest.body))
    requires LineScanned(whole, Outcome(rewrite, rest), line, out, copied, at)
    ensures bad ==> whole.None?
    ensures !bad ==> LineScanned(whole, Outcome(rewrite, rest.more), line, more, copiedNow, close + 1)
  {
    bad, more, copiedNow := false, out, copied;
    match rewrite(line[open + 1..close], escaped) {
      case Bad =>
        bad := true;
      case Kept =>
        LiteralKept(whole, Outcome(rewrite, rest.more), line, out, copied, at, open, close);
      case Anew(anew) =>
        more, copiedNow := out + line[copied..open] + ([QUOTE] + anew + [QUOTE]), close + 1;
        LiteralChanged(whole, Outcome(rewrite, rest.more), line, out, copied, at, open, close, anew, more);
    }
  }

  /** The loop over a line's literals: the line rewritten, or nothing when it does not scan. */
  method RewriteLiterals(rewrite: (Text, bool) -> Rewriting, line: Text) returns (r: Option<Text>)
    ensures r == Outcome(rewrite, Parts(line))
  {
    var out: Text := [];
    var copied, at := 0, 0;
    ghost var rest := Parts(line);
    ghost var whole := Outcome(rewrite, rest);
    assert line[0..] == line;
    LeftParts(line, 0, rest);
    LineScanStarts(whole, line);
    while true
      invariant Left(line, at, rest)
      invariant LineScanned(whole, Outcome(rewrite, rest), line, out, copied, at)
      decreases |line| - at
    {
      var open, close, escaped := ScanLiteral(line, at, rest);
      if open == -1 {
        LineScanEnds(whole, line, out, copied, at);
        return Some(if copied == 0 then line else out + line[copied..]);
      }
      if close == -1 {
        return None;
      }
      var bad;
      bad, out, copied := RewriteLiteral(rewrite, line, out, copied, at, open, close, escaped, whole, rest);
      if bad {
        return None;
      }
      at := close + 1;
      rest := rest.more;
    }
  }

  /** The next quote, or -1. */
  method NextQuote(line: Text, from: nat) returns (open: int)
    requires from <= |line|
    ensures open == -1 ==> forall i | from <= i < |line| :: line[i] != QUOTE
    ensures open != -1 ==>
              from <= open < |line| && line[open] == QUOTE && forall i | from <= i < open :: line[i] != QUOTE
  {
    open := from;
    while open < |line|
      invariant from <= open <= |line| && forall i | from <= i < open :: line[i] != QUOTE
    {
      if line[open] == QUOTE {
        return;
      }
      open := open + 1;
    }
    open := -1;
  }
}
