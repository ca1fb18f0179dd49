/** Query redaction alone is idempotent; redaction of any text, cut to a bound first, is bounded. */
module UrlText {
  import opened Texts
  import opened Utf8Encoding
  import opened Ranges
  import opened UrlScan
  import opened UrlRedaction

  // ----- `redactQueries`

  /** The text with every query replaced, by the position-by-position rule. */
  ghost function QueriesRedacted(letters: int -> bool, text: Text, cut: bool): Text {
    Ruled(text, 0, p => QueryTaken(letters, text, cut, p))
  }

  /** A text from `at` on, by the position-by-position rule. */
  ghost function Ruled(text: Text, at: nat, taken: int -> bool): Text
    requires at <= |text|
  {
    CellsRender(text, at, taken);
    Render(text, TakenCells(at, |text|, taken))
  }

  lemma CellsRender(text: Text, at: nat, taken: int -> bool)
    requires at <= |text|
    ensures Renders(text, TakenCells(at, |text|, taken))
  {
    TakenCellsKeep(at, |text|, taken);
    var cells := TakenCells(at, |text|, taken);
    forall i | 0 <= i < |cells| && cells[i].Kept? ensures cells[i].at < |text| {
      assert Kept(cells[i].at) in cells;
    }
  }

  method RedactQueries(letters: int -> bool, text: Text, cut: bool) returns (r: Text)
    ensures r == QueriesRedacted(letters, text, cut)
  {
    var ranges := QueryRanges(letters, text, cut);
    ReplacedIsRule(text, ranges, p => QueryTaken(letters, text, cut, p));
    r := RedactRanges(text, ranges);
  }

  // ----- run by run

  function RunLength(text: Text): (n: nat)
    ensures n <= |text| && forall i | 0 <= i < n :: !IsWhitespace(text[i])
    ensures n < |text| ==> IsWhitespace(text[n])
  {
    if text == [] || IsWhitespace(text[0]) then 0
    else
      var n := 1 + RunLength(text[1..]);
      assert forall i | 1 <= i < n :: text[i] == text[1..][i - 1];
      n
  }

  ghost predicate Starts(letters: int -> bool, run: Text, q: int) {
    StartsQuery(letters, run, false, 0, |run|, q)
  }

  ghost function FirstStart(letters: int -> bool, run: Text, q: nat): (r: Option<nat>)
    ensures r.None? ==> forall k | q <= k :: !Starts(letters, run, k)
    ensures r.Some? ==> q <= r.value < |run| - 1 && Starts(letters, run, r.value)
    ensures r.Some? ==> forall k | q <= k < r.value :: !Starts(letters, run, k)
    decreases |run| - q
  {
    if q >= |run| then None
    else if Starts(letters, run, q) then Some(q)
    else FirstStart(letters, run, q + 1)
  }

  ghost function RunRedacted(letters: int -> bool, run: Text): Text {
    match FirstStart(letters, run, 0)
    case None => run
    case Some(q) => run[..q + 1] + REDACTED_TEXT
  }

  ghost function RunsRedacted(letters: int -> bool, text: Text): Text
    decreases |text|
  {
    if text == [] then []
    else if IsWhitespace(text[0]) then [text[0]] + RunsRedacted(letters, text[1..])
    else RunRedacted(letters, text[..RunLength(text)]) + RunsRedacted(letters, text[RunLength(text)..])
  }

  // ----- a run's start depends on the run alone

  lemma SlashLocal(text: Text, s: int, e: int, q: int)
    requires 0 <= s <= q < e <= |text|
    ensures SlashLeads(text, s, q) <==> SlashLeads(text[s..e], 0, q - s)
  {
    var run := text[s..e];
    if SlashLeads(text, s, q) {
      var k :| s <= k < q && text[k] == SLASH && forall m | k < m < q :: !IsMark(text[m]);
      assert run[k - s] == SLASH && forall m | k - s < m < q - s :: !IsMark(run[m]);
    }
    if SlashLeads(run, 0, q - s) {
      var k :| 0 <= k < q - s && run[k] == SLASH && forall m | k < m < q - s :: !IsMark(run[m]);
      forall m | k + s < m < q ensures !IsMark(text[m]) { assert !IsMark(run[m - s]); }
      assert text[k + s] == SLASH;
    }
  }

  lemma PairLocal(text: Text, s: int, e: int, q: int)
    requires 0 <= s <= q < e <= |text|
    ensures PairFollows(text, q, e) <==> PairFollows(text[s..e], q - s, e - s)
  {
    var run := text[s..e];
    if PairFollows(text, q, e) {
      var k :| q < k < e && (text[k] == EQUALS || text[k] == AMPERSAND);
      assert run[k - s] == text[k];
    }
    if PairFollows(run, q - s, e - s) {
      var k :| q - s < k < e - s && (run[k] == EQUALS || run[k] == AMPERSAND);
      assert text[k + s] == run[k];
    }
  }

  lemma StartLocal(letters: int -> bool, text: Text, s: int, e: int, q: int)
    requires Run(text, s, e) && s <= q < e
    ensures StartsQuery(letters, text, false, s, e, q) <==> Starts(letters, text[s..e], q - s)
  {
    SlashLocal(text, s, e, q);
    PairLocal(text, s, e, q);
    if q > s { PointLocal(letters, text, s, e, q); }
    assert text[s..e][q - s] == text[q];
  }

  /** The character before one inside a run is the same in the run, whitespace being half of no pair. */
  lemma PointLocal(letters: int -> bool, text: Text, s: int, e: int, q: int)
    requires Run(text, s, e) && s < q < e
    ensures FollowsPreceder(letters, text, q) <==> FollowsPreceder(letters, text[s..e], q - s)
  {
    var run := text[s..e];
    assert run[q - s - 1] == text[q - 1];
    if q - s >= 2 { assert run[q - s - 2] == text[q - 2]; }
    assert PointBefore(text, q) == PointBefore(run, q - s);
  }

  // ----- the rule is run by run

  lemma BoundaryRun(text: Text, at: nat)
    requires at < |text| && !IsWhitespace(text[at]) && (at > 0 ==> IsWhitespace(text[at - 1]))
    ensures var e := at + RunLength(text[at..]);
            Run(text, at, e) && text[at..e] == text[at..][..RunLength(text[at..])]
  {
    var n := RunLength(text[at..]);
    forall i | at <= i < at + n ensures !IsWhitespace(text[i]) {
      assert text[i] == text[at..][i - at];
    }
  }

  /** Whether the character at `k` of a run comes after the run's first start. */
  ghost predicate AfterFirst(letters: int -> bool, run: Text, k: int) {
    var first := FirstStart(letters, run, 0);
    first.Some? && k > first.value
  }

  lemma TakenAfterFirst(letters: int -> bool, text: Text, s: nat, e: nat, p: int)
    requires Run(text, s, e) && s <= p < e
    ensures QueryTaken(letters, text, false, p) <==> AfterFirst(letters, text[s..e], p - s)
  {
    var run := text[s..e];
    var first := FirstStart(letters, run, 0);
    TakenInRun(letters, text, false, s, e, p);
    forall q | s <= q < p ensures StartsQuery(letters, text, false, s, e, q) <==> Starts(letters, run, q - s) {
      StartLocal(letters, text, s, e, q);
    }
    if AfterFirst(letters, run, p - s) {
      assert Starts(letters, run, s + first.value - s);
      assert StartsQuery(letters, text, false, s, e, s + first.value);
    }
  }

  /** A rule that takes no whitespace, and in each run what comes after its first start. */
  ghost predicate RunByRun(letters: int -> bool, text: Text, taken: int -> bool) {
    && (forall p | 0 <= p < |text| && IsWhitespace(text[p]) :: !taken(p))
    && (forall s, e, p | Run(text, s, e) && s <= p < e :: taken(p) <==> AfterFirst(letters, text[s..e], p - s))
  }

  lemma QueriesRunByRun(letters: int -> bool, text: Text)
    ensures RunByRun(letters, text, p => QueryTaken(letters, text, false, p))
  {
    forall p | 0 <= p < |text| && IsWhitespace(text[p]) ensures !QueryTaken(letters, text, false, p) {
      NotTakenAtWhitespace(letters, text, false, p);
    }
    forall s, e, p | Run(text, s, e) && s <= p < e
      ensures QueryTaken(letters, text, false, p) <==> AfterFirst(letters, text[s..e], p - s)
    {
      TakenAfterFirst(letters, text, s, e, p);
    }
  }

  lemma RuledUntaken(text: Text, at: nat, e: nat, taken: int -> bool)
    requires at <= e <= |text| && forall p | at <= p < e :: !taken(p)
    ensures Ruled(text, at, taken) == text[at..e] + Ruled(text, e, taken)
  {
    CellsRender(text, e, taken);
    TakenCellsUntaken(at, e, |text|, taken);
    RenderKept(text, at, e);
    RenderAppend(text, KeptRun(at, e), TakenCells(e, |text|, taken));
  }

  lemma RuledRange(text: Text, at: nat, r: Range, taken: int -> bool)
    requires at < r.from < r.to <= |text|
    requires forall p | at <= p < r.to :: taken(p) <==> r.from <= p
    ensures Ruled(text, at, taken) == text[at..r.from] + REDACTED_TEXT + Ruled(text, r.to, taken)
  {
    CellsRender(text, r.to, taken);
    TakenCellsRange(at, r, |text|, taken);
    RenderStep(text, at, r, TakenCells(r.to, |text|, taken));
  }

  ghost predicate TakenAfterStart(letters: int -> bool, text: Text, s: nat, e: nat, taken: int -> bool)
    requires s <= e <= |text|
  {
    forall p | s <= p < e :: taken(p) <==> AfterFirst(letters, text[s..e], p - s)
  }

  lemma RuledUnstarted(letters: int -> bool, text: Text, at: nat, e: nat, taken: int -> bool)
    requires at < e <= |text| && TakenAfterStart(letters, text, at, e, taken)
    requires FirstStart(letters, text[at..e], 0).None?
    ensures Ruled(text, at, taken) == text[at..e] + Ruled(text, e, taken)
  {
    RuledUntaken(text, at, e, taken);
  }

  lemma RuledStarted(letters: int -> bool, text: Text, at: nat, e: nat, taken: int -> bool, q: nat)
    requires at < e <= |text| && TakenAfterStart(letters, text, at, e, taken)
    requires FirstStart(letters, text[at..e], 0) == Some(q)
    ensures q + 1 < e - at
    ensures Ruled(text, at, taken) == text[at..e][..q + 1] + REDACTED_TEXT + Ruled(text, e, taken)
  {
    RuledRange(text, at, Range(at + q + 1, e), taken);
    assert text[at..at + q + 1] == text[at..e][..q + 1];
  }

  /** In one run, the rule leaves the run redacted. */
  lemma RuledRun(letters: int -> bool, text: Text, at: nat, e: nat, taken: int -> bool)
    requires at < e <= |text| && TakenAfterStart(letters, text, at, e, taken)
    ensures Ruled(text, at, taken) == RunRedacted(letters, text[at..e]) + Ruled(text, e, taken)
  {
    match FirstStart(letters, text[at..e], 0)
    case None => RuledUnstarted(letters, text, at, e, taken);
    case Some(q) => RuledStarted(letters, text, at, e, taken, q);
  }

  ghost predicate Agree(letters: int -> bool, text: Text, at: nat, taken: int -> bool)
    requires at <= |text|
  {
    Ruled(text, at, taken) == RunsRedacted(letters, text[at..])
  }

  lemma AgreeAtWhitespace(letters: int -> bool, text: Text, at: nat, taken: int -> bool)
    requires at < |text| && IsWhitespace(text[at]) && !taken(at) && Agree(letters, text, at + 1, taken)
    ensures Agree(letters, text, at, taken)
  {
    RuledUntaken(text, at, at + 1, taken);
    assert text[at..][1..] == text[at + 1..];
    assert text[at..at + 1] == [text[at]];
  }

  lemma AgreeAtRun(letters: int -> bool, text: Text, at: nat, e: nat, taken: int -> bool)
    requires at < e <= |text| && !IsWhitespace(text[at]) && e == at + RunLength(text[at..])
             && Agree(letters, text, e, taken)
    requires TakenAfterStart(letters, text, at, e, taken)
    ensures Agree(letters, text, at, taken)
  {
    assert RunsRedacted(letters, text[at..])
           == RunRedacted(letters, text[at..e]) + RunsRedacted(letters, text[e..]) by {
      RunsAt(letters, text[at..]);
      assert text[at..][..e - at] == text[at..e] && text[at..][e - at..] == text[e..];
    }
    RuledRun(letters, text, at, e, taken);
  }

  lemma RunsAt(letters: int -> bool, text: Text)
    requires text != [] && !IsWhitespace(text[0])
    ensures RunsRedacted(letters, text)
            == RunRedacted(letters, text[..RunLength(text)]) + RunsRedacted(letters, text[RunLength(text)..])
  {
  }

  lemma {:induction false} RuleIsRuns(letters: int -> bool, text: Text, at: nat, taken: int -> bool)
    requires at <= |text| && (0 < at < |text| ==> IsWhitespace(text[at - 1]) || IsWhitespace(text[at]))
    requires RunByRun(letters, text, taken)
    ensures Agree(letters, text, at, taken)
    decreases |text| - at
  {
    if at == |text| {
    } else if IsWhitespace(text[at]) {
      RuleIsRuns(letters, text, at + 1, taken);
      AgreeAtWhitespace(letters, text, at, taken);
    } else {
      var e := at + RunLength(text[at..]);
      assert Run(text, at, e) by { BoundaryRun(text, at); }
      RuleIsRuns(letters, text, e, taken);
      AgreeAtRun(letters, text, at, e, taken);
    }
  }

  // ----- idempotence

  /** Redacting a redacted run changes nothing: its marks after the first are gone. */
  lemma RunTwice(letters: int -> bool, run: Text)
    ensures RunRedacted(letters, RunRedacted(letters, run)) == RunRedacted(letters, run)
  {
    var first := FirstStart(letters, run, 0);
    if first.Some? {
      var q := first.value;
      var out := run[..q + 1] + REDACTED_TEXT;
      forall k | 0 <= k && k != q ensures !Starts(letters, out, k) {
        if Starts(letters, out, k) { StartKept(letters, run, q, k); }
      }
      var again := FirstStart(letters, out, 0);
      if again.Some? {
        assert again.value == q;
        assert out[..q + 1] == run[..q + 1];
      }
    }
  }

  /** A start in the redacted run was one in the run, no later than the first. */
  lemma StartKept(letters: int -> bool, run: Text, q: nat, k: nat)
    requires q < |run| - 1 && Starts(letters, run[..q + 1] + REDACTED_TEXT, k)
    ensures k <= q && Starts(letters, run, k)
  {
    var out := run[..q + 1] + REDACTED_TEXT;
    assert forall i | q < i < |out| :: out[i] == REDACTED_TEXT[i - q - 1];
    assert forall i | 0 <= i <= q :: out[i] == run[i];
    assert k <= q;
    if SlashLeads(out, 0, k) {
      var m :| 0 <= m < k && out[m] == SLASH && forall n | m < n < k :: !IsMark(out[n]);
      assert run[m] == SLASH && forall n | m < n < k :: !IsMark(run[n]);
      assert SlashLeads(run, 0, k);
    } else if PairFollows(out, k, |out|) {
      var m :| k < m < |out| && (out[m] == EQUALS || out[m] == AMPERSAND);
      assert run[m] == out[m];
    }
  }

  lemma RunRedactedSolid(letters: int -> bool, run: Text)
    requires run != [] && forall i | 0 <= i < |run| :: !IsWhitespace(run[i])
    ensures RunRedacted(letters, run) != []
    ensures forall i | 0 <= i < |RunRedacted(letters, run)| :: !IsWhitespace(RunRedacted(letters, run)[i])
  {
  }

  lemma RunLengthOf(run: Text, rest: Text)
    requires forall i | 0 <= i < |run| :: !IsWhitespace(run[i])
    requires rest != [] ==> IsWhitespace(rest[0])
    ensures RunLength(run + rest) == |run|
  {
    var t := run + rest;
    assert |run| < |t| ==> t[|run|] == rest[0];
    assert forall i | 0 <= i < |run| :: t[i] == run[i];
  }

  lemma {:induction false} RunsTwice(letters: int -> bool, text: Text)
    ensures RunsRedacted(letters, RunsRedacted(letters, text)) == RunsRedacted(letters, text)
    decreases |text|
  {
    if text == [] {
    } else if IsWhitespace(text[0]) {
      RunsTwice(letters, text[1..]);
      assert ([text[0]] + RunsRedacted(letters, text[1..]))[1..] == RunsRedacted(letters, text[1..]);
    } else {
      var n := RunLength(text);
      RunsTwice(letters, text[n..]);
      RunTwice(letters, text[..n]);
      RunsOfRun(letters, text[..n], text[n..]);
    }
  }

  lemma RunsOfRun(letters: int -> bool, run: Text, rest: Text)
    requires run != [] && forall i | 0 <= i < |run| :: !IsWhitespace(run[i])
    requires rest != [] ==> IsWhitespace(rest[0])
    ensures var out, more := RunRedacted(letters, run), RunsRedacted(letters, rest);
            RunsRedacted(letters, out + more) == RunRedacted(letters, out) + RunsRedacted(letters, more)
  {
    var out, more := RunRedacted(letters, run), RunsRedacted(letters, rest);
    RunRedactedSolid(letters, run);
    assert rest != [] ==> more[0] == rest[0];
    RunLengthOf(out, more);
    assert (out + more)[..|out|] == out && (out + more)[|out|..] == more;
  }

  /** Redacting the queries of an uncut text twice is redacting them once. */
  lemma QueriesIdempotent(letters: int -> bool, text: Text)
    ensures var once := QueriesRedacted(letters, text, false);
            QueriesRedacted(letters, once, false) == once
  {
    var once := QueriesRedacted(letters, text, false);
    QueriesRunByRun(letters, text);
    QueriesRunByRun(letters, once);
    RuleIsRuns(letters, text, 0, p => QueryTaken(letters, text, false, p));
    RuleIsRuns(letters, once, 0, p => QueryTaken(letters, once, false, p));
    assert text[0..] == text && once[0..] == once;
    RunsTwice(letters, text);
  }

  // ----- a bound on what is written

  const REDACT_TEXT_MAX := 4096
  const TRUNCATED_TEXT: Text := [0x2026, 0x5b, 0x54, 0x52, 0x55, 0x4e, 0x43, 0x41, 0x54, 0x45, 0x44, 0x5d]

  /** A text of `n` characters, redacted, has at most 9 more for every second of them. */
  lemma {:induction false} RuledBound(text: Text, at: nat, taken: int -> bool)
    requires at <= |text|
    ensures 2 * |Ruled(text, at, taken)| <= 11 * (|text| - at) + (if at > 0 && taken(at - 1) then 0 else 9)
    decreases |text| - at
  {
    if at < |text| {
      RuledBound(text, at + 1, taken);
      CellsRender(text, at + 1, taken);
      var more := TakenCells(at + 1, |text|, taken);
      if !taken(at) {
        RuledUntaken(text, at, at + 1, taken);
      } else if at > 0 && taken(at - 1) {
        assert TakenCells(at, |text|, taken) == more;
      } else {
        assert TakenCells(at, |text|, taken) == [Mark] + more;
        RenderAppend(text, [Mark], more);
        assert Render(text, [Mark]) == REDACTED_TEXT + Render(text, []);
      }
    }
  }

  /** `capped`: the text to read, never ending between the halves of a pair, and whether it was cut. */
  function Capped(text: Text): (r: (Text, bool))
    ensures r.0 <= text && |r.0| <= REDACT_TEXT_MAX && (r.1 <==> |text| > REDACT_TEXT_MAX)
    ensures r.1 ==> |r.0| >= REDACT_TEXT_MAX - 1 && !(IsHigh(text[|r.0| - 1]) && IsLow(text[|r.0|]))
    ensures !r.1 ==> r.0 == text
  {
    if |text| <= REDACT_TEXT_MAX then (text, false)
    else (text[..if IsHigh(text[REDACT_TEXT_MAX - 1]) then REDACT_TEXT_MAX - 1 else REDACT_TEXT_MAX], true)
  }

  /** Finds a text's bearer tokens: in order, apart, within it. */
  ghost predicate FindsTokens(bearer: Text -> seq<Range>) {
    forall t :: Apart(bearer(t)) && Within(bearer(t), |t|)
  }

  /**
   * `redactText`: every rule on the text or on its capped part, which then fails closed. However
   * long the text, what is written is bounded.
   */
  method RedactText(letters: int -> bool, bearer: Text -> seq<Range>, text: Text)
    returns (r: Text)
    requires FindsTokens(bearer)
    ensures var (kept, cut) := Capped(text);
            exists redacted :: RedactsAll(letters, kept, cut, bearer(kept), redacted)
              && r == redacted + if cut then TRUNCATED_TEXT else []
    ensures |r| <= 22709
  {
    var (kept, cut) := Capped(text);
    assert Apart(bearer(kept)) && Within(bearer(kept), |kept|);
    var redacted := RedactAll(letters, kept, cut, bearer(kept));
    ghost var source :| IsJsonSource(kept, cut, source) && InText(SourceOrEnd(kept, source), kept)
      && IsRedacted(letters, kept, cut, bearer(kept), SourceOrEnd(kept, source), redacted);
    RedactedBound(letters, kept, cut, bearer(kept), source, redacted);
    r := redacted + if cut then TRUNCATED_TEXT else [];
  }

  lemma RedactedBound(letters: int -> bool, text: Text, cut: bool, bearer: seq<Range>, source: Option<Source>, r: Text)
    requires IsJsonSource(text, cut, source) && InText(SourceOrEnd(text, source), text)
    requires IsRedacted(letters, text, cut, bearer, SourceOrEnd(text, source), r)
    ensures 2 * |r| <= 11 * (|text| + 30) + 9
  {
    var s := SourceOrEnd(text, source);
    assert |s.put| <= 30;
    RuledBound(Rest(text, s), 0, k => Taken(letters, text, cut, bearer, s, k));
  }
}
