/**
 * A text cut short loses what marks client data, so each rule takes more at the cut: whatever the
 * whole text would have lost before the cut, the cut text loses too.
 */
module UrlCut {
  import opened Texts
  import opened Ranges
  import opened UrlScan
  import opened UrlRedaction

  // ----- one rule at a time

  /** Two texts agree before `c`, and the second, cut, has no whitespace from there to its end. */
  ghost predicate CutShort(text: Text, short: Text, c: nat) {
    && c <= |text| && c <= |short| && text[..c] == short[..c]
    && forall i | c <= i < |short| :: !IsWhitespace(short[i])
  }

  lemma SameBefore(text: Text, short: Text, c: nat, i: int)
    requires CutShort(text, short, c) && 0 <= i < c
    ensures text[i] == short[i]
  {
    assert text[..c][i] == short[..c][i];
  }

  /** The run of a position before the cut is the same, or goes on to the end of the cut text. */
  lemma RunCut(text: Text, short: Text, c: nat, s: int, e: int, p: int) returns (f: int)
    requires CutShort(text, short, c) && Run(text, s, e) && s <= p < c && p < e
    ensures Run(short, s, f) && p < f && (f == e < c || f == |short|)
  {
    forall i | 0 <= i < c ensures text[i] == short[i] { SameBefore(text, short, c, i); }
    f := if e < c then e else |short|;
  }

  lemma SlashCut(text: Text, short: Text, c: nat, s: int, q: int)
    requires CutShort(text, short, c) && 0 <= s && q <= c && SlashLeads(text, s, q)
    ensures SlashLeads(short, s, q)
  {
    forall i | 0 <= i < c ensures text[i] == short[i] { SameBefore(text, short, c, i); }
    var k :| s <= k < q && text[k] == SLASH && forall m | k < m < q :: !IsMark(text[m]);
    assert short[k] == SLASH && forall m | k < m < q :: !IsMark(short[m]);
  }

  lemma StartCut(letters: int -> bool, text: Text, short: Text, c: nat, cut: bool, s: int, e: int, f: int, q: int)
    requires CutShort(text, short, c) && StartsQuery(letters, text, cut, s, e, q)
    requires q + 1 < f <= |short| && q < c && (f == e < c || f == |short|)
    ensures StartsQuery(letters, short, true, s, f, q)
  {
    forall i | 0 <= i < c ensures text[i] == short[i] { SameBefore(text, short, c, i); }
    if SlashLeads(text, s, q) {
      SlashCut(text, short, c, s, q);
    } else if f != |short| && PairFollows(text, q, e) {
      var k :| q < k < e && (text[k] == EQUALS || text[k] == AMPERSAND);
      assert short[k] == text[k];
    }
  }

  /** Each position before the cut that the query rule takes in the whole text, it takes in the cut one. */
  lemma QueryFailsClosed(letters: int -> bool, text: Text, short: Text, c: nat, cut: bool, p: int)
    requires CutShort(text, short, c) && p < c && QueryTaken(letters, text, cut, p)
    ensures QueryTaken(letters, short, true, p)
  {
    var s, e, q :| Run(text, s, e) && q < p < e && StartsQuery(letters, text, cut, s, e, q);
    var f := RunCut(text, short, c, s, e, p);
    StartCut(letters, text, short, c, cut, s, e, f, q);
  }

  lemma UserInfoCut(text: Text, c: nat, u: int, e: int)
    requires UserInfo(text, u, e) && u <= c <= |text|
    ensures UserInfo(text[..c], u, if e < c then e else c)
  {
    var short := text[..c];
    forall i | 0 <= i < c ensures short[i] == text[i] {}
    if e < c { assert EndsUserInfo(short[e]); }
  }

  /** Likewise for a password in user-info. */
  lemma CredentialFailsClosed(text: Text, c: nat, cut: bool, p: int)
    requires p < c <= |text| && CredentialTaken(text, cut, p)
    ensures CredentialTaken(text[..c], true, p)
  {
    var scheme, e :| GivenAwayAt(text, cut, scheme, e, p);
    var short := text[..c];
    SchemeChars(text, scheme);
    assert short[scheme..scheme + 3] == text[scheme..scheme + 3];
    var f := if e < c then e else c;
    UserInfoCut(text, c, scheme + 3, e);
    if f < c {
      var k :| scheme + 3 <= k < p && text[k] == COLON;
      assert short[k] == COLON;
    }
    assert GivenAwayAt(short, true, scheme, f, p);
  }

  /** In a cut text the JSON rule takes everything from the first quote on. */
  lemma JsonTakesRest(text: Text, c: nat, open: int, source: Option<Source>)
    requires c <= |text| && FirstQuote(text, open) && IsJsonSource(text[..c], true, source)
    ensures open < c ==> source.Some? && source.value.from == SourceFrom(text, open) && source.value.to == c
    ensures open >= c ==> source.None?
  {
    var short := text[..c];
    if open < c {
      assert FirstQuote(short, open);
      assert forall o :: FirstQuote(short, o) ==> o == open;
      if open >= 3 { assert short[open - 3..open] == text[open - 3..open]; }
    }
  }

  // ----- all of them together

  lemma QuoteUnique(text: Text, a: int, b: int)
    requires FirstQuote(text, a) && FirstQuote(text, b)
    ensures a == b
  {
  }

  /** A source found in the whole text opens at its first quote, or at the dots before it. */
  lemma WholeSourceFrom(text: Text, source: Option<Source>, open: nat)
    requires IsJsonSource(text, false, source) && source.Some? && FirstQuote(text, open)
    ensures source.value.from == SourceFrom(text, open)
  {
    forall o: nat | FirstQuote(text, o) ensures o == open { QuoteUnique(text, o, open); }
  }

  /** No whitespace from `from` to the end. */
  ghost predicate Solid(text: Text, from: int)
    requires 0 <= from
  {
    forall k | from <= k < |text| :: !IsWhitespace(text[k])
  }

  /** A cut text with a quote ends in the replacement, right where the whole text's source starts. */
  lemma CutSourceSolid(text: Text, c: nat, whole: Option<Source>, short: Option<Source>)
    requires c <= |text| && IsJsonSource(text, false, whole) && IsJsonSource(text[..c], true, short) && short.Some?
    ensures InText(short.value, text[..c]) && Solid(Rest(text[..c], short.value), short.value.from)
    ensures whole.Some? ==> whole.value.from == short.value.from
  {
    var v := short.value;
    var open: nat :| FirstQuote(text[..c], open) && v.from == SourceFrom(text[..c], open);
    assert FirstQuote(text, open);
    JsonTakesRest(text, c, open, short);
    if whole.Some? { WholeSourceFrom(text, whole, open); }
    RestSolid(text[..c], v);
  }

  lemma RestSolid(text: Text, v: Source)
    requires v.from <= v.to == |text| && v.put == [QUOTE] + REDACTED_TEXT
    ensures Solid(Rest(text, v), v.from)
  {
    var rest := Rest(text, v);
    assert rest == text[..v.from] + v.put;
    forall k | v.from <= k < |rest| ensures !IsWhitespace(rest[k]) {
      assert rest[k] == v.put[k - v.from];
    }
  }

  /** A cut text without a quote ends, past the whole text's source start, in dots. */
  lemma CutDotsSolid(text: Text, c: nat, whole: Option<Source>)
    requires c <= |text| && IsJsonSource(text, false, whole) && IsJsonSource(text[..c], true, None)
    requires whole.Some? && whole.value.from < c
    ensures Solid(text[..c], whole.value.from)
  {
    var from := whole.value.from;
    var open: nat :| FirstQuote(text, open) && from == SourceFrom(text, open);
    JsonTakesRest(text, c, open, None);
    assert text[open - 3..open] == DOTS;
    forall k | from <= k < c ensures !IsWhitespace(text[..c][k]) {
      assert text[k] == text[open - 3..open][k - from] == 0x2e;
    }
  }

  lemma RestStarts(text: Text, v: Source, d: nat)
    requires InText(v, text) && d <= v.from
    ensures |Rest(text, v)| >= d && Rest(text, v)[..d] == text[..d]
  {
  }

  /** Before either source, the rest of the cut text is the rest of the whole one, cut. */
  lemma RestCut(text: Text, c: nat, whole: Option<Source>, short: Option<Source>, i: int) returns (d: nat)
    requires c <= |text| && IsJsonSource(text, false, whole) && IsJsonSource(text[..c], true, short)
    requires InText(SourceOrEnd(text, whole), text) && InText(SourceOrEnd(text[..c], short), text[..c])
    requires i < SourceOrEnd(text, whole).from && i < SourceOrEnd(text[..c], short).from
    ensures i < d && CutShort(Rest(text, SourceOrEnd(text, whole)), Rest(text[..c], SourceOrEnd(text[..c], short)), d)
  {
    var w, v := SourceOrEnd(text, whole), SourceOrEnd(text[..c], short);
    d := if w.from < v.from then w.from else v.from;
    RestStarts(text, w, d);
    RestStarts(text[..c], v, d);
    assert text[..c][..d] == text[..d];
    if short.Some? {
      CutSourceSolid(text, c, whole, short);
    } else {
      assert Rest(text[..c], v) == text[..c];
      if whole.Some? && w.from < c { CutDotsSolid(text, c, whole); }
    }
  }

  /** The dots a source that is quoted and closed opens with, where the quote itself is past the cut. */
  ghost predicate DotsBeforeCut(text: Text, c: nat, i: int) {
    exists open: nat :: FirstQuote(text, open) && ClosedPastCut(text, c, open) && open - 3 <= i < c
  }

  ghost predicate ClosedPastCut(text: Text, c: nat, open: nat) {
    c <= open && open >= 3 && StartsAt(text, DOTS, open - 3) && exists at :: Closes(text, open, at)
  }

  /** Such dots are in the source of the whole text. */
  lemma DotsAreInSource(text: Text, c: nat, whole: Option<Source>, i: int)
    requires IsJsonSource(text, false, whole) && DotsBeforeCut(text, c, i)
    ensures whole.Some? && whole.value.from <= i < whole.value.to
  {
    var open: nat :| FirstQuote(text, open) && ClosedPastCut(text, c, open) && open - 3 <= i < c;
    if whole.Some? { WholeSourceFrom(text, whole, open); }
  }

  /** Without them, what the cut text keeps comes before either source. */
  lemma KeptIsBeforeSources(text: Text, c: nat, whole: Option<Source>, short: Option<Source>, i: int)
    requires c <= |text| && IsJsonSource(text, false, whole) && IsJsonSource(text[..c], true, short)
    requires 0 <= i < c && !DotsBeforeCut(text, c, i)
    requires var v := SourceOrEnd(text[..c], short); !(v.from <= i < v.to)
    ensures i < SourceOrEnd(text, whole).from && i < SourceOrEnd(text[..c], short).from
  {
    if short.Some? {
      var open: nat :| FirstQuote(text[..c], open) && short.value.from == SourceFrom(text[..c], open);
      assert FirstQuote(text, open);
      JsonTakesRest(text, c, open, short);
      if whole.Some? { WholeSourceFrom(text, whole, open); }
    } else if whole.Some? {
      WholeFromPastCut(text, c, whole, i);
    }
  }

  lemma WholeFromPastCut(text: Text, c: nat, whole: Option<Source>, i: int)
    requires c <= |text| && IsJsonSource(text, false, whole) && whole.Some? && IsJsonSource(text[..c], true, None)
    requires 0 <= i < c && !DotsBeforeCut(text, c, i)
    ensures i < whole.value.from
  {
    var open: nat :| FirstQuote(text, open) && whole.value.from == SourceFrom(text, open)
      && Closes(text, open, whole.value.to - |JSON_SOURCE_END|);
    JsonTakesRest(text, c, open, None);
    if whole.value.from != open { assert !ClosedPastCut(text, c, open) || i < open - 3; }
  }

  /**
   * Fail closed: an original character that survives in the cut text survives in the whole one
   * exactly when it is not one of the dots before a quote past the cut, of a source that is closed. Of the
   * bearer tokens it is asked only that a token the cut runs through is found up to the cut.
   */
  lemma CutFailsClosed(letters: int -> bool, text: Text, c: nat, bearer: seq<Range>, cutBearer: seq<Range>,
                       whole: Option<Source>, short: Option<Source>, i: int)
    requires c <= |text| && IsJsonSource(text, false, whole) && IsJsonSource(text[..c], true, short)
    requires InText(SourceOrEnd(text, whole), text) && InText(SourceOrEnd(text[..c], short), text[..c])
    requires forall p | p < c && Covers(bearer, p) :: Covers(cutBearer, p)
    requires Survives(Left(letters, text[..c], true, cutBearer, SourceOrEnd(text[..c], short)),
                      SourceOrEnd(text[..c], short), i)
    ensures Survives(Left(letters, text, false, bearer, SourceOrEnd(text, whole)), SourceOrEnd(text, whole), i)
            <==> !DotsBeforeCut(text, c, i)
  {
    var w, v := SourceOrEnd(text, whole), SourceOrEnd(text[..c], short);
    Provenance(letters, text, false, bearer, w);
    Provenance(letters, text[..c], true, cutBearer, v);
    if DotsBeforeCut(text, c, i) {
      DotsAreInSource(text, c, whole, i);
    } else {
      KeptIsBeforeSources(text, c, whole, short, i);
      if CredentialTaken(text, false, i) { CredentialFailsClosed(text, c, false, i); }
      var d := RestCut(text, c, whole, short, i);
      if QueryTaken(letters, Rest(text, w), false, i) {
        QueryFailsClosed(letters, Rest(text, w), Rest(text[..c], v), d, false, i);
      }
    }
  }

  // ----- dots that survive

  /** `..."" is not valid JSON`, of which the cut leaves the dots. */
  const DOTS_QUOTED: Text := DOTS + [QUOTE, QUOTE] + JSON_SOURCE_END

  lemma DotsQuotedCloses()
    ensures FirstQuote(DOTS_QUOTED, 3) && ClosedPastCut(DOTS_QUOTED, 3, 3)
  {
    var t := DOTS_QUOTED;
    assert t[0..3] == DOTS && t[5..] == JSON_SOURCE_END && t[5..5 + |JSON_SOURCE_END|] == JSON_SOURCE_END;
    assert t[3] == QUOTE && t[4] == QUOTE && t[0] == t[1] == t[2] == 0x2e;
    assert t[1..5][0] != QUOTE_DOTS[0];
    assert ClosingQuote(t, 5) == 4;
    assert Closes(t, 3, 5);
  }

  /** Cut after the dots, the text keeps them; whole, it does not. */
  lemma DotsSurviveCut(letters: int -> bool, i: int, whole: Option<Source>)
    requires 0 <= i < 3 && IsJsonSource(DOTS_QUOTED, false, whole)
             && InText(SourceOrEnd(DOTS_QUOTED, whole), DOTS_QUOTED)
    ensures DOTS_QUOTED[..3] == DOTS && IsJsonSource(DOTS, true, None)
    ensures Survives(Left(letters, DOTS, true, [], SourceOrEnd(DOTS, None)), SourceOrEnd(DOTS, None), i)
    ensures !Survives(Left(letters, DOTS_QUOTED, false, [], SourceOrEnd(DOTS_QUOTED, whole)),
                      SourceOrEnd(DOTS_QUOTED, whole), i)
  {
    assert DOTS_QUOTED[..3] == DOTS;
    DotsKept(letters, i);
    DotsQuotedCloses();
    assert DotsBeforeCut(DOTS_QUOTED, 3, i);
    CutFailsClosed(letters, DOTS_QUOTED, 3, [], [], whole, None, i);
  }

  lemma DotsKept(letters: int -> bool, i: int)
    requires 0 <= i < 3
    ensures IsJsonSource(DOTS, true, None) && InText(SourceOrEnd(DOTS, None), DOTS)
    ensures Survives(Left(letters, DOTS, true, [], SourceOrEnd(DOTS, None)), SourceOrEnd(DOTS, None), i)
  {
    var t := DOTS;
    var s := SourceOrEnd(t, None);
    assert forall k | 0 <= k < 3 :: t[k] == 0x2e;
    assert Rest(t, s) == t;
    forall p ensures !CredentialTaken(t, true, p) {}
    Provenance(letters, t, true, [], s);
  }
}
