/**
 * Where a text carries client data: queries and fragments of URLs, passwords in user-info, and
 * the source a JSON parser quotes. Each rule is stated on its own, position by position; the
 * one-pass scanners find exactly what the rules take.
 */
module UrlScan {
  import opened Texts
  import opened Utf8Encoding
  import opened Ranges

  // ----- searching

  /** `text.lastIndexOf(part, from)`. */
  method LastIndexOf(text: Text, part: Text, from: int) returns (at: int)
    ensures at == -1 ==> forall i | i <= from :: !StartsAt(text, part, i)
    ensures at != -1 ==> at <= from && StartsAt(text, part, at) && forall i | at < i <= from :: !StartsAt(text, part, i)
  {
    at := if from <= |text| - |part| then from else |text| - |part|;
    while at >= 0
      invariant at <= from && at <= |text| - |part|
      invariant forall i | at < i <= from :: !StartsAt(text, part, i)
    {
      if text[at..at + |part|] == part {
        return;
      }
      at := at - 1;
    }
    at := -1;
  }

  // ----- queries: the rule

  predicate IsMark(c: CodeUnit) {
    c == QUESTION || c == HASH
  }

  /** A maximal run of non-whitespace. */
  ghost predicate Run(text: Text, s: int, e: int) {
    && 0 <= s < e <= |text|
    && (forall i | s <= i < e :: !IsWhitespace(text[i]))
    && (s > 0 ==> IsWhitespace(text[s - 1]))
    && (e < |text| ==> IsWhitespace(text[e]))
  }

  /** The code point right before `at`, a pair taken together. */
  function PointBefore(text: Text, at: int): int
    requires 0 < at <= |text|
  {
    if at >= 2 && IsHigh(text[at - 2]) && IsLow(text[at - 1])
    then PairScalar(text[at - 2], text[at - 1]) else text[at - 1]
  }

  /**
   * Whether a query without a path may start at `at`, by the code point before it. `letters` says which
   * code points past ASCII are letters or numbers.
   */
  predicate FollowsPreceder(letters: int -> bool, text: Text, at: int)
    requires 0 < at <= |text|
  {
    var c := PointBefore(text, at);
    if c < 0x80 then IsWordChar(c) || c == 0x2e || c == 0x7e || c == 0x25 || c == 0x2d else letters(c)
  }

  /** A slash before `q` in the run from `s`, with no `?` or `#` between them. */
  ghost predicate SlashLeads(text: Text, s: int, q: int)
    requires 0 <= s && q <= |text|
  {
    exists k | s <= k < q :: text[k] == SLASH && forall m | k < m < q :: !IsMark(text[m])
  }

  ghost predicate PairFollows(text: Text, q: int, e: int)
    requires -1 <= q && e <= |text|
  {
    exists k | q < k < e :: text[k] == EQUALS || text[k] == AMPERSAND
  }

  /** A query or fragment starts at `q` in the run from `s` to `e`, with something after it. */
  ghost predicate StartsQuery(letters: int -> bool, text: Text, cut: bool, s: int, e: int, q: int) {
    && 0 <= s <= q < e - 1 && e <= |text| && IsMark(text[q])
    && (|| SlashLeads(text, s, q)
        || (&& text[q] == QUESTION
            && (PairFollows(text, q, e) || (cut && e == |text|) || (q > s && FollowsPreceder(letters, text, q)))))
  }

  /** A position is taken when a query started before it in its run. */
  ghost predicate QueryTaken(letters: int -> bool, text: Text, cut: bool, p: int) {
    exists s, e, q :: Run(text, s, e) && q < p < e && StartsQuery(letters, text, cut, s, e, q)
  }

  // ----- queries: the scan

  lemma SlashLeadsNext(text: Text, s: int, at: int)
    requires 0 <= s <= at < |text|
    ensures SlashLeads(text, s, at + 1) <==> text[at] == SLASH || (SlashLeads(text, s, at) && !IsMark(text[at]))
  {
    if SlashLeads(text, s, at + 1) {
      var k :| s <= k < at + 1 && text[k] == SLASH && forall m | k < m < at + 1 :: !IsMark(text[m]);
      if k < at { assert !IsMark(text[at]); }
    }
    if SlashLeads(text, s, at) && !IsMark(text[at]) {
      var k :| s <= k < at && text[k] == SLASH && forall m | k < m < at :: !IsMark(text[m]);
      assert forall m | k < m < at + 1 :: !IsMark(text[m]);
    }
  }

  /** `queryStart`: the first start in a run, or -1. */
  method QueryStart(letters: int -> bool, text: Text, start: nat, end: nat, lastPairMark: int, ghost cut: bool)
    returns (r: int)
    requires start <= end <= |text|
    requires forall q | start <= q < end :: lastPairMark > q <==> PairFollows(text, q, end) || (cut && end == |text|)
    ensures r == -1 ==> forall q :: !StartsQuery(letters, text, cut, start, end, q)
    ensures r != -1 ==> StartsQuery(letters, text, cut, start, end, r)
    ensures r != -1 ==> forall q | q < r :: !StartsQuery(letters, text, cut, start, end, q)
  {
    var afterSlash := false;
    var at := start;
    while at < end - 1
      invariant start <= at <= end && (start < end ==> at < end)
      invariant afterSlash <==> SlashLeads(text, start, at)
      invariant forall q | q < at :: !StartsQuery(letters, text, cut, start, end, q)
    {
      var code := text[at];
      SlashLeadsNext(text, start, at);
      if code == SLASH {
        afterSlash := true;
      } else if code == QUESTION || code == HASH {
        if afterSlash {
          return at;
        }
        if code == QUESTION && (lastPairMark > at || (at > start && FollowsPreceder(letters, text, at))) {
          return at;
        }
        afterSlash := false;
      }
      assert !StartsQuery(letters, text, cut, start, end, at);
      at := at + 1;
    }
    r := -1;
  }

  lemma RunUnique(text: Text, s: int, e: int, s': int, e': int, p: int)
    requires Run(text, s, e) && Run(text, s', e') && s <= p < e && s' <= p < e'
    ensures s == s' && e == e'
  {
    assert (s > 0 ==> IsWhitespace(text[s - 1])) && (s' > 0 ==> IsWhitespace(text[s' - 1]));
    assert (e < |text| ==> IsWhitespace(text[e])) && (e' < |text| ==> IsWhitespace(text[e']));
  }

  /** In a run, what is taken is what comes after its first start. */
  lemma TakenInRun(letters: int -> bool, text: Text, cut: bool, s: int, e: int, p: int)
    requires Run(text, s, e) && s <= p < e
    ensures QueryTaken(letters, text, cut, p) <==> exists q | q < p :: StartsQuery(letters, text, cut, s, e, q)
  {
    if QueryTaken(letters, text, cut, p) {
      var s', e', q :| Run(text, s', e') && q < p < e' && StartsQuery(letters, text, cut, s', e', q);
      RunUnique(text, s, e, s', e', p);
    }
  }

  lemma NotTakenAtWhitespace(letters: int -> bool, text: Text, cut: bool, p: int)
    requires 0 <= p < |text| && IsWhitespace(text[p])
    ensures !QueryTaken(letters, text, cut, p)
  {
  }

  // ----- queries: the list of ranges

  ghost predicate RangesOf(letters: int -> bool, text: Text, cut: bool, ranges: seq<Range>) {
    Apart(ranges) && Within(ranges, |text|) && forall p :: Covers(ranges, p) <==> QueryTaken(letters, text, cut, p)
  }

  /** The ranges of the runs before `at`, where no run goes on. */
  ghost predicate RangesBefore(letters: int -> bool, text: Text, cut: bool, ranges: seq<Range>, at: int) {
    && 0 <= at <= |text| && Apart(ranges)
    && (forall i | 0 <= i < |ranges| :: ranges[i].to <= at)
    && (0 < at < |text| ==> IsWhitespace(text[at - 1]) || IsWhitespace(text[at]))
    && (forall p | 0 <= p < at :: Covers(ranges, p) <==> QueryTaken(letters, text, cut, p))
  }

  lemma RunTaken(letters: int -> bool, text: Text, cut: bool, ranges: seq<Range>, s: int, e: int, query: int)
    requires Run(text, s, e) && RangesBefore(letters, text, cut, ranges, s)
    requires query == -1 ==> forall q :: !StartsQuery(letters, text, cut, s, e, q)
    requires query != -1 ==> StartsQuery(letters, text, cut, s, e, query)
    requires query != -1 ==> forall q | q < query :: !StartsQuery(letters, text, cut, s, e, q)
    ensures RangesBefore(letters, text, cut, if query == -1 then ranges else ranges + [Range(query + 1, e)], e)
  {
    var more := if query == -1 then ranges else ranges + [Range(query + 1, e)];
    forall p | 0 <= p < e ensures Covers(more, p) <==> QueryTaken(letters, text, cut, p) {
      RunTakenAt(letters, text, cut, ranges, s, e, query, p);
    }
  }

  lemma RunTakenAt(letters: int -> bool, text: Text, cut: bool, ranges: seq<Range>, s: int, e: int, query: int, p: int)
    requires Run(text, s, e) && RangesBefore(letters, text, cut, ranges, s) && 0 <= p < e
    requires query == -1 ==> forall q :: !StartsQuery(letters, text, cut, s, e, q)
    requires query != -1 ==> StartsQuery(letters, text, cut, s, e, query)
    requires query != -1 ==> forall q | q < query :: !StartsQuery(letters, text, cut, s, e, q)
    ensures Covers(if query == -1 then ranges else ranges + [Range(query + 1, e)], p)
            <==> QueryTaken(letters, text, cut, p)
  {
    if query != -1 { CoversAppend(ranges, Range(query + 1, e), p); }
    if s <= p { TakenInRun(letters, text, cut, s, e, p); }
  }

  lemma PairFollowsNext(text: Text, q: int, at: int)
    requires 0 <= q <= at < |text|
    ensures PairFollows(text, q, at + 1)
            <==> q < at && (PairFollows(text, q, at) || text[at] == EQUALS || text[at] == AMPERSAND)
  {
    if PairFollows(text, q, at) {
      var k :| q < k < at && (text[k] == EQUALS || text[k] == AMPERSAND);
      assert q < k < at + 1;
    }
  }

  /** `queryRanges`: run by run, from just after each query's mark to the end of its run. */
  method QueryRanges(letters: int -> bool, text: Text, cut: bool) returns (ranges: seq<Range>)
    ensures RangesOf(letters, text, cut, ranges)
  {
    ranges := [];
    var at := 0;
    while at < |text|
      invariant RangesBefore(letters, text, cut, ranges, at)
    {
      if IsWhitespace(text[at]) {
        NotTakenAtWhitespace(letters, text, cut, at);
        at := at + 1;
      } else {
        var start := at;
        var lastPairMark := -1;
        while at < |text| && !IsWhitespace(text[at])
          invariant start <= at <= |text| && forall i | start <= i < at :: !IsWhitespace(text[i])
          invariant lastPairMark < at
          invariant forall q | start <= q < at :: lastPairMark > q <==> PairFollows(text, q, at)
        {
          var next := at + 1;
          forall q | start <= q < next
            ensures PairFollows(text, q, next)
                    <==> q < at && (PairFollows(text, q, at) || text[at] == EQUALS || text[at] == AMPERSAND)
          {
            PairFollowsNext(text, q, at);
          }
          if text[at] == EQUALS || text[at] == AMPERSAND {
            lastPairMark := at;
          }
          at := next;
        }
        if cut && at == |text| {
          lastPairMark := at;
        }
        assert Run(text, start, at);
        var query := QueryStart(letters, text, start, at, lastPairMark, cut);
        RunTaken(letters, text, cut, ranges, start, at, query);
        if query != -1 {
          ranges := ranges + [Range(query + 1, at)];
        }
      }
    }
    forall p ensures Covers(ranges, p) <==> QueryTaken(letters, text, cut, p) {
    }
  }

  // ----- credentials: the rule

  predicate EndsUserInfo(c: CodeUnit) {
    c == AT_SIGN || c == SLASH || IsWhitespace(c)
  }

  /** Where the user-info from `u` ends: at the first `@`, `/` or whitespace, or the end of the text. */
  ghost predicate UserInfo(text: Text, u: int, e: int) {
    && 0 <= u <= e <= |text|
    && (forall i | u <= i < e :: !EndsUserInfo(text[i]))
    && (e < |text| ==> EndsUserInfo(text[e]))
  }

  /** What the user-info from `u` to `e` gives away at `p`: after its first colon, if an `@` ends it. */
  ghost predicate GivenAway(text: Text, cut: bool, u: int, e: int, p: int) {
    && 0 <= u <= p < e <= |text|
    && (if e == |text| then cut else text[e] == AT_SIGN && exists c | u <= c < p :: text[c] == COLON)
  }

  /** The rule at one `://`. */
  ghost predicate GivenAwayAt(text: Text, cut: bool, scheme: int, e: int, p: int) {
    StartsAt(text, SCHEME_END, scheme) && UserInfo(text, scheme + 3, e) && GivenAway(text, cut, scheme + 3, e, p)
  }

  /** The rule, evaluated at every `://` of the text. */
  ghost predicate CredentialTaken(text: Text, cut: bool, p: int) {
    exists scheme, e :: GivenAwayAt(text, cut, scheme, e, p)
  }

  // ----- credentials: the scan

  /** The rule at the schemes before `bound` alone. */
  ghost predicate TakenBefore(text: Text, cut: bool, bound: int, p: int) {
    exists scheme, e :: scheme < bound && GivenAwayAt(text, cut, scheme, e, p)
  }

  /** No `://` starts between one and the last character before its user-info ends. */
  lemma NoneSkipped(text: Text, scheme: int, e: int, other: int)
    requires StartsAt(text, SCHEME_END, scheme) && UserInfo(text, scheme + 3, e) && scheme < other < e - 1
    ensures !StartsAt(text, SCHEME_END, other)
  {
    SchemeChars(text, scheme);
    if StartsAt(text, SCHEME_END, other) { SchemeChars(text, other); }
  }

  lemma UserInfoUnique(text: Text, u: int, e: int, f: int)
    requires UserInfo(text, u, e) && UserInfo(text, u, f)
    ensures e == f
  {
    assert (e < |text| ==> EndsUserInfo(text[e])) && (f < |text| ==> EndsUserInfo(text[f]));
  }

  /** Moving past one `://` adds what it gives away, and nothing else. */
  lemma TakenNext(text: Text, cut: bool, scheme: int, e: int, bound: int, p: int)
    requires StartsAt(text, SCHEME_END, scheme) && UserInfo(text, scheme + 3, e) && scheme < bound
    requires forall i | scheme < i < bound :: !StartsAt(text, SCHEME_END, i)
    ensures TakenBefore(text, cut, bound, p) <==>
              TakenBefore(text, cut, scheme, p) || GivenAway(text, cut, scheme + 3, e, p)
  {
    if TakenBefore(text, cut, bound, p) {
      var s, f :| s < bound && GivenAwayAt(text, cut, s, f, p);
      if s == scheme { UserInfoUnique(text, s + 3, e, f); }
    }
    if TakenBefore(text, cut, scheme, p) {
      var s, f :| s < scheme && GivenAwayAt(text, cut, s, f, p);
      assert s < bound;
    }
    if GivenAway(text, cut, scheme + 3, e, p) {
      assert GivenAwayAt(text, cut, scheme, e, p);
    }
  }

  /** The inner scan: where the user-info ends, and where its first colon is, or -1. */
  method ScanUserInfo(text: Text, userInfo: nat) returns (end: nat, colon: int)
    requires userInfo <= |text|
    ensures UserInfo(text, userInfo, end)
    ensures colon == -1 ==> forall c | userInfo <= c < end :: text[c] != COLON
    ensures colon != -1 ==>
              userInfo <= colon < end && text[colon] == COLON && forall c | userInfo <= c < colon :: text[c] != COLON
  {
    colon := -1;
    end := userInfo;
    while end < |text|
      invariant userInfo <= end <= |text|
      invariant forall i | userInfo <= i < end :: !EndsUserInfo(text[i])
      invariant colon == -1 ==> forall c | userInfo <= c < end :: text[c] != COLON
      invariant colon != -1 ==>
                userInfo <= colon < end && text[colon] == COLON && forall c | userInfo <= c < colon :: text[c] != COLON
    {
      if EndsUserInfo(text[end]) {
        return;
      }
      if text[end] == COLON && colon == -1 {
        colon := end;
      }
      end := end + 1;
    }
  }

  /** The range one `://` adds, or none. */
  function CredentialRange(text: Text, cut: bool, userInfo: nat, end: nat, colon: int): seq<Range>
    requires userInfo <= end <= |text| && (colon == -1 || userInfo <= colon < end)
  {
    if end == |text| then (if cut && end > userInfo then [Range(userInfo, end)] else [])
    else if text[end] == AT_SIGN && colon != -1 && end > colon + 1 then [Range(colon + 1, end)]
    else []
  }

  lemma CredentialRangeCovers(text: Text, cut: bool, userInfo: nat, end: nat, colon: int, p: int)
    requires UserInfo(text, userInfo, end)
    requires colon == -1 ==> forall c | userInfo <= c < end :: text[c] != COLON
    requires colon != -1 ==>
               userInfo <= colon < end && text[colon] == COLON && forall c | userInfo <= c < colon :: text[c] != COLON
    ensures Covers(CredentialRange(text, cut, userInfo, end, colon), p) <==> GivenAway(text, cut, userInfo, end, p)
  {
    var rs := CredentialRange(text, cut, userInfo, end, colon);
    if rs != [] { assert Covers(rs, p) <==> rs[0].from <= p < rs[0].to; }
  }

  /** The ranges up to one `://` and the range it adds are those up to the next one that is looked at. */
  lemma CredentialsNext(text: Text, cut: bool, ranges: seq<Range>, scheme: int, end: nat, colon: int, bound: int,
                        p: int)
    requires StartsAt(text, SCHEME_END, scheme) && UserInfo(text, scheme + 3, end)
    requires colon == -1 ==> forall c | scheme + 3 <= c < end :: text[c] != COLON
    requires colon != -1 ==>
               && scheme + 3 <= colon < end && text[colon] == COLON
               && forall c | scheme + 3 <= c < colon :: text[c] != COLON
    requires scheme < bound && forall i | end - 1 <= i < bound :: !StartsAt(text, SCHEME_END, i)
    requires Covers(ranges, p) <==> TakenBefore(text, cut, scheme, p)
    ensures Covers(ranges + CredentialRange(text, cut, scheme + 3, end, colon), p) <==> TakenBefore(text, cut, bound, p)
  {
    var more := CredentialRange(text, cut, scheme + 3, end, colon);
    forall i | scheme < i < bound ensures !StartsAt(text, SCHEME_END, i) {
      if i < end - 1 { NoneSkipped(text, scheme, end, i); }
    }
    TakenNext(text, cut, scheme, end, bound, p);
    CredentialRangeCovers(text, cut, scheme + 3, end, colon, p);
    if more != [] {
      CoversAppend(ranges, more[0], p);
      assert more == [more[0]];
    } else {
      assert ranges + more == ranges;
    }
  }

  /** `credentialRanges`: from each `://`, skipping ahead to where its user-info ends. */
  method CredentialRanges(text: Text, cut: bool) returns (ranges: seq<Range>)
    ensures Apart(ranges) && Within(ranges, |text|)
    ensures forall p :: Covers(ranges, p) <==> CredentialTaken(text, cut, p)
  {
    ranges := [];
    var scheme := IndexOf(text, SCHEME_END, 0);
    while scheme != -1
      invariant scheme != -1 ==> StartsAt(text, SCHEME_END, scheme)
      invariant Apart(ranges) && Within(ranges, |text|)
      invariant scheme != -1 ==> forall i | 0 <= i < |ranges| :: ranges[i].to <= scheme + 1
      invariant forall p :: Covers(ranges, p) <==> TakenBefore(text, cut, if scheme == -1 then |text| else scheme, p)
      decreases if scheme == -1 then 0 else |text| - scheme
    {
      var userInfo := scheme + 3;
      SchemeChars(text, scheme);
      var end, colon := ScanUserInfo(text, userInfo);
      var more := CredentialRange(text, cut, userInfo, end, colon);
      var next := IndexOf(text, SCHEME_END, end - 1);
      if next != -1 { SchemeChars(text, next); }
      var bound := if next == -1 then |text| else next;
      forall p ensures Covers(ranges + more, p) <==> TakenBefore(text, cut, bound, p) {
        CredentialsNext(text, cut, ranges, scheme, end, colon, bound, p);
      }
      ranges := ranges + more;
      scheme := next;
    }
    forall p ensures TakenBefore(text, cut, |text|, p) <==> CredentialTaken(text, cut, p) {
    }
  }

  // ----- the source a JSON parser quotes

  /** ` is not valid JSON`. */
  const JSON_SOURCE_END: Text :=
    [0x20, 0x69, 0x73, 0x20, 0x6e, 0x6f, 0x74, 0x20, 0x76, 0x61, 0x6c, 0x69, 0x64, 0x20, 0x4a, 0x53, 0x4f, 0x4e]
  const DOTS: Text := [0x2e, 0x2e, 0x2e]
  const QUOTE_DOTS: Text := [0x22, 0x2e, 0x2e, 0x2e]

  /** The quote that closes the source before the phrase at `at`: right before it, or before its dots. */
  function ClosingQuote(text: Text, at: int): int
    requires 0 <= at <= |text|
  {
    if at >= 4 && StartsAt(text, QUOTE_DOTS, at - 4) then at - 4
    else if at >= 1 && text[at - 1] == QUOTE then at - 1
    else -1
  }

  /** A phrase at `at` closes a source opened at `open`. */
  ghost predicate ClosesWith(text: Text, phrase: Text, open: int, at: int) {
    StartsAt(text, phrase, at) && ClosingQuote(text, at) > open
  }

  ghost predicate Closes(text: Text, open: int, at: int) {
    ClosesWith(text, JSON_SOURCE_END, open, at)
  }

  /** Any occurrence before one that has a quote has its own quote earlier still: the phrase starts with a space. */
  lemma EarlierQuoteEarlier(text: Text, phrase: Text, at: int, other: int)
    requires phrase != [] && phrase[0] == 0x20
    requires StartsAt(text, phrase, at) && StartsAt(text, phrase, other)
    requires other < at && ClosingQuote(text, at) != -1
    ensures ClosingQuote(text, other) < ClosingQuote(text, at)
  {
    assert text[other..other + |phrase|][0] == text[other] == 0x20;
    if ClosingQuote(text, at) == at - 4 {
      var found := text[at - 4..at];
      assert found[1] == text[at - 3] && found[2] == text[at - 2] && found[3] == text[at - 1];
      assert other != at - 3 && other != at - 2 && other != at - 1;
    }
  }

  /** The walk back from the last occurrence of a phrase, leaving as soon as none earlier can close. */
  method LastClosing(text: Text, phrase: Text, open: nat) returns (at: int)
    requires phrase != [] && phrase[0] == 0x20
    ensures at == -1 ==> forall i :: !ClosesWith(text, phrase, open, i)
    ensures at != -1 ==> ClosesWith(text, phrase, open, at) && forall i | i > at :: !ClosesWith(text, phrase, open, i)
  {
    at := LastIndexOf(text, phrase, |text|);
    while at > open
      invariant at == -1 || StartsAt(text, phrase, at)
      invariant forall i | at < i :: !ClosesWith(text, phrase, open, i)
      decreases at
    {
      var quote := ClosingQuote(text, at);
      if quote > open {
        return;
      }
      if quote != -1 {
        forall i | i < at ensures !ClosesWith(text, phrase, open, i) {
          if StartsAt(text, phrase, i) { EarlierQuoteEarlier(text, phrase, at, i); }
        }
        return -1;
      }
      at := LastIndexOf(text, phrase, at - 1);
    }
    at := -1;
  }

  /** `jsonSourceEnd`: the end of the last phrase that closes. */
  method JsonSourceEnd(text: Text, open: nat) returns (end: int)
    ensures end == -1 ==> forall at :: !Closes(text, open, at)
    ensures end != -1 ==> Closes(text, open, end - |JSON_SOURCE_END|)
    ensures end != -1 ==> forall at | at > end - |JSON_SOURCE_END| :: !Closes(text, open, at)
  {
    var at := LastClosing(text, JSON_SOURCE_END, open);
    if at == -1 {
      forall i ensures !Closes(text, open, i) {}
      return -1;
    }
    end := at + |JSON_SOURCE_END|;
    forall i | i > at ensures !Closes(text, open, i) {}
  }

  /** What is replaced, and by what. */
  datatype Source = Source(from: nat, to: nat, put: Text)

  predicate FirstQuote(text: Text, open: int) {
    0 <= open < |text| && text[open] == QUOTE && forall i | 0 <= i < open :: text[i] != QUOTE
  }

  /** Where the source's quote starts: at the quote, or at the dots right before it. */
  function SourceFrom(text: Text, open: nat): nat {
    if open >= 3 && StartsAt(text, DOTS, open - 3) then open - 3 else open
  }

  /** What the JSON rule asks of a text: the quoted source from the first quote to the last phrase that closes it. */
  ghost predicate IsJsonSource(text: Text, cut: bool, source: Option<Source>) {
    match source
    case None => forall open | FirstQuote(text, open) :: !cut && forall at :: !Closes(text, open, at)
    case Some(s) =>
      exists open: nat :: FirstQuote(text, open) && s.from == SourceFrom(text, open) && open < s.to <= |text|
        && if cut then s.to == |text| && s.put == [QUOTE] + REDACTED_TEXT
           else && s.to >= |JSON_SOURCE_END| && Closes(text, open, s.to - |JSON_SOURCE_END|)
                && (forall at | at > s.to - |JSON_SOURCE_END| :: !Closes(text, open, at))
                && s.put == [QUOTE] + REDACTED_TEXT + [QUOTE] + JSON_SOURCE_END
  }

  /** `jsonSource`. */
  method JsonSource(text: Text, cut: bool) returns (source: Option<Source>)
    ensures IsJsonSource(text, cut, source)
  {
    var open := IndexOf(text, [QUOTE], 0);
    if open == -1 {
      forall i | 0 <= i < |text| ensures text[i] != QUOTE {
        assert !StartsAt(text, [QUOTE], i);
      }
      return None;
    }
    assert text[open..open + 1][0] == QUOTE;
    forall i | 0 <= i < open ensures text[i] != QUOTE {
      assert !StartsAt(text, [QUOTE], i);
    }
    assert FirstQuote(text, open);
    var from := SourceFrom(text, open);
    if cut {
      return Some(Source(from, |text|, [QUOTE] + REDACTED_TEXT));
    }
    var end := JsonSourceEnd(text, open);
    if end == -1 {
      return None;
    }
    source := Some(Source(from, end, [QUOTE] + REDACTED_TEXT + [QUOTE] + JSON_SOURCE_END));
  }
}
