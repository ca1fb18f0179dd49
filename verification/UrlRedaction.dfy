/** Every redaction rule on one text: the quoted JSON source first, then credentials and queries together. */
module UrlRedaction {
  import opened Texts
  import opened Ranges
  import opened UrlScan

  // ----- the text with its JSON source replaced

  /** The source to replace; where there is none, an empty one at the end of the text. */
  function SourceOrEnd(text: Text, source: Option<Source>): Source {
    match source
    case Some(s) => s
    case None => Source(|text|, |text|, [])
  }

  ghost predicate InText(s: Source, text: Text) {
    s.from <= s.to <= |text|
  }

  function Rest(text: Text, s: Source): Text
    requires s.from <= s.to <= |text|
  {
    text[..s.from] + s.put + text[s.to..]
  }

  /** How far what follows the source moves. */
  function Moved(s: Source): int {
    |s.put| - (s.to - s.from)
  }

  /** Where position `k` of the rest stood in the original text, unless it is the replacement's. */
  function Origin(s: Source, k: nat): Option<int> {
    if k < s.from then Some(k) else if k < s.from + |s.put| then None else Some(k - Moved(s))
  }

  /** Where a character outside the source stands in the rest. */
  function Place(s: Source, i: int): int {
    if i < s.from then i else i + Moved(s)
  }

  lemma RestAt(text: Text, s: Source, k: nat)
    requires InText(s, text) && k < |Rest(text, s)|
    ensures var i := Origin(s, k);
            i.Some? ==> (&& 0 <= i.value < |text| && Rest(text, s)[k] == text[i.value]
                         && !(s.from <= i.value < s.to) && Place(s, i.value) == k)
  {
  }

  // ----- moving ranges around the source

  /** One range as it stands in the rest: clipped to what is before the source, and after it. */
  function Shift(r: Range, s: Source): seq<Range>
    requires s.from <= s.to
  {
    (if r.from < s.from then [Range(r.from, if r.to < s.from then r.to else s.from)] else [])
    + (if r.to > s.to
       then [Range((if r.from < s.to then s.to else r.from) + Moved(s), r.to + Moved(s))] else [])
  }

  function ShiftAll(rs: seq<Range>, s: Source): seq<Range>
    requires s.from <= s.to
  {
    if rs == [] then [] else Shift(rs[0], s) + ShiftAll(rs[1..], s)
  }

  lemma CoversConcat(a: seq<Range>, b: seq<Range>, p: int)
    ensures Covers(a + b, p) <==> Covers(a, p) || Covers(b, p)
  {
    var all := a + b;
    if Covers(a, p) {
      var i :| 0 <= i < |a| && a[i].from <= p < a[i].to;
      assert all[i].from <= p < all[i].to;
    }
    if Covers(b, p) {
      var i :| 0 <= i < |b| && b[i].from <= p < b[i].to;
      assert all[|a| + i].from <= p < all[|a| + i].to;
    }
  }

  lemma ShiftCovers(r: Range, s: Source, k: nat)
    requires s.from <= s.to
    ensures Covers(Shift(r, s), k) <==> Origin(s, k).Some? && r.from <= Origin(s, k).value < r.to
  {
    var before := if r.from < s.from then [Range(r.from, if r.to < s.from then r.to else s.from)] else [];
    var after := if r.to > s.to
                 then [Range((if r.from < s.to then s.to else r.from) + Moved(s), r.to + Moved(s))] else [];
    CoversConcat(before, after, k);
    assert Covers(before, k) <==> k < s.from && r.from <= k < r.to by {
      if before != [] { assert Covers(before, k) <==> before[0].from <= k < before[0].to; }
    }
    assert Covers(after, k) <==> k >= s.to + Moved(s) && r.from <= k - Moved(s) < r.to by {
      if after != [] { assert Covers(after, k) <==> after[0].from <= k < after[0].to; }
    }
  }

  lemma {:induction false} ShiftAllCovers(rs: seq<Range>, s: Source, k: nat)
    requires s.from <= s.to
    ensures Covers(ShiftAll(rs, s), k) <==> Origin(s, k).Some? && Covers(rs, Origin(s, k).value)
  {
    if rs != [] {
      ShiftCovers(rs[0], s, k);
      ShiftAllCovers(rs[1..], s, k);
      CoversConcat(Shift(rs[0], s), ShiftAll(rs[1..], s), k);
      if Origin(s, k).Some? {
        CoversConcat([rs[0]], rs[1..], Origin(s, k).value);
        assert [rs[0]] + rs[1..] == rs;
        assert Covers([rs[0]], Origin(s, k).value) <==> rs[0].from <= Origin(s, k).value < rs[0].to;
      }
    }
  }

  /** Where a range that starts at or after index `b` may start in the rest. */
  function Lowest(b: int, s: Source): int {
    if b < s.from then b else (if b < s.to then s.to else b) + Moved(s)
  }

  ghost predicate StartFrom(rs: seq<Range>, bound: int) {
    forall i | 0 <= i < |rs| :: bound <= rs[i].from
  }

  lemma TailAfter(rs: seq<Range>, n: nat, b: int)
    requires rs != [] && Apart(rs) && Within(rs, n) && StartFrom(rs, b)
    ensures b <= rs[0].from < rs[0].to <= n
    ensures Apart(rs[1..]) && Within(rs[1..], n) && StartFrom(rs[1..], rs[0].to)
  {
    forall i | 0 <= i < |rs[1..]| ensures rs[0].to <= rs[1..][i].from {
      assert rs[0].to < rs[i + 1].from;
    }
  }

  lemma {:induction false} ShiftAllOrdered(rs: seq<Range>, s: Source, n: nat, b: int)
    requires s.from <= s.to <= n && Apart(rs) && Within(rs, n) && StartFrom(rs, b)
    ensures Ordered(ShiftAll(rs, s)) && Within(ShiftAll(rs, s), n + Moved(s))
            && StartFrom(ShiftAll(rs, s), Lowest(b, s))
  {
    if rs != [] {
      var first, rest := Shift(rs[0], s), ShiftAll(rs[1..], s);
      TailAfter(rs, n, b);
      ShiftAllOrdered(rs[1..], s, n, rs[0].to);
      ShiftOrdered(rs[0], s, n, b);
      OrderedConcat(first, rest, Lowest(b, s), Lowest(rs[0].to, s), n + Moved(s));
    }
  }

  lemma ShiftOrdered(r: Range, s: Source, n: nat, b: int)
    requires s.from <= s.to <= n && b <= r.from < r.to <= n
    ensures Ordered(Shift(r, s)) && Within(Shift(r, s), n + Moved(s))
    ensures forall i | 0 <= i < |Shift(r, s)| :: Lowest(b, s) <= Shift(r, s)[i].from <= Lowest(r.to, s)
  {
  }

  lemma OrderedConcat(a: seq<Range>, b: seq<Range>, low: int, bound: int, n: nat)
    requires Ordered(a) && Ordered(b) && Within(a, n) && Within(b, n) && low <= bound
    requires forall i | 0 <= i < |a| :: low <= a[i].from <= bound
    requires StartFrom(b, bound)
    ensures Ordered(a + b) && Within(a + b, n) && StartFrom(a + b, low)
  {
  }

  // ----- every rule together

  /** Whether a position of the rest is taken: by its query rule, or by a rule on the original text. */
  ghost predicate Taken(letters: int -> bool, text: Text, cut: bool, bearer: seq<Range>, s: Source, k: int)
    requires InText(s, text)
  {
    || QueryTaken(letters, Rest(text, s), cut, k)
    || (k >= 0 && Origin(s, k).Some?
        && (CredentialTaken(text, cut, Origin(s, k).value) || Covers(bearer, Origin(s, k).value)))
  }

  /** What is left of a text, as cells over the rest. */
  ghost function Left(letters: int -> bool, text: Text, cut: bool, bearer: seq<Range>, s: Source): seq<Cell>
    requires InText(s, text)
  {
    TakenCells(0, |Rest(text, s)|, k => Taken(letters, text, cut, bearer, s, k))
  }

  ghost predicate IsRedacted(letters: int -> bool, text: Text, cut: bool, bearer: seq<Range>, s: Source, r: Text)
    requires InText(s, text)
  {
    var cells := Left(letters, text, cut, bearer, s);
    Renders(Rest(text, s), cells) && r == Render(Rest(text, s), cells)
  }

  /** The replaced text is the position-by-position rule, rendered. */
  lemma ReplacedIsRule(text: Text, rs: seq<Range>, taken: int -> bool)
    requires Apart(rs) && Within(rs, |text|)
    requires forall p | 0 <= p < |text| :: taken(p) <==> Covers(rs, p)
    ensures Ahead(0, |text|, rs)
    ensures Renders(text, TakenCells(0, |text|, taken))
    ensures Replaced(text, 0, rs) == Render(text, TakenCells(0, |text|, taken))
  {
    ReplacedIsRendered(text, 0, rs);
    RangeCellsAreTaken(0, |text|, rs, taken);
  }

  lemma ShiftAllNext(rs: seq<Range>, s: Source, i: nat)
    requires s.from <= s.to && i < |rs|
    ensures ShiftAll(rs[i..], s) == Shift(rs[i], s) + ShiftAll(rs[i + 1..], s)
  {
    assert rs[i..][0] == rs[i] && rs[i..][1..] == rs[i + 1..];
  }

  /** The loop that moves the credential ranges to where they now stand. */
  method Outside(credentials: seq<Range>, s: Source) returns (outside: seq<Range>)
    requires s.from <= s.to
    ensures outside == ShiftAll(credentials, s)
  {
    outside := [];
    assert credentials[0..] == credentials;
    for i := 0 to |credentials|
      invariant ShiftAll(credentials, s) == outside + ShiftAll(credentials[i..], s)
    {
      ShiftAllNext(credentials, s, i);
      outside := outside + Shift(credentials[i], s);
    }
  }

  /** The text that every rule together leaves, around the one source the JSON rule finds. */
  ghost predicate RedactsAll(letters: int -> bool, text: Text, cut: bool, bearer: seq<Range>, r: Text) {
    exists source :: IsJsonSource(text, cut, source) && InText(SourceOrEnd(text, source), text)
      && IsRedacted(letters, text, cut, bearer, SourceOrEnd(text, source), r)
  }

  /** The JSON rule finds one source at most. */
  lemma SourceDetermined(text: Text, cut: bool, a: Option<Source>, b: Option<Source>)
    requires IsJsonSource(text, cut, a) && IsJsonSource(text, cut, b)
    ensures a == b
  {
    if a.Some? && b.Some? {
      var o: nat :| FirstQuote(text, o) && a.value.from == SourceFrom(text, o) && o < a.value.to <= |text|;
      forall q: nat | FirstQuote(text, q) ensures q == o {}
      if !cut {
        assert Closes(text, o, a.value.to - |JSON_SOURCE_END|) && Closes(text, o, b.value.to - |JSON_SOURCE_END|);
      }
    }
  }

  /** `redactAll`. `bearer` are the bearer tokens of the text, in order and apart. */
  method RedactAll(letters: int -> bool, text: Text, cut: bool, bearer: seq<Range>)
    returns (r: Text)
    requires Apart(bearer) && Within(bearer, |text|)
    ensures RedactsAll(letters, text, cut, bearer, r)
  {
    var source := JsonSource(text, cut);
    var credentials := CredentialRanges(text, cut);
    ApartOrdered(credentials);
    ApartOrdered(bearer);
    var all := UnionRanges(credentials, bearer);
    var s := SourceOrEnd(text, source);
    var rest := Rest(text, s);
    assert Within(all, |text|) by { CoveredWithin(all, |text|); }
    var outside := Outside(all, s);
    ShiftAllOrdered(all, s, |text|, 0);
    var queries := QueryRanges(letters, rest, cut);
    ApartOrdered(queries);
    var ranges := UnionRanges(outside, queries);
    forall k | 0 <= k ensures Covers(ranges, k) <==> Taken(letters, text, cut, bearer, s, k) {
      ShiftAllCovers(all, s, k);
    }
    CoveredWithin(ranges, |rest|);
    ReplacedIsRule(rest, ranges, k => Taken(letters, text, cut, bearer, s, k));
    r := RedactRanges(rest, ranges);
  }

  lemma CoveredWithin(rs: seq<Range>, n: nat)
    requires Apart(rs) && forall p :: Covers(rs, p) ==> p < n
    ensures Within(rs, n)
  {
    forall i | 0 <= i < |rs| ensures rs[i].to <= n {
      assert rs[i].from <= rs[i].to - 1 < rs[i].to;
      assert Covers(rs, rs[i].to - 1);
    }
  }

  // ----- where every character went

  /** An original character is in the output: a kept cell whose origin it is. */
  ghost predicate Survives(cells: seq<Cell>, s: Source, i: int) {
    exists c | 0 <= c < |cells| :: cells[c].Kept? && Origin(s, cells[c].at) == Some(i)
  }

  /**
   * What reaches the output: exactly the characters outside the quoted source that are in no
   * credential, no bearer token and no query of the rewritten text; each once, and in order.
   */
  lemma Provenance(letters: int -> bool, text: Text, cut: bool, bearer: seq<Range>, s: Source)
    requires InText(s, text)
    ensures var cells := Left(letters, text, cut, bearer, s);
            && (forall i :: Survives(cells, s, i) <==>
                  && 0 <= i < |text| && !(s.from <= i < s.to)
                  && !CredentialTaken(text, cut, i) && !Covers(bearer, i)
                  && !QueryTaken(letters, Rest(text, s), cut, Place(s, i)))
            && (forall c, d | 0 <= c < d < |cells| && cells[c].Kept? && cells[d].Kept? :: cells[c].at < cells[d].at)
  {
    var rest := Rest(text, s);
    var taken := k => Taken(letters, text, cut, bearer, s, k);
    var cells := Left(letters, text, cut, bearer, s);
    TakenCellsKeep(0, |rest|, taken);
    forall i ensures Survives(cells, s, i) <==>
                  && 0 <= i < |text| && !(s.from <= i < s.to)
                  && !CredentialTaken(text, cut, i) && !Covers(bearer, i)
                  && !QueryTaken(letters, rest, cut, Place(s, i))
    {
      if Survives(cells, s, i) {
        var c :| 0 <= c < |cells| && cells[c].Kept? && Origin(s, cells[c].at) == Some(i);
        var k := cells[c].at;
        assert Kept(k) in cells;
        RestAt(text, s, k);
      }
      if 0 <= i < |text| && !(s.from <= i < s.to) && !Taken(letters, text, cut, bearer, s, Place(s, i)) {
        assert Kept(Place(s, i)) in cells;
      }
    }
  }
}
