/**
 * Lists of index ranges to take out of a text, their union, and the text with each replaced by
 * one mark. What is left of a text is kept as cells, so that every character has its origin.
 */
module Ranges {
  import opened Texts

  /** The indices from `from` up to, not including, `to`. */
  datatype Range = Range(from: nat, to: nat)

  predicate Covers(rs: seq<Range>, p: int) {
    exists i | 0 <= i < |rs| :: rs[i].from <= p < rs[i].to
  }

  /** None empty, none starting before the one ahead of it. */
  ghost predicate Ordered(rs: seq<Range>) {
    && (forall i | 0 <= i < |rs| :: rs[i].from < rs[i].to)
    && (forall i, j | 0 <= i < j < |rs| :: rs[i].from <= rs[j].from)
  }

  /** None empty, and each ends before the next one starts, with a position between them. */
  ghost predicate Apart(rs: seq<Range>) {
    && (forall i | 0 <= i < |rs| :: rs[i].from < rs[i].to)
    && (forall i, j | 0 <= i < j < |rs| :: rs[i].to < rs[j].from)
  }

  ghost predicate Within(rs: seq<Range>, n: nat) {
    forall i | 0 <= i < |rs| :: rs[i].to <= n
  }

  lemma ApartOrdered(rs: seq<Range>)
    requires Apart(rs)
    ensures Ordered(rs)
  {
    forall i, j | 0 <= i < j < |rs| ensures rs[i].from <= rs[j].from {
      assert rs[i].from < rs[i].to;
    }
  }

  // ----- the union

  /** What one more range does to a union built so far. */
  function Joined(union: seq<Range>, r: Range): seq<Range> {
    var n := |union| - 1;
    if union != [] && r.from <= union[n].to
    then union[n := union[n].(to := if union[n].to < r.to then r.to else union[n].to)]
    else union + [r]
  }

  lemma CoversAppend(rs: seq<Range>, r: Range, p: int)
    ensures Covers(rs + [r], p) <==> Covers(rs, p) || r.from <= p < r.to
  {
    var all := rs + [r];
    if Covers(rs, p) {
      var i :| 0 <= i < |rs| && rs[i].from <= p < rs[i].to;
      assert all[i].from <= p < all[i].to;
    }
    if r.from <= p < r.to {
      assert all[|rs|].from <= p < all[|rs|].to;
    }
  }

  lemma JoinedCovers(union: seq<Range>, r: Range, p: int)
    requires union != [] ==> union[|union| - 1].from <= r.from
    ensures Covers(Joined(union, r), p) <==> Covers(union, p) || r.from <= p < r.to
  {
    var n := |union| - 1;
    if union != [] && r.from <= union[n].to {
      var merged := Joined(union, r);
      assert union == union[..n] + [union[n]] && merged == union[..n] + [merged[n]];
      CoversAppend(union[..n], union[n], p);
      CoversAppend(union[..n], merged[n], p);
    } else {
      CoversAppend(union, r, p);
    }
  }

  lemma JoinedApart(union: seq<Range>, r: Range)
    requires Apart(union) && r.from < r.to
    requires union != [] ==> union[|union| - 1].from <= r.from
    ensures Apart(Joined(union, r)) && Joined(union, r) != []
    ensures Joined(union, r)[|Joined(union, r)| - 1].from <= r.from
  {
    var n := |union| - 1;
    var joined := Joined(union, r);
    if union == [] || r.from > union[n].to {
      forall i | 0 <= i < |union| ensures union[i].to < r.from {
        if i < n { assert union[i].to < union[n].from; }
      }
    }
  }

  /** `unionRanges`: two ordered lists merged, overlapping and touching ranges joined. */
  method UnionRanges(a: seq<Range>, b: seq<Range>) returns (union: seq<Range>)
    requires Ordered(a) && Ordered(b)
    ensures Apart(union)
    ensures forall p :: Covers(union, p) <==> Covers(a, p) || Covers(b, p)
  {
    union := [];
    var i, j := 0, 0;
    while i < |a| || j < |b|
      invariant 0 <= i <= |a| && 0 <= j <= |b|
      invariant Apart(union)
      invariant union != [] && i < |a| ==> union[|union| - 1].from <= a[i].from
      invariant union != [] && j < |b| ==> union[|union| - 1].from <= b[j].from
      invariant forall p :: Covers(union, p) <==> Covers(a[..i], p) || Covers(b[..j], p)
      decreases |a| - i + |b| - j
    {
      var r;
      ghost var i', j' := i, j;
      if j >= |b| || (i < |a| && a[i].from <= b[j].from) {
        r := a[i];
        i := i + 1;
        assert a[..i] == a[..i'] + [r];
      } else {
        r := b[j];
        j := j + 1;
        assert b[..j] == b[..j'] + [r];
      }
      forall p ensures Covers(Joined(union, r), p) <==> Covers(a[..i], p) || Covers(b[..j], p) {
        JoinedCovers(union, r, p);
        if i' < i { CoversAppend(a[..i'], r, p); } else { CoversAppend(b[..j'], r, p); }
      }
      JoinedApart(union, r);
      union := Joined(union, r);
    }
    assert a[..i] == a && b[..j] == b;
  }

  /** Ranges kept apart are determined by the positions they cover. */
  lemma {:induction false} ApartDetermined(a: seq<Range>, b: seq<Range>)
    requires Apart(a) && Apart(b)
    requires forall p :: Covers(a, p) <==> Covers(b, p)
    ensures a == b
  {
    if a != [] {
      assert Covers(a, a[0].from);
      assert Covers(b, a[0].from);
    }
    if b != [] {
      assert Covers(b, b[0].from);
      assert Covers(a, b[0].from);
    }
    if a != [] && b != [] {
      FirstAgree(a, b);
      forall p ensures Covers(a[1..], p) <==> Covers(b[1..], p) {
        CoversTail(a, p);
        CoversTail(b, p);
      }
      ApartDetermined(a[1..], b[1..]);
      assert a == [a[0]] + a[1..] && b == [b[0]] + b[1..];
    }
  }

  lemma CoversTail(a: seq<Range>, p: int)
    requires Apart(a) && a != []
    ensures Covers(a[1..], p) <==> Covers(a, p) && p > a[0].to
  {
    if Covers(a[1..], p) {
      var i :| 0 <= i < |a[1..]| && a[1..][i].from <= p < a[1..][i].to;
      assert a[i + 1].from <= p < a[i + 1].to;
    }
    if Covers(a, p) && p > a[0].to {
      var i :| 0 <= i < |a| && a[i].from <= p < a[i].to;
      assert a[1..][i - 1].from <= p < a[1..][i - 1].to;
    }
  }

  lemma CoversFirst(a: seq<Range>, p: int)
    requires Apart(a) && a != [] && p <= a[0].to
    ensures Covers(a, p) <==> a[0].from <= p < a[0].to
  {
    assert forall i | 0 < i < |a| :: a[0].to < a[i].from;
    if a[0].from <= p < a[0].to {
      assert Covers(a, p);
    }
  }

  lemma FirstAgree(a: seq<Range>, b: seq<Range>)
    requires Apart(a) && Apart(b) && a != [] && b != []
    requires forall p :: Covers(a, p) <==> Covers(b, p)
    ensures a[0] == b[0]
  {
    FirstBounds(a, b);
    FirstBounds(b, a);
  }

  lemma FirstBounds(a: seq<Range>, b: seq<Range>)
    requires Apart(a) && Apart(b) && a != [] && b != []
    requires forall p :: Covers(a, p) <==> Covers(b, p)
    ensures b[0].from <= a[0].from && b[0].to <= a[0].to
  {
    CoversFirst(a, a[0].from);
    CoversFirst(a, a[0].to);
    forall p | p <= b[0].to ensures Covers(b, p) <==> b[0].from <= p < b[0].to {
      CoversFirst(b, p);
    }
  }

  // ----- what is left of a text

  /** One cell of a redacted text: a character kept, by its index, or a mark. */
  datatype Cell = Kept(at: nat) | Mark

  const REDACTED_TEXT: Text := [0x5b, 0x52, 0x45, 0x44, 0x41, 0x43, 0x54, 0x45, 0x44, 0x5d]

  function KeptRun(from: nat, to: nat): (cells: seq<Cell>)
    requires from <= to
    ensures |cells| == to - from && forall i | 0 <= i < |cells| :: cells[i] == Kept(from + i)
  {
    seq(to - from, i requires 0 <= i < to - from => Kept(from + i))
  }

  /** Ranges that stand, apart, from `copied` on in a text of length `n`. */
  ghost predicate Ahead(copied: nat, n: nat, rs: seq<Range>) {
    copied <= n && Apart(rs) && Within(rs, n) && (rs != [] ==> copied <= rs[0].from)
  }

  lemma AheadTail(copied: nat, n: nat, rs: seq<Range>)
    requires Ahead(copied, n, rs) && rs != []
    ensures copied <= rs[0].from < rs[0].to <= n && Ahead(rs[0].to, n, rs[1..])
    ensures |rs| > 1 ==> rs[0].to < rs[1].from
  {
  }

  /** What a replacement by ranges leaves, from `copied` on: runs kept, and a mark for each range. */
  ghost function RangeCells(copied: nat, n: nat, rs: seq<Range>): seq<Cell>
    requires Ahead(copied, n, rs)
    decreases |rs|
  {
    if rs == [] then KeptRun(copied, n)
    else
      AheadTail(copied, n, rs);
      KeptRun(copied, rs[0].from) + [Mark] + RangeCells(rs[0].to, n, rs[1..])
  }

  /** The rule, position by position: a taken position is dropped, a run of them leaves one mark. */
  ghost function TakenCells(at: nat, n: nat, taken: int -> bool): seq<Cell>
    requires at <= n
    decreases n - at
  {
    if at == n then []
    else (if !taken(at) then [Kept(at)] else if at > 0 && taken(at - 1) then [] else [Mark])
         + TakenCells(at + 1, n, taken)
  }

  function Render(text: Text, cells: seq<Cell>): Text
    requires forall i | 0 <= i < |cells| && cells[i].Kept? :: cells[i].at < |text|
  {
    if cells == [] then []
    else (match cells[0] case Kept(at) => [text[at]] case Mark => REDACTED_TEXT) + Render(text, cells[1..])
  }

  ghost predicate Renders(text: Text, cells: seq<Cell>) {
    forall i | 0 <= i < |cells| && cells[i].Kept? :: cells[i].at < |text|
  }

  lemma {:induction false} RenderAppend(text: Text, a: seq<Cell>, b: seq<Cell>)
    requires Renders(text, a) && Renders(text, b)
    ensures Renders(text, a + b) && Render(text, a + b) == Render(text, a) + Render(text, b)
  {
    assert Renders(text, a + b);
    if a == [] {
      assert a + b == b;
    } else {
      RenderAppend(text, a[1..], b);
      assert (a + b)[1..] == a[1..] + b;
    }
  }

  lemma {:induction false} RenderKept(text: Text, from: nat, end: nat)
    requires from <= end <= |text|
    ensures Render(text, KeptRun(from, end)) == text[from..end]
    decreases end - from
  {
    if from < end {
      RenderKept(text, from + 1, end);
      assert KeptRun(from, end)[1..] == KeptRun(from + 1, end);
      assert text[from..end] == [text[from]] + text[from + 1..end];
    }
  }

  /** The text from `copied` on, each range replaced. */
  ghost function Replaced(text: Text, copied: nat, rs: seq<Range>): Text
    requires Ahead(copied, |text|, rs)
    decreases |rs|
  {
    if rs == [] then text[copied..]
    else
      AheadTail(copied, |text|, rs);
      text[copied..rs[0].from] + REDACTED_TEXT + Replaced(text, rs[0].to, rs[1..])
  }

  /** `redactRanges`: each range of the text replaced by the mark. */
  method RedactRanges(text: Text, ranges: seq<Range>) returns (r: Text)
    requires Ahead(0, |text|, ranges)
    ensures r == Replaced(text, 0, ranges)
  {
    var redacted: Text := [];
    var copied: nat := 0;
    assert ranges[0..] == ranges;
    for i := 0 to |ranges|
      invariant Ahead(copied, |text|, ranges[i..])
      invariant Replaced(text, 0, ranges) == redacted + Replaced(text, copied, ranges[i..])
    {
      ReplacedStep(text, copied, ranges, i, redacted);
      redacted := redacted + text[copied..ranges[i].from] + REDACTED_TEXT;
      copied := ranges[i].to;
    }
    r := redacted + text[copied..];
  }

  lemma ReplacedStep(text: Text, copied: nat, ranges: seq<Range>, i: nat, redacted: Text)
    requires i < |ranges| && Ahead(copied, |text|, ranges[i..])
    ensures copied <= ranges[i].from < ranges[i].to <= |text| && Ahead(ranges[i].to, |text|, ranges[i + 1..])
    ensures redacted + Replaced(text, copied, ranges[i..])
            == redacted + text[copied..ranges[i].from] + REDACTED_TEXT + Replaced(text, ranges[i].to, ranges[i + 1..])
  {
    var rs := ranges[i..];
    AheadTail(copied, |text|, rs);
    assert rs[0] == ranges[i] && rs[1..] == ranges[i + 1..];
    GroupFour(redacted, text[copied..rs[0].from], REDACTED_TEXT, Replaced(text, rs[0].to, rs[1..]));
  }

  /** The replaced text is its cells, rendered. */
  lemma {:induction false} ReplacedIsRendered(text: Text, copied: nat, rs: seq<Range>)
    requires Ahead(copied, |text|, rs)
    ensures Renders(text, RangeCells(copied, |text|, rs))
    ensures Replaced(text, copied, rs) == Render(text, RangeCells(copied, |text|, rs))
    decreases |rs|
  {
    if rs == [] {
      RenderKept(text, copied, |text|);
    } else {
      AheadTail(copied, |text|, rs);
      ReplacedIsRendered(text, rs[0].to, rs[1..]);
      RenderStep(text, copied, rs[0], RangeCells(rs[0].to, |text|, rs[1..]));
    }
  }

  lemma RenderStep(text: Text, copied: nat, range: Range, rest: seq<Cell>)
    requires copied <= range.from < range.to <= |text| && Renders(text, rest)
    ensures Renders(text, KeptRun(copied, range.from) + [Mark] + rest)
    ensures Render(text, KeptRun(copied, range.from) + [Mark] + rest)
            == text[copied..range.from] + REDACTED_TEXT + Render(text, rest)
  {
    var run := KeptRun(copied, range.from);
    RenderKept(text, copied, range.from);
    RenderAppend(text, run, [Mark]);
    assert Render(text, [Mark]) == REDACTED_TEXT + Render(text, []);
    RenderAppend(text, run + [Mark], rest);
  }

  // ----- ranges refine the rule

  lemma {:induction false} TakenCellsUntaken(at: nat, end: nat, n: nat, taken: int -> bool)
    requires at <= end <= n && forall p | at <= p < end :: !taken(p)
    ensures TakenCells(at, n, taken) == KeptRun(at, end) + TakenCells(end, n, taken)
    decreases end - at
  {
    if at < end {
      TakenCellsUntaken(at + 1, end, n, taken);
      assert KeptRun(at, end) == [Kept(at)] + KeptRun(at + 1, end);
    } else {
      assert KeptRun(at, end) == [];
    }
  }

  lemma {:induction false} TakenCellsTaken(at: nat, end: nat, n: nat, taken: int -> bool)
    requires 0 < at <= end <= n && forall p | at - 1 <= p < end :: taken(p)
    ensures TakenCells(at, n, taken) == TakenCells(end, n, taken)
    decreases end - at
  {
    if at < end {
      TakenCellsTaken(at + 1, end, n, taken);
    }
  }

  lemma TakenCellsRange(copied: nat, r: Range, n: nat, taken: int -> bool)
    requires copied <= r.from < r.to <= n
    requires forall p | copied <= p < r.from :: !taken(p)
    requires forall p | r.from <= p < r.to :: taken(p)
    requires copied == r.from > 0 ==> !taken(copied - 1)
    ensures TakenCells(copied, n, taken) == KeptRun(copied, r.from) + [Mark] + TakenCells(r.to, n, taken)
  {
    TakenCellsUntaken(copied, r.from, n, taken);
    TakenCellsTaken(r.from + 1, r.to, n, taken);
    assert TakenCells(r.from, n, taken) == [Mark] + TakenCells(r.to, n, taken);
    Group(KeptRun(copied, r.from), [Mark], TakenCells(r.to, n, taken));
  }

  /** Replacing ranges that cover the taken positions is the position-by-position rule. */
  lemma {:induction false} RangeCellsAreTaken(copied: nat, n: nat, rs: seq<Range>, taken: int -> bool)
    requires Ahead(copied, n, rs)
    requires rs != [] && copied == rs[0].from && copied > 0 ==> !taken(copied - 1)
    requires forall p | copied <= p < n :: taken(p) <==> Covers(rs, p)
    ensures RangeCells(copied, n, rs) == TakenCells(copied, n, taken)
    decreases |rs|
  {
    if rs == [] {
      TakenCellsUntaken(copied, n, n, taken);
    } else {
      var r := rs[0];
      AheadTail(copied, n, rs);
      forall p | copied <= p <= r.to && p < n ensures taken(p) <==> r.from <= p < r.to {
        CoversFirst(rs, p);
      }
      TakenCellsRange(copied, r, n, taken);
      forall p | r.to <= p < n ensures taken(p) <==> Covers(rs[1..], p) {
        CoversTail(rs, p);
      }
      RangeCellsAreTaken(r.to, n, rs[1..], taken);
    }
  }

  /** What the rule keeps: every untaken position, once and in order. */
  lemma {:induction false} TakenCellsKeep(at: nat, n: nat, taken: int -> bool)
    requires at <= n
    ensures var cells := TakenCells(at, n, taken);
            && (forall p: nat :: Kept(p) in cells <==> at <= p < n && !taken(p))
            && (forall i, j | 0 <= i < j < |cells| && cells[i].Kept? && cells[j].Kept? :: cells[i].at < cells[j].at)
    decreases n - at
  {
    if at < n {
      TakenCellsKeep(at + 1, n, taken);
    }
  }
}
