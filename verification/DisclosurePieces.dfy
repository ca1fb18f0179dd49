/** The pieces of a token sequence: the longest runs of its characters, each with the conditions around it. */
module DisclosurePieces {
  import opened Texts
  import opened Disclosure
  import opened DisclosureProofs

  /** A token that consumes nothing and says nothing. */
  predicate Skipped(t: Token) {
    t.Zero? || t.Group?
  }

  /** No character goes on into position `a`: nothing, or some condition or split, comes before it. */
  ghost predicate Opens(tokens: seq<Token>, a: nat)
    requires a <= |tokens|
  {
    a == 0 || if Skipped(tokens[a - 1]) then Opens(tokens, a - 1) else !tokens[a - 1].Char?
  }

  /** A condition of a kind comes before position `a`, with no character and no split after it. */
  ghost predicate HeldBefore(tokens: seq<Token>, a: nat, kind: Token)
    requires a <= |tokens|
  {
    a > 0 && (tokens[a - 1] == kind
              || (!tokens[a - 1].Char? && !tokens[a - 1].Split? && HeldBefore(tokens, a - 1, kind)))
  }

  /** The characters from `a` on, up to `b`. */
  ghost predicate CharsUntil(tokens: seq<Token>, a: nat, b: nat) {
    && a < b <= |tokens| && tokens[a].Char?
    && forall k | a <= k < b :: tokens[k].Char? || Skipped(tokens[k])
  }

  /** The longest run of characters from `a` on: what ends it is neither a character nor skipped. */
  ghost predicate IsRun(tokens: seq<Token>, a: nat, b: nat) {
    && CharsUntil(tokens, a, b) && Opens(tokens, a)
    && (b < |tokens| ==> !tokens[b].Char? && !Skipped(tokens[b]))
  }

  /** The characters of a sequence, in order. */
  function CharsOf(tokens: seq<Token>): Text {
    if tokens == [] then []
    else
      var last := tokens[|tokens| - 1];
      CharsOf(tokens[..|tokens| - 1]) + if last.Char? then [last.c] else []
  }

  ghost function RunPiece(tokens: seq<Token>, a: nat, b: nat): Piece
    requires a <= b <= |tokens|
  {
    Piece(CharsOf(tokens[a..b]),
          HeldBefore(tokens, a, Boundary), b < |tokens| && tokens[b] == Boundary,
          HeldBefore(tokens, a, Wordless(true)), b < |tokens| && tokens[b] == Wordless(false))
  }

  /** A piece of a run that was closed before position `n`. */
  ghost predicate ClosedBefore(tokens: seq<Token>, n: nat, a: nat, b: nat, p: Piece) {
    b < n && IsRun(tokens, a, b) && p == RunPiece(tokens, a, b)
  }

  ghost predicate Closed(tokens: seq<Token>, n: nat, p: Piece) {
    exists a, b :: ClosedBefore(tokens, n, a, b, p)
  }

  /** The run being read at position `n` began at `a`. */
  ghost predicate OpenSince(tokens: seq<Token>, n: nat, r: Reading, a: nat) {
    && CharsUntil(tokens, a, n) && Opens(tokens, a) && r.text == CharsOf(tokens[a..n])
    && r.before == HeldBefore(tokens, a, Boundary) && r.wordless == HeldBefore(tokens, a, Wordless(true))
  }

  ghost predicate ReadUpTo(tokens: seq<Token>, n: nat, r: Reading) {
    && n <= |tokens|
    && r.pending == HeldBefore(tokens, n, Boundary) && r.pendingWordless == HeldBefore(tokens, n, Wordless(true))
    && (r.text == [] <==> Opens(tokens, n))
    && (r.text != [] ==> exists a :: OpenSince(tokens, n, r, a))
    && forall p :: p in r.pieces <==> Closed(tokens, n, p)
  }

  lemma {:induction false} NoneInside(tokens: seq<Token>, a: nat, b: nat, d: nat)
    requires CharsUntil(tokens, a, b) && a < d <= b && Opens(tokens, d)
    ensures false
  {
    if Skipped(tokens[d - 1]) { NoneInside(tokens, a, b, d - 1); }
  }

  lemma RunsEndApart(tokens: seq<Token>, a: nat, d: nat, b: nat)
    requires CharsUntil(tokens, a, b) && Opens(tokens, a) && CharsUntil(tokens, d, b) && Opens(tokens, d)
    ensures a == d
  {
    if a < d { NoneInside(tokens, a, b, d); }
    if d < a { NoneInside(tokens, d, b, a); }
  }

  lemma CharsNext(tokens: seq<Token>, a: nat, n: nat)
    requires a <= n < |tokens|
    ensures CharsOf(tokens[a..n + 1]) == CharsOf(tokens[a..n]) + if tokens[n].Char? then [tokens[n].c] else []
  {
    assert tokens[a..n + 1][..n - a] == tokens[a..n];
  }

  // ----- one token

  lemma CharRead(tokens: seq<Token>, n: nat, r: Reading)
    requires n < |tokens| && tokens[n].Char? && ReadUpTo(tokens, n, r)
    ensures ReadUpTo(tokens, n + 1, ReadToken(r, tokens[n]))
  {
    var next := ReadToken(r, tokens[n]);
    if r.text == [] {
      CharsNext(tokens, n, n);
      assert CharsOf(tokens[n..n]) == [];
      assert OpenSince(tokens, n + 1, next, n);
    } else {
      var a :| OpenSince(tokens, n, r, a);
      CharsNext(tokens, a, n);
      assert OpenSince(tokens, n + 1, next, a);
    }
    NoneClosedBy(tokens, n);
  }

  /** A token that ends no run. */
  lemma NoneClosedBy(tokens: seq<Token>, n: nat)
    requires n < |tokens| && (tokens[n].Char? || Skipped(tokens[n]))
    ensures forall p :: Closed(tokens, n + 1, p) <==> Closed(tokens, n, p)
  {
    forall p ensures Closed(tokens, n + 1, p) <==> Closed(tokens, n, p) {
      if Closed(tokens, n + 1, p) {
        var a, b :| ClosedBefore(tokens, n + 1, a, b, p);
        assert ClosedBefore(tokens, n, a, b, p);
      }
      if Closed(tokens, n, p) {
        var a, b :| ClosedBefore(tokens, n, a, b, p);
        assert ClosedBefore(tokens, n + 1, a, b, p);
      }
    }
  }

  lemma SkipRead(tokens: seq<Token>, n: nat, r: Reading)
    requires n < |tokens| && Skipped(tokens[n]) && ReadUpTo(tokens, n, r)
    ensures ReadUpTo(tokens, n + 1, ReadToken(r, tokens[n]))
  {
    if r.text != [] {
      var a :| OpenSince(tokens, n, r, a);
      CharsNext(tokens, a, n);
      assert OpenSince(tokens, n + 1, r, a);
    }
    NoneClosedBy(tokens, n);
  }

  predicate Closes(t: Token) {
    !t.Char? && !Skipped(t)
  }

  /** The piece that a closing token makes, if a run is being read. */
  lemma PieceClosed(tokens: seq<Token>, n: nat, r: Reading, p: Piece)
    requires n < |tokens| && Closes(tokens[n]) && ReadUpTo(tokens, n, r)
    ensures p in Close(r, tokens[n] == Boundary, tokens[n] == Wordless(false)).pieces <==>
            Closed(tokens, n + 1, p)
  {
    var next := Close(r, tokens[n] == Boundary, tokens[n] == Wordless(false));
    if r.text == [] {
      if Closed(tokens, n + 1, p) {
        var a, b :| ClosedBefore(tokens, n + 1, a, b, p);
        if b == n { NoneInside(tokens, a, n, n); }
        assert ClosedBefore(tokens, n, a, b, p);
      }
    } else {
      var a :| OpenSince(tokens, n, r, a);
      var made := RunPiece(tokens, a, n);
      assert next.pieces == r.pieces + [made];
      assert ClosedBefore(tokens, n + 1, a, n, made);
      if Closed(tokens, n + 1, p) {
        var d, b :| ClosedBefore(tokens, n + 1, d, b, p);
        if b == n { RunsEndApart(tokens, a, d, n); }
        assert p == made || ClosedBefore(tokens, n, d, b, p);
      }
    }
    if p in r.pieces {
      var a, b :| ClosedBefore(tokens, n, a, b, p);
      assert ClosedBefore(tokens, n + 1, a, b, p);
    }
  }

  lemma CloseRead(tokens: seq<Token>, n: nat, r: Reading)
    requires n < |tokens| && Closes(tokens[n]) && ReadUpTo(tokens, n, r)
    ensures ReadUpTo(tokens, n + 1, ReadToken(r, tokens[n]))
  {
    forall p ensures p in ReadToken(r, tokens[n]).pieces <==> Closed(tokens, n + 1, p) {
      PieceClosed(tokens, n, r, p);
    }
  }

  lemma TokenRead(tokens: seq<Token>, n: nat, r: Reading)
    requires n < |tokens| && ReadUpTo(tokens, n, r)
    ensures ReadUpTo(tokens, n + 1, ReadToken(r, tokens[n]))
  {
    if tokens[n].Char? {
      CharRead(tokens, n, r);
    } else if Skipped(tokens[n]) {
      SkipRead(tokens, n, r);
    } else {
      CloseRead(tokens, n, r);
    }
  }

  lemma {:induction false} AllRead(tokens: seq<Token>, n: nat, r: Reading)
    requires n <= |tokens| && ReadUpTo(tokens, n, r)
    ensures ReadUpTo(tokens, |tokens|, ReadTokens(r, tokens[n..]))
    decreases |tokens| - n
  {
    if n < |tokens| {
      TokenRead(tokens, n, r);
      AllRead(tokens, n + 1, ReadToken(r, tokens[n]));
      assert tokens[n..][1..] == tokens[n + 1..];
    }
  }

  lemma LastPiece(tokens: seq<Token>, r: Reading, p: Piece)
    requires ReadUpTo(tokens, |tokens|, r)
    ensures p in Close(r, false, false).pieces <==>
            exists a, b :: IsRun(tokens, a, b) && p == RunPiece(tokens, a, b)
  {
    var n := |tokens|;
    if r.text != [] {
      var a :| OpenSince(tokens, n, r, a);
      var made := RunPiece(tokens, a, n);
      assert IsRun(tokens, a, n) && Close(r, false, false).pieces == r.pieces + [made];
      forall d: nat, b: nat | IsRun(tokens, d, b) && p == RunPiece(tokens, d, b)
        ensures p == made || ClosedBefore(tokens, n, d, b, p)
      {
        if b == n { RunsEndApart(tokens, a, d, n); }
      }
    } else {
      forall d: nat, b: nat | IsRun(tokens, d, b) && p == RunPiece(tokens, d, b)
        ensures ClosedBefore(tokens, n, d, b, p)
      {
        if b == n { NoneInside(tokens, d, n, n); }
      }
    }
    if p in r.pieces {
      var a, b :| ClosedBefore(tokens, n, a, b, p);
    }
  }

  /** The pieces are exactly the longest runs of characters, each with the conditions right around it. */
  lemma PiecesAreRuns(tokens: seq<Token>, p: Piece)
    ensures p in Pieces(tokens) <==> exists a, b :: IsRun(tokens, a, b) && p == RunPiece(tokens, a, b)
  {
    assert ReadUpTo(tokens, 0, NOTHING_READ);
    AllRead(tokens, 0, NOTHING_READ);
    assert tokens[0..] == tokens;
    LastPiece(tokens, ReadTokens(NOTHING_READ, tokens), p);
  }

  // ----- in order

  lemma {:induction false} JoinedConcat(a: seq<Piece>, p: Piece)
    ensures JoinedText(a + [p]) == JoinedText(a) + p.text
  {
    if a == [] {
      assert [] + [p] == [p] && JoinedText([p]) == p.text + [];
    } else {
      assert (a + [p])[1..] == a[1..] + [p];
      JoinedConcat(a[1..], p);
      Texts.Group(a[0].text, JoinedText(a[1..]), p.text);
    }
  }

  /** The characters read so far: those of the pieces, and those of the run being read. */
  ghost function Gathered(r: Reading): Text {
    JoinedText(r.pieces) + r.text
  }

  lemma CloseGathers(r: Reading, after: bool, wordlessAfter: bool)
    ensures Gathered(Close(r, after, wordlessAfter)) == Gathered(r)
  {
    if r.text != [] { JoinedConcat(r.pieces, Piece(r.text, r.before, after, r.wordless, wordlessAfter)); }
  }

  lemma GatheredNext(r: Reading, token: Token)
    ensures Gathered(ReadToken(r, token)) == Gathered(r) + if token.Char? then [token.c] else []
  {
    match token
    case Char(c) => Texts.Group(JoinedText(r.pieces), r.text, [c]);
    case Boundary => CloseGathers(r, true, false);
    case Split => CloseGathers(r, false, false);
    case Wordless(before) => CloseGathers(r, false, !before);
    case _ =>
  }

  lemma {:induction false} ReadInOrder(tokens: seq<Token>, n: nat, r: Reading)
    requires n <= |tokens| && Gathered(r) == CharsOf(tokens[..n])
    ensures Gathered(ReadTokens(r, tokens[n..])) == CharsOf(tokens)
    decreases |tokens| - n
  {
    if n < |tokens| {
      GatheredNext(r, tokens[n]);
      CharsNext(tokens, 0, n);
      assert tokens[0..n] == tokens[..n] && tokens[0..n + 1] == tokens[..n + 1];
      ReadInOrder(tokens, n + 1, ReadToken(r, tokens[n]));
      assert tokens[n..][1..] == tokens[n + 1..];
    } else {
      assert tokens[..n] == tokens;
    }
  }

  /** The texts of the pieces, one after the other, are the characters of the sequence in order. */
  lemma PiecesInOrder(tokens: seq<Token>)
    ensures JoinedText(Pieces(tokens)) == CharsOf(tokens)
  {
    assert tokens[..0] == [] && tokens[0..] == tokens;
    ReadInOrder(tokens, 0, NOTHING_READ);
    var end := ReadTokens(NOTHING_READ, tokens);
    if end.text != [] { JoinedConcat(end.pieces, Close(end, false, false).pieces[|end.pieces|]); }
  }
}
