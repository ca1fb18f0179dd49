/**
 * The other half of the absence hazard: nothing fits that could not occur, a pattern is given up only for its
 * number of alternatives, and a repeated token only for a letter or digit in it.
 */
module DisclosureExact {
  import opened Texts
  import opened Disclosure
  import opened DisclosureProofs

  // ----- a piece fits only where it could stand

  lemma WordsAlike(haystack: Text, classes: Classes, other: Text, at: int)
    requires Refills(haystack, classes, other)
    ensures IsWord(haystack, classes, at) == WordAt(other, at)
  {
    if 0 <= at < |other| && classes[at].Some? { MembersAlphanumeric(classes[at].value, other[at]); }
  }

  /** A piece that fits where another run's text has its characters stands there, its edges included. */
  lemma FittingStands(haystack: Text, classes: Classes, other: Text, piece: Piece, insensitive: bool, start: nat)
    requires Refills(haystack, classes, other) && piece.text != []
    requires start + |piece.text| <= |haystack| && EdgesFit(haystack, classes, piece, start)
    requires forall i | 0 <= i < |piece.text| :: Same(insensitive, other[start + i], piece.text[i])
    ensures StandsAt(piece, other, insensitive, start)
  {
    var n := |piece.text|;
    WordsAlike(haystack, classes, other, start - 1);
    WordsAlike(haystack, classes, other, start + n);
    assert IsWordChar(piece.text[0]) == WordAt(other, start) by {
      assert Same(insensitive, other[start + 0], piece.text[0]);
    }
    assert IsWordChar(piece.text[n - 1]) == WordAt(other, start + n - 1) by {
      assert Same(insensitive, other[start + (n - 1)], piece.text[n - 1]);
    }
  }

  /** The piece stands in some refilling of the template, over a generated position. */
  ghost predicate CouldStand(haystack: Text, classes: Classes, piece: Piece, insensitive: bool, start: nat)
    requires |classes| == |haystack|
  {
    && (exists other :: Refills(haystack, classes, other) && StandsAt(piece, other, insensitive, start))
    && (exists g :: start <= g < start + |piece.text| && g < |classes| && classes[g].Some?)
  }

  /** The characters alone, without the conditions on either side. */
  function Bare(piece: Piece): Piece {
    Piece(piece.text, false, false, false, false)
  }

  /** A piece fits the template exactly where it could stand in another run's text, boundaries and all. */
  lemma PieceFitsIff(haystack: Text, classes: Classes, piece: Piece, insensitive: bool, start: nat)
    requires |classes| == |haystack| && ProperClasses(classes)
    ensures FitsAt(haystack, classes, piece, insensitive, start) <==>
            CouldStand(haystack, classes, piece, insensitive, start)
  {
    if FitsAt(haystack, classes, piece, insensitive, start) {
      assert FitsAt(haystack, classes, Bare(piece), insensitive, start);
      LiteralFitsIff(haystack, classes, piece.text, insensitive, start);
      var other :| Refills(haystack, classes, other) && OccursAt(classes, other, insensitive, piece.text, start);
      FittingStands(haystack, classes, other, piece, insensitive, start);
    }
    if CouldStand(haystack, classes, piece, insensitive, start) {
      var other :| Refills(haystack, classes, other) && StandsAt(piece, other, insensitive, start);
      var g: nat :| start <= g < start + |piece.text| && g < |classes| && classes[g].Some?;
      StandingFits(haystack, classes, other, piece, insensitive, start, g);
    }
  }

  // ----- how many alternatives there are

  /** How many sequences a sequence stands for: its groups' alternatives multiplied out. */
  function Count(tokens: seq<Token>): nat
    decreases tokens, 1
  {
    if tokens == [] then 1
    else CountOf(tokens[0]) * Count(tokens[1..])
  }

  function CountOf(token: Token): nat
    decreases token, 0
  {
    match token
    case Group(alternatives) => CountAll(alternatives)
    case _ => 1
  }

  function CountAll(alternatives: seq<Sequence>): nat
    decreases alternatives, 0
  {
    if alternatives == [] then 0 else Count(alternatives[0].tokens) + CountAll(alternatives[1..])
  }

  /** With `n` alternatives so far, no group takes the number past the limit, nor does one inside a group. */
  ghost predicate WithinLimit(n: nat, tokens: seq<Token>)
    decreases tokens, 1
  {
    tokens == []
    || match tokens[0]
       case Group(alternatives) =>
         && AllWithinLimit(alternatives) && n * CountAll(alternatives) <= MAX_ALTERNATIVES
         && WithinLimit(n * CountAll(alternatives), tokens[1..])
       case _ => WithinLimit(n, tokens[1..])
  }

  ghost predicate AllWithinLimit(alternatives: seq<Sequence>)
    decreases alternatives, 0
  {
    alternatives == [] || (WithinLimit(1, alternatives[0].tokens) && AllWithinLimit(alternatives[1..]))
  }

  lemma {:induction false} ProductSize(prefixes: seq<seq<Token>>, options: seq<seq<Token>>)
    ensures |Product(prefixes, options)| == |prefixes| * |options|
  {
    if prefixes != [] {
      ProductSize(prefixes[1..], options);
      OneMoreTime(|prefixes| - 1, |options|);
    }
  }

  lemma OneMoreTime(n: nat, k: nat)
    ensures (n + 1) * k == k + n * k
  {
  }

  lemma TimesGroup(n: nat, k: nat, m: nat)
    ensures n * (k * m) == n * k * m
  {
  }

  /**
   * A sequence is given up exactly where its groups take the number of alternatives past 256; otherwise it is expanded
   * into just as many as its groups multiply out to.
   */
  lemma {:induction false} ExpandFromIff(out: seq<seq<Token>>, tokens: seq<Token>)
    ensures ExpandFrom(out, tokens).Some? <==> WithinLimit(|out|, tokens)
    ensures ExpandFrom(out, tokens).Some? ==> |ExpandFrom(out, tokens).value| == |out| * Count(tokens)
    decreases tokens, 1
  {
    if tokens != [] {
      if tokens[0].Group? {
        GroupExpandsIff(out, tokens);
      } else {
        ProductSize(out, [[tokens[0]]]);
        ExpandFromIff(Product(out, [[tokens[0]]]), tokens[1..]);
      }
    }
  }

  lemma GroupExpandsIff(out: seq<seq<Token>>, tokens: seq<Token>)
    requires tokens != [] && tokens[0].Group?
    ensures ExpandFrom(out, tokens).Some? <==> WithinLimit(|out|, tokens)
    ensures ExpandFrom(out, tokens).Some? ==> |ExpandFrom(out, tokens).value| == |out| * Count(tokens)
    decreases tokens, 0
  {
    var alternatives := tokens[0].alternatives;
    ExpandAllIff(alternatives);
    var options := ExpandAll(alternatives);
    if options.Some? {
      var more := Product(out, options.value);
      ProductSize(out, options.value);
      TimesGroup(|out|, CountAll(alternatives), Count(tokens[1..]));
      if |more| <= MAX_ALTERNATIVES { ExpandFromIff(more, tokens[1..]); }
    }
  }

  lemma {:induction false} ExpandAllIff(alternatives: seq<Sequence>)
    ensures ExpandAll(alternatives).Some? <==> AllWithinLimit(alternatives)
    ensures ExpandAll(alternatives).Some? ==> |ExpandAll(alternatives).value| == CountAll(alternatives)
    decreases alternatives, 0
  {
    if alternatives != [] {
      ExpandFromIff([[]], alternatives[0].tokens);
      ExpandAllIff(alternatives[1..]);
    }
  }

  /** A pattern is irreducible exactly where its alternatives are too many. */
  lemma IrreducibleIff(alternatives: seq<Sequence>, insensitive: bool)
    ensures Skeleton(Pattern(alternatives, insensitive)).None? <==> !AllWithinLimit(alternatives)
    ensures Skeleton(Pattern(alternatives, insensitive)).Some? ==>
              |Skeleton(Pattern(alternatives, insensitive)).value| == CountAll(alternatives)
  {
    ExpandAllIff(alternatives);
  }

  // ----- repetition

  /** A letter or digit stands in the token, at any depth of its groups. */
  ghost predicate HoldsAlphanumeric(t: Token)
    decreases t
  {
    match t
    case Char(c) => IsAlphanumeric(c)
    case Group(alternatives) =>
      exists a, k :: 0 <= a < |alternatives| && 0 <= k < |alternatives[a].tokens|
                     && HoldsAlphanumeric(alternatives[a].tokens[k])
    case _ => false
  }

  lemma {:induction false} NonAlphanumericIff(t: Token)
    ensures NonAlphanumeric(t) <==> !HoldsAlphanumeric(t)
    decreases t
  {
    if t.Group? {
      forall a, k | 0 <= a < |t.alternatives| && 0 <= k < |t.alternatives[a].tokens|
        ensures NonAlphanumeric(t.alternatives[a].tokens[k]) <==> !HoldsAlphanumeric(t.alternatives[a].tokens[k])
      {
        NonAlphanumericIff(t.alternatives[a].tokens[k]);
      }
    }
  }

  /** A repeated token is given up exactly where a letter or digit stands in it. */
  lemma QuantifiedIff(t: Token)
    ensures Quantified(t).None? <==> HoldsAlphanumeric(t)
  {
    NonAlphanumericIff(t);
  }

  lemma {:induction false} ReadConcat(r: Reading, a: seq<Token>, b: seq<Token>)
    ensures ReadTokens(r, a + b) == ReadTokens(ReadTokens(r, a), b)
    decreases |a|
  {
    if a == [] {
      assert a + b == b;
    } else {
      ReadConcat(ReadToken(r, a[0]), a[1..], b);
      assert (a + b)[1..] == a[1..] + b;
    }
  }

  /** The same reading but for the pieces before it; the conditions before a run matter only while it is read. */
  ghost predicate SameBut(before: seq<Piece>, r: Reading, s: Reading) {
    && r.pieces == before + s.pieces && r.text == s.text
    && r.pending == s.pending && r.pendingWordless == s.pendingWordless
    && (r.text != [] ==> r.before == s.before && r.wordless == s.wordless)
  }

  lemma ClosedSame(before: seq<Piece>, r: Reading, s: Reading, after: bool, wordlessAfter: bool)
    requires SameBut(before, r, s)
    ensures SameBut(before, Close(r, after, wordlessAfter), Close(s, after, wordlessAfter))
  {
    if s.text != [] {
      var p := Piece(s.text, s.before, after, s.wordless, wordlessAfter);
      assert before + s.pieces + [p] == before + (s.pieces + [p]);
    }
  }

  lemma ReadSame(before: seq<Piece>, r: Reading, s: Reading, token: Token)
    requires SameBut(before, r, s)
    ensures SameBut(before, ReadToken(r, token), ReadToken(s, token))
  {
    ClosedSame(before, r, s, true, false);
    ClosedSame(before, r, s, false, false);
    ClosedSame(before, r, s, false, true);
  }

  lemma {:induction false} ReadAllSame(before: seq<Piece>, r: Reading, s: Reading, tokens: seq<Token>)
    requires SameBut(before, r, s)
    ensures SameBut(before, ReadTokens(r, tokens), ReadTokens(s, tokens))
    decreases |tokens|
  {
    if tokens != [] {
      ReadSame(before, r, s, tokens[0]);
      ReadAllSame(before, ReadToken(r, tokens[0]), ReadToken(s, tokens[0]), tokens[1..]);
    }
  }

  /** A repeated condition is as good as none; anything else that is repeated separates what is around it. */
  lemma RepeatedReads(t: Token, a: seq<Token>, b: seq<Token>)
    requires Quantified(t).Some?
    ensures Pieces(a + ([Quantified(t).value] + b)) ==
            if t.Zero? || t.Boundary? || t.Wordless? then Pieces(a + b) else Pieces(a) + Pieces(b)
  {
    var q := Quantified(t).value;
    var r := ReadTokens(NOTHING_READ, a);
    ReadConcat(NOTHING_READ, a, [q] + b);
    ReadConcat(NOTHING_READ, a, b);
    assert ([q] + b)[0] == q && ([q] + b)[1..] == b;
    assert ReadTokens(r, [q] + b) == ReadTokens(ReadToken(r, q), b);
    if q == Split {
      var p := ReadToken(r, q);
      assert p.pieces + [] == p.pieces;
      ReadAllSame(Pieces(a), p, NOTHING_READ, b);
      ClosedSame(Pieces(a), ReadTokens(p, b), ReadTokens(NOTHING_READ, b), false, false);
    }
  }
}
