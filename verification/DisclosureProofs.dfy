/** Nothing that could match by chance is missed: the template and the pieces over-approximate. */
module DisclosureProofs {
  import opened Texts
  import opened Disclosure

  // ----- refilling a template

  /** Another run's text: the same but for the generated characters, each any of its class. */
  ghost predicate Refills(haystack: Text, classes: Classes, other: Text) {
    && |classes| == |haystack| == |other|
    && forall p | 0 <= p < |other| ::
         match classes[p] case None => other[p] == haystack[p] case Some(k) => Member(k, other[p])
  }

  /** Every class has a member, and none but letters and digits. */
  ghost predicate ProperClasses(classes: Classes) {
    forall p | 0 <= p < |classes| && classes[p].Some? :: ProperClass(classes[p].value)
  }

  ghost predicate ProperClass(k: Class) {
    k.UpTo? ==> 0x30 <= k.last <= 0x39
  }

  lemma MembersAlphanumeric(k: Class, c: CodeUnit)
    requires Member(k, c)
    ensures IsAlphanumeric(c) && IsWordChar(c)
  {
  }

  /** A class of digits found at a position ends at a digit, so every class found has members. */
  lemma {:induction false} ClassAtProper(generated: seq<Generated>, p: nat)
    ensures ClassAt(generated, p).Some? ==> ProperClass(ClassAt(generated, p).value)
  {
    if generated != [] { ClassAtProper(generated[..|generated| - 1], p); }
  }

  /** A character that may stand at `p` where `c` is looked for. */
  ghost predicate CanBe(haystack: Text, classes: Classes, insensitive: bool, p: nat, c: CodeUnit, d: CodeUnit)
    requires |classes| == |haystack| && p < |haystack|
  {
    && Same(insensitive, d, c)
    && match classes[p] case None => d == haystack[p] case Some(k) => Member(k, d)
  }

  lemma FitsIffCanBe(haystack: Text, classes: Classes, insensitive: bool, p: nat, c: CodeUnit)
    requires |classes| == |haystack| && p < |haystack|
    ensures CharFits(haystack, classes, insensitive, p, c)
            <==> exists d :: CanBe(haystack, classes, insensitive, p, c, d)
  {
    if CharFits(haystack, classes, insensitive, p, c) {
      match classes[p]
      case None => assert CanBe(haystack, classes, insensitive, p, c, haystack[p]);
      case Some(k) =>
        var d := if Member(k, c) then c else if Member(k, Upper(c)) then Upper(c) else Lower(c);
        assert CanBe(haystack, classes, insensitive, p, c, d);
    }
    forall d | CanBe(haystack, classes, insensitive, p, c, d) ensures CharFits(haystack, classes, insensitive, p, c) {
      assert insensitive ==> d == c || d == Upper(c) || d == Lower(c);
    }
  }

  /** The text stands in another run's text at `start`, over a generated position. */
  ghost predicate OccursAt(classes: Classes, other: Text, insensitive: bool, text: Text, start: nat) {
    && |classes| == |other| && start + |text| <= |other|
    && (forall i | 0 <= i < |text| :: Same(insensitive, other[start + i], text[i]))
    && (exists p | start <= p < start + |text| :: classes[p].Some?)
  }

  /** A refilling that has the text at `start`. */
  ghost function Refilled(haystack: Text, classes: Classes, insensitive: bool, text: Text, start: nat): Text
    requires |classes| == |haystack|
  {
    seq(|haystack|, p requires 0 <= p < |haystack| =>
      match classes[p]
      case None => haystack[p]
      case Some(k) =>
        if start <= p < start + |text| then
          (var c := text[p - start]; if Member(k, c) || !insensitive then c else if Member(k, Upper(c)) then Upper(c)
           else Lower(c))
        else 0x30)
  }

  /** A string fits the template exactly when some refilling has it across a generated position. */
  lemma LiteralFitsIff(haystack: Text, classes: Classes, text: Text, insensitive: bool, start: nat)
    requires |classes| == |haystack| && ProperClasses(classes)
    ensures FitsAt(haystack, classes, Piece(text, false, false, false, false), insensitive, start) <==>
            exists other :: Refills(haystack, classes, other) && OccursAt(classes, other, insensitive, text, start)
  {
    var piece := Piece(text, false, false, false, false);
    if FitsAt(haystack, classes, piece, insensitive, start) {
      var other := Refilled(haystack, classes, insensitive, text, start);
      forall p | 0 <= p < |other|
        ensures match classes[p] case None => other[p] == haystack[p] case Some(k) => Member(k, other[p])
        ensures start <= p < start + |text| ==> Same(insensitive, other[p], text[p - start])
      {
        if start <= p < start + |text| {
          assert CharFits(haystack, classes, insensitive, start + (p - start), text[p - start]);
        }
      }
      assert Refills(haystack, classes, other) && OccursAt(classes, other, insensitive, text, start);
    }
    forall other | Refills(haystack, classes, other) && OccursAt(classes, other, insensitive, text, start)
      ensures FitsAt(haystack, classes, piece, insensitive, start)
    {
      forall i | 0 <= i < |text| ensures CharFits(haystack, classes, insensitive, start + i, text[i]) {
        assert CanBe(haystack, classes, insensitive, start + i, text[i], other[start + i]);
        FitsIffCanBe(haystack, classes, insensitive, start + i, text[i]);
      }
    }
  }

  // ----- what a token sequence matches

  predicate WordAt(text: Text, at: int) {
    0 <= at < |text| && IsWordChar(text[at])
  }

  ghost predicate NoAlphanumeric(text: Text, i: int, j: int)
    requires 0 <= i <= j <= |text|
  {
    forall p | i <= p < j :: !IsAlphanumeric(text[p])
  }

  /**
   * One token matches `text` from `i` to `k`. A split stands for any construct whose matches are
   * free of letters and digits, a zero for any that consumes nothing.
   */
  ghost predicate MatchesToken(token: Token, text: Text, insensitive: bool, i: nat, k: nat)
    decreases token, 0
  {
    i <= k <= |text| &&
    match token
    case Char(c) => k == i + 1 && Same(insensitive, text[i], c)
    case Boundary => k == i && WordAt(text, i - 1) != WordAt(text, i)
    case Split => NoAlphanumeric(text, i, k)
    case Zero => k == i
    case Wordless(before) => k == i && !WordAt(text, if before then i - 1 else i)
    case Group(alternatives) =>
      exists a | 0 <= a < |alternatives| :: Matches(alternatives[a].tokens, text, insensitive, i, k)
  }

  ghost predicate Matches(tokens: seq<Token>, text: Text, insensitive: bool, i: nat, j: nat)
    decreases tokens, 1
  {
    if tokens == [] then i == j <= |text|
    else
      exists k: nat | k <= j ::
        MatchesToken(tokens[0], text, insensitive, i, k) && Matches(tokens[1..], text, insensitive, k, j)
  }

  /** Where the first token of a match ends. */
  lemma FirstEnds(tokens: seq<Token>, text: Text, insensitive: bool, i: nat, j: nat) returns (k: nat)
    requires tokens != [] && Matches(tokens, text, insensitive, i, j)
    ensures k <= j && MatchesToken(tokens[0], text, insensitive, i, k) && Matches(tokens[1..], text, insensitive, k, j)
  {
    k :| k <= j && MatchesToken(tokens[0], text, insensitive, i, k) && Matches(tokens[1..], text, insensitive, k, j);
  }

  lemma {:induction false} MatchesBounds(tokens: seq<Token>, text: Text, insensitive: bool, i: nat, j: nat)
    requires Matches(tokens, text, insensitive, i, j)
    ensures i <= j <= |text|
    decreases |tokens|
  {
    if tokens != [] {
      var k := FirstEnds(tokens, text, insensitive, i, j);
      MatchesBounds(tokens[1..], text, insensitive, k, j);
    }
  }

  ghost predicate Meets(a: seq<Token>, b: seq<Token>, text: Text, insensitive: bool, i: nat, k: nat, j: nat) {
    Matches(a, text, insensitive, i, k) && Matches(b, text, insensitive, k, j)
  }

  lemma {:induction false} MatchesConcat(a: seq<Token>, b: seq<Token>, text: Text, insensitive: bool, i: nat, j: nat)
    ensures Matches(a + b, text, insensitive, i, j) <==> exists k :: Meets(a, b, text, insensitive, i, k, j)
    decreases |a|
  {
    if a == [] {
      assert a + b == b;
      if Matches(b, text, insensitive, i, j) {
        MatchesBounds(b, text, insensitive, i, j);
        assert Meets(a, b, text, insensitive, i, i, j);
      }
    } else {
      assert (a + b)[0] == a[0] && (a + b)[1..] == a[1..] + b;
      if Matches(a + b, text, insensitive, i, j) {
        var k := FirstEnds(a + b, text, insensitive, i, j);
        MatchesConcat(a[1..], b, text, insensitive, k, j);
        var m :| Meets(a[1..], b, text, insensitive, k, m, j);
        MatchesBounds(a[1..], text, insensitive, k, m);
        assert Meets(a, b, text, insensitive, i, m, j);
      }
      forall m | Meets(a, b, text, insensitive, i, m, j) ensures Matches(a + b, text, insensitive, i, j) {
        var k := FirstEnds(a, text, insensitive, i, m);
        assert Meets(a[1..], b, text, insensitive, k, m, j);
        MatchesConcat(a[1..], b, text, insensitive, k, j);
        MatchesBounds(a[1..] + b, text, insensitive, k, j);
      }
    }
  }

  // ----- expansion keeps what is matched

  ghost predicate Flat(tokens: seq<Token>) {
    forall i | 0 <= i < |tokens| :: !tokens[i].Group?
  }

  ghost predicate AllFlat(all: seq<seq<Token>>) {
    forall i | 0 <= i < |all| :: Flat(all[i])
  }

  ghost predicate AnyMatches(all: seq<seq<Token>>, text: Text, insensitive: bool, i: nat, j: nat) {
    exists a | 0 <= a < |all| :: Matches(all[a], text, insensitive, i, j)
  }

  lemma AnyMatchesConcat(a: seq<seq<Token>>, b: seq<seq<Token>>, text: Text, insensitive: bool, i: nat, j: nat)
    ensures AnyMatches(a + b, text, insensitive, i, j)
            <==> AnyMatches(a, text, insensitive, i, j) || AnyMatches(b, text, insensitive, i, j)
  {
    var all := a + b;
    if AnyMatches(a, text, insensitive, i, j) {
      var k :| 0 <= k < |a| && Matches(a[k], text, insensitive, i, j);
      assert Matches(all[k], text, insensitive, i, j);
    }
    if AnyMatches(b, text, insensitive, i, j) {
      var k :| 0 <= k < |b| && Matches(b[k], text, insensitive, i, j);
      assert Matches(all[|a| + k], text, insensitive, i, j);
    }
  }

  ghost predicate AnyMeets(out: seq<seq<Token>>, options: seq<seq<Token>>, text: Text, insensitive: bool, i: nat,
                           k: nat, j: nat) {
    AnyMatches(out, text, insensitive, i, k) && AnyMatches(options, text, insensitive, k, j)
  }

  lemma AppendMatches(prefix: seq<Token>, options: seq<seq<Token>>, text: Text, insensitive: bool, i: nat, j: nat)
    ensures AnyMatches(Append(prefix, options), text, insensitive, i, j)
            <==> exists k :: Matches(prefix, text, insensitive, i, k) && AnyMatches(options, text, insensitive, k, j)
  {
    var all := Append(prefix, options);
    if AnyMatches(all, text, insensitive, i, j) {
      var a :| 0 <= a < |all| && Matches(all[a], text, insensitive, i, j);
      MatchesConcat(prefix, options[a], text, insensitive, i, j);
      var k :| Meets(prefix, options[a], text, insensitive, i, k, j);
      assert Matches(prefix, text, insensitive, i, k) && AnyMatches(options, text, insensitive, k, j);
    }
    forall k | Matches(prefix, text, insensitive, i, k) && AnyMatches(options, text, insensitive, k, j)
      ensures AnyMatches(all, text, insensitive, i, j)
    {
      var a :| 0 <= a < |options| && Matches(options[a], text, insensitive, k, j);
      assert Meets(prefix, options[a], text, insensitive, i, k, j);
      MatchesConcat(prefix, options[a], text, insensitive, i, j);
      assert Matches(all[a], text, insensitive, i, j);
    }
  }

  lemma {:induction false} ProductMatches(out: seq<seq<Token>>, options: seq<seq<Token>>, text: Text,
                                          insensitive: bool, i: nat, j: nat)
    ensures AnyMatches(Product(out, options), text, insensitive, i, j)
            <==> exists k :: AnyMeets(out, options, text, insensitive, i, k, j)
  {
    if out != [] {
      ProductMatches(out[1..], options, text, insensitive, i, j);
      AppendMatches(out[0], options, text, insensitive, i, j);
      AnyMatchesConcat(Append(out[0], options), Product(out[1..], options), text, insensitive, i, j);
      assert out == [out[0]] + out[1..];
      forall k ensures AnyMatches(out, text, insensitive, i, k)
                       <==> Matches(out[0], text, insensitive, i, k) || AnyMatches(out[1..], text, insensitive, i, k)
      {
        AnyMatchesConcat([out[0]], out[1..], text, insensitive, i, k);
        assert AnyMatches([out[0]], text, insensitive, i, k) <==> Matches(out[0], text, insensitive, i, k) by {
          assert [out[0]][0] == out[0];
        }
      }
      if exists k :: AnyMeets(out, options, text, insensitive, i, k, j) {
        var k :| AnyMeets(out, options, text, insensitive, i, k, j);
        if !Matches(out[0], text, insensitive, i, k) { assert AnyMeets(out[1..], options, text, insensitive, i, k, j); }
      }
      if exists k :: AnyMeets(out[1..], options, text, insensitive, i, k, j) {
        var k :| AnyMeets(out[1..], options, text, insensitive, i, k, j);
        assert AnyMeets(out, options, text, insensitive, i, k, j);
      }
      forall k | Matches(out[0], text, insensitive, i, k) && AnyMatches(options, text, insensitive, k, j)
        ensures exists m :: AnyMeets(out, options, text, insensitive, i, m, j)
      {
        assert AnyMeets(out, options, text, insensitive, i, k, j);
      }
    }
  }

  lemma {:induction false} ProductFlat(out: seq<seq<Token>>, options: seq<seq<Token>>)
    requires AllFlat(out) && AllFlat(options)
    ensures AllFlat(Product(out, options))
  {
    if out != [] {
      ProductFlat(out[1..], options);
      assert AllFlat(Append(out[0], options));
    }
  }

  /** What is matched from a prefix already expanded, and then a sequence. */
  ghost predicate ThenMatches(out: seq<seq<Token>>, tokens: seq<Token>, text: Text, insensitive: bool, i: nat, k: nat,
                              j: nat) {
    AnyMatches(out, text, insensitive, i, k) && Matches(tokens, text, insensitive, k, j)
  }

  lemma TokenMatchesAlone(token: Token, text: Text, insensitive: bool, i: nat, k: nat)
    ensures Matches([token], text, insensitive, i, k) <==> MatchesToken(token, text, insensitive, i, k)
  {
    var rest: seq<Token> := [];
    assert [token][1..] == rest;
    if MatchesToken(token, text, insensitive, i, k) {
      assert Matches(rest, text, insensitive, k, k);
    }
  }

  /** One step of the expansion: the token taken off the sequence goes onto every prefix. */
  lemma StepMatches(out: seq<seq<Token>>, options: seq<seq<Token>>, tokens: seq<Token>, text: Text, insensitive: bool,
                    i: nat, j: nat)
    requires tokens != []
    requires forall k: nat, m: nat ::
               AnyMatches(options, text, insensitive, k, m) <==> MatchesToken(tokens[0], text, insensitive, k, m)
    ensures (exists k :: ThenMatches(Product(out, options), tokens[1..], text, insensitive, i, k, j))
            <==> exists k :: ThenMatches(out, tokens, text, insensitive, i, k, j)
  {
    if exists k :: ThenMatches(Product(out, options), tokens[1..], text, insensitive, i, k, j) {
      var k :| ThenMatches(Product(out, options), tokens[1..], text, insensitive, i, k, j);
      ProductMatches(out, options, text, insensitive, i, k);
      var m :| AnyMeets(out, options, text, insensitive, i, m, k);
      MatchesBounds(tokens[1..], text, insensitive, k, j);
      assert MatchesToken(tokens[0], text, insensitive, m, k);
      assert ThenMatches(out, tokens, text, insensitive, i, m, j);
    }
    if exists m :: ThenMatches(out, tokens, text, insensitive, i, m, j) {
      var m :| ThenMatches(out, tokens, text, insensitive, i, m, j);
      var k := FirstEnds(tokens, text, insensitive, m, j);
      assert AnyMatches(options, text, insensitive, m, k);
      assert AnyMeets(out, options, text, insensitive, i, m, k);
      ProductMatches(out, options, text, insensitive, i, k);
      assert ThenMatches(Product(out, options), tokens[1..], text, insensitive, i, k, j);
    }
  }

  lemma {:induction false} ExpandFromExact(out: seq<seq<Token>>, tokens: seq<Token>, text: Text, insensitive: bool,
                                           i: nat, j: nat)
    requires ExpandFrom(out, tokens).Some? && AllFlat(out)
    ensures AllFlat(ExpandFrom(out, tokens).value)
    ensures AnyMatches(ExpandFrom(out, tokens).value, text, insensitive, i, j)
            <==> exists k :: ThenMatches(out, tokens, text, insensitive, i, k, j)
    decreases tokens, 0
  {
    if tokens == [] {
      if AnyMatches(out, text, insensitive, i, j) {
        var a :| 0 <= a < |out| && Matches(out[a], text, insensitive, i, j);
        MatchesBounds(out[a], text, insensitive, i, j);
        assert ThenMatches(out, tokens, text, insensitive, i, j, j);
      }
    } else {
      var options := if tokens[0].Group? then ExpandAll(tokens[0].alternatives).value else [[tokens[0]]];
      forall k: nat, m: nat
        ensures AnyMatches(options, text, insensitive, k, m) <==> MatchesToken(tokens[0], text, insensitive, k, m)
      {
        if tokens[0].Group? {
          ExpandAllExact(tokens[0].alternatives, text, insensitive, k, m);
          if exists a | 0 <= a < |tokens[0].alternatives| :: Matches(tokens[0].alternatives[a].tokens, text,
                                                                     insensitive, k, m) {
            var a :| 0 <= a < |tokens[0].alternatives|
                && Matches(tokens[0].alternatives[a].tokens, text, insensitive, k, m);
            MatchesBounds(tokens[0].alternatives[a].tokens, text, insensitive, k, m);
          }
        } else {
          TokenMatchesAlone(tokens[0], text, insensitive, k, m);
          assert options[0] == [tokens[0]];
        }
      }
      if tokens[0].Group? { ExpandAllExact(tokens[0].alternatives, text, insensitive, i, j); }
      ProductFlat(out, options);
      StepMatches(out, options, tokens, text, insensitive, i, j);
      assert ExpandFrom(out, tokens) == ExpandFrom(Product(out, options), tokens[1..]);
      ExpandFromExact(Product(out, options), tokens[1..], text, insensitive, i, j);
    }
  }

  /** Expanding alternatives keeps exactly what they match, and leaves no group. */
  lemma {:induction false} ExpandAllExact(alternatives: seq<Sequence>, text: Text, insensitive: bool, i: nat, j: nat)
    requires ExpandAll(alternatives).Some?
    ensures AllFlat(ExpandAll(alternatives).value)
    ensures AnyMatches(ExpandAll(alternatives).value, text, insensitive, i, j)
            <==> exists a | 0 <= a < |alternatives| :: Matches(alternatives[a].tokens, text, insensitive, i, j)
    decreases alternatives, 0
  {
    if alternatives != [] {
      var tokens := alternatives[0].tokens;
      ExpandExact(tokens, text, insensitive, i, j);
      ExpandAllExact(alternatives[1..], text, insensitive, i, j);
      AnyMatchesConcat(Expand(tokens).value, ExpandAll(alternatives[1..]).value, text, insensitive, i, j);
      assert alternatives == [alternatives[0]] + alternatives[1..];
    }
  }

  lemma {:induction false} ExpandExact(tokens: seq<Token>, text: Text, insensitive: bool, i: nat, j: nat)
    requires Expand(tokens).Some?
    ensures AllFlat(Expand(tokens).value)
    ensures AnyMatches(Expand(tokens).value, text, insensitive, i, j) <==> Matches(tokens, text, insensitive, i, j)
    decreases tokens, 1
  {
    ExpandFromExact([[]], tokens, text, insensitive, i, j);
    if Matches(tokens, text, insensitive, i, j) {
      MatchesBounds(tokens, text, insensitive, i, j);
      var start: seq<seq<Token>> := [[]];
      assert Matches(start[0], text, insensitive, i, i);
      assert ThenMatches(start, tokens, text, insensitive, i, i, j);
    }
  }

  // ----- a match contains its pieces

  ghost predicate BoundaryAt(text: Text, at: int) {
    WordAt(text, at - 1) != WordAt(text, at)
  }

  /** The piece stands in the text at `start`, and its edges hold there. */
  ghost predicate StandsAt(piece: Piece, text: Text, insensitive: bool, start: nat) {
    var n := |piece.text|;
    && n > 0 && start + n <= |text|
    && (forall i | 0 <= i < n :: Same(insensitive, text[start + i], piece.text[i]))
    && (piece.boundaryBefore ==> BoundaryAt(text, start))
    && (piece.boundaryAfter ==> BoundaryAt(text, start + n))
    && (piece.wordlessBefore ==> !WordAt(text, start - 1))
    && (piece.wordlessAfter ==> !WordAt(text, start + n))
  }

  /** What has been read holds of a match that has come to `k`. */
  ghost predicate ReadingHolds(r: Reading, text: Text, insensitive: bool, k: nat) {
    && |r.text| <= k <= |text|
    && (forall i | 0 <= i < |r.text| :: Same(insensitive, text[k - |r.text| + i], r.text[i]))
    && (r.text != [] ==>
          && (r.before ==> BoundaryAt(text, k - |r.text|)) && (r.wordless ==> !WordAt(text, k - |r.text| - 1)))
    && (r.pending ==> BoundaryAt(text, k))
    && (r.pendingWordless ==> !WordAt(text, k - 1))
  }

  lemma CloseHolds(r: Reading, text: Text, insensitive: bool, k: nat, after: bool, wordlessAfter: bool)
    requires ReadingHolds(r, text, insensitive, k)
    requires (after ==> BoundaryAt(text, k)) && (wordlessAfter ==> !WordAt(text, k))
    ensures ReadingHolds(Close(r, after, wordlessAfter), text, insensitive, k)
    ensures Close(r, after, wordlessAfter).text == [] && r.pieces <= Close(r, after, wordlessAfter).pieces
    ensures r.text != [] ==>
              var pieces := Close(r, after, wordlessAfter).pieces;
              |pieces| == |r.pieces| + 1 && StandsAt(pieces[|r.pieces|], text, insensitive, k - |r.text|)
              && |pieces[|r.pieces|].text| == |r.text|
  {
  }

  lemma TokenHolds(r: Reading, token: Token, text: Text, insensitive: bool, k: nat, m: nat)
    requires ReadingHolds(r, text, insensitive, k) && !token.Group? && MatchesToken(token, text, insensitive, k, m)
    ensures ReadingHolds(ReadToken(r, token), text, insensitive, m)
  {
    match token
    case Char(c) =>
    case Boundary => CloseHolds(r, text, insensitive, k, true, false);
    case Split => CloseHolds(r, text, insensitive, k, false, false);
    case Wordless(before) => CloseHolds(r, text, insensitive, k, false, !before);
    case Zero =>
  }

  lemma ReadTokenGrows(r: Reading, token: Token)
    ensures r.pieces <= ReadToken(r, token).pieces
  {
  }

  lemma {:induction false} ReadTokensGrow(r: Reading, tokens: seq<Token>)
    ensures r.pieces <= Close(ReadTokens(r, tokens), false, false).pieces
    decreases |tokens|
  {
    if tokens != [] {
      ReadTokenGrows(r, tokens[0]);
      ReadTokensGrow(ReadToken(r, tokens[0]), tokens[1..]);
    }
  }

  ghost predicate Contains(pieces: seq<Piece>, a: nat, text: Text, insensitive: bool, start: nat, g: nat) {
    a < |pieces| && StandsAt(pieces[a], text, insensitive, start) && start <= g < start + |pieces[a].text|
  }

  /** A piece just closed is among the final ones. */
  lemma ClosedIsFinal(r: Reading, after: bool, wordlessAfter: bool, next: Reading, rest: seq<Token>,
                      text: Text, insensitive: bool, k: nat, g: nat) returns (a: nat, start: nat)
    requires ReadingHolds(r, text, insensitive, k) && k - |r.text| <= g < k
    requires (after ==> BoundaryAt(text, k)) && (wordlessAfter ==> !WordAt(text, k))
    requires next.pieces == Close(r, after, wordlessAfter).pieces
    ensures Contains(Close(ReadTokens(next, rest), false, false).pieces, a, text, insensitive, start, g)
  {
    CloseHolds(r, text, insensitive, k, after, wordlessAfter);
    ReadTokensGrow(next, rest);
    a, start := |r.pieces|, k - |r.text|;
    assert Close(ReadTokens(next, rest), false, false).pieces[a] == next.pieces[a];
  }

  /** Every letter or digit of a match, or of what was read before it, is in one of its pieces. */
  lemma {:induction false} MatchInPieces(r: Reading, tokens: seq<Token>, text: Text, insensitive: bool, k: nat, j: nat,
                                         g: nat)
    returns (a: nat, start: nat)
    requires ReadingHolds(r, text, insensitive, k) && Flat(tokens) && Matches(tokens, text, insensitive, k, j)
    requires k - |r.text| <= g < j <= |text| && IsAlphanumeric(text[g])
    ensures Contains(Close(ReadTokens(r, tokens), false, false).pieces, a, text, insensitive, start, g)
    decreases |tokens|
  {
    if tokens == [] {
      a, start := ClosedIsFinal(r, false, false, Close(r, false, false), [], text, insensitive, k, g);
    } else {
      var token, rest := tokens[0], tokens[1..];
      var m := FirstEnds(tokens, text, insensitive, k, j);
      MatchesBounds(rest, text, insensitive, m, j);
      var next := ReadToken(r, token);
      TokenHolds(r, token, text, insensitive, k, m);
      if (token.Boundary? || token.Split? || token.Wordless?) && g < k {
        a, start := ClosedIsFinal(r, token.Boundary?, token.Wordless? && !token.before, next, rest, text, insensitive,
                                  k, g);
      } else {
        assert m - |next.text| <= g;
        a, start := MatchInPieces(next, rest, text, insensitive, m, j, g);
      }
    }
  }

  /** A piece that stands in a refilling over a generated position fits the template there. */
  lemma StandingFits(haystack: Text, classes: Classes, other: Text, piece: Piece, insensitive: bool, start: nat, g: nat)
    requires Refills(haystack, classes, other) && StandsAt(piece, other, insensitive, start)
    requires start <= g < start + |piece.text| && classes[g].Some?
    ensures FitsAt(haystack, classes, piece, insensitive, start)
  {
    forall at ensures IsWord(haystack, classes, at) == WordAt(other, at) {
      if 0 <= at < |other| && classes[at].Some? { MembersAlphanumeric(classes[at].value, other[at]); }
    }
    assert IsWordChar(piece.text[0]) == WordAt(other, start) by {
      assert Same(insensitive, other[start + 0], piece.text[0]);
    }
    var n := |piece.text|;
    assert IsWordChar(piece.text[n - 1]) == WordAt(other, start + n - 1) by {
      assert Same(insensitive, other[start + (n - 1)], piece.text[n - 1]);
    }
    forall i | 0 <= i < n ensures CharFits(haystack, classes, insensitive, start + i, piece.text[i]) {
      assert CanBe(haystack, classes, insensitive, start + i, piece.text[i], other[start + i]);
      FitsIffCanBe(haystack, classes, insensitive, start + i, piece.text[i]);
    }
  }

  // ----- nothing is missed

  /** A match of the pattern, in some refilling of the text, that reaches over a generated position. */
  ghost predicate MatchesByChance(haystack: Text, classes: Classes, alternative: seq<Token>, insensitive: bool,
                                  other: Text, i: nat, j: nat, g: nat) {
    && Refills(haystack, classes, other) && Matches(alternative, other, insensitive, i, j)
    && i <= g < j <= |other| && classes[g].Some?
  }

  /** A match of a sequence without groups, over a generated position, has a piece that fits the template. */
  lemma FlatMatchFits(haystack: Text, classes: Classes, tokens: seq<Token>, insensitive: bool, other: Text, i: nat,
                      j: nat, g: nat)
    returns (a: nat, start: nat)
    requires Flat(tokens) && MatchesByChance(haystack, classes, tokens, insensitive, other, i, j, g)
    ensures a < |Pieces(tokens)| && FitsAt(haystack, classes, Pieces(tokens)[a], insensitive, start)
  {
    MembersAlphanumeric(classes[g].value, other[g]);
    MatchesBounds(tokens, other, insensitive, i, j);
    a, start := MatchInPieces(NOTHING_READ, tokens, other, insensitive, i, j, g);
    StandingFits(haystack, classes, other, Pieces(tokens)[a], insensitive, start, g);
  }

  /** Some piece fits the template somewhere. */
  ghost predicate SomeFits(haystack: Text, classes: Classes, pieces: seq<Piece>, insensitive: bool)
    requires |classes| == |haystack|
  {
    exists a, start: nat | 0 <= a < |pieces| :: FitsAt(haystack, classes, pieces[a], insensitive, start)
  }

  /**
   * Soundness: when some alternative of a pattern matches some refilling over a generated position, one of
   * the expansions matches there; every expansion that does has a piece that fits, and unless it is
   * an identity of its own, it makes the pattern hazardous, whatever the other alternatives are.
   */
  lemma NoHazardMissed(identity: Text -> bool, haystack: Text, classes: Classes, alternatives: seq<Sequence>,
                       insensitive: bool,
                       b: nat, other: Text, i: nat, j: nat, g: nat)
    requires b < |alternatives|
             && MatchesByChance(haystack, classes, alternatives[b].tokens, insensitive, other, i, j, g)
    requires ExpandAll(alternatives).Some?
    ensures |classes| == |haystack|
    ensures AnyMatches(ExpandAll(alternatives).value, other, insensitive, i, j)
    ensures var expanded := ExpandAll(alternatives).value;
            forall e | 0 <= e < |expanded| && Matches(expanded[e], other, insensitive, i, j) ::
              && SomeFits(haystack, classes, Pieces(expanded[e]), insensitive)
              && (!identity(JoinedText(Pieces(expanded[e]))) ==>
                    Hazardous(identity, haystack, classes, Skeleton(Pattern(alternatives, insensitive)).value,
                              insensitive))
  {
    var expanded := ExpandAll(alternatives).value;
    var skeleton := Skeleton(Pattern(alternatives, insensitive)).value;
    ExpandAllExact(alternatives, other, insensitive, i, j);
    forall e | 0 <= e < |expanded| && Matches(expanded[e], other, insensitive, i, j)
      ensures SomeFits(haystack, classes, Pieces(expanded[e]), insensitive)
      ensures !identity(JoinedText(Pieces(expanded[e]))) ==>
              Hazardous(identity, haystack, classes, skeleton, insensitive)
    {
      var a, start := FlatMatchFits(haystack, classes, expanded[e], insensitive, other, i, j, g);
      assert skeleton[e] == Pieces(expanded[e]);
    }
  }

  /** For a string that is no identity, a hazard is exactly that some refilling has it over a generated position. */
  lemma LiteralHazardIff(identity: Text -> bool, haystack: Text, classes: Classes, text: Text)
    requires |classes| == |haystack| && ProperClasses(classes) && !identity(text)
    ensures Hazardous(identity, haystack, classes, Skeleton(Literal(text)).value, false) <==>
            exists other, start: nat :: Refills(haystack, classes, other)
                && OccursAt(classes, other, false, text, start)
  {
    var piece := Piece(text, false, false, false, false);
    var skeleton := Skeleton(Literal(text)).value;
    assert skeleton == [[piece]];
    assert JoinedText([piece]) == text + [] == text;
    if Hazardous(identity, haystack, classes, skeleton, false) {
      var a, k, start: nat :| 0 <= a < |skeleton| && 0 <= k < |skeleton[a]|
        && !identity(JoinedText(skeleton[a])) && FitsAt(haystack, classes, skeleton[a][k], false, start);
      LiteralFitsIff(haystack, classes, text, false, start);
    }
    if other, start: nat :| Refills(haystack, classes, other) && OccursAt(classes, other, false, text, start) {
      LiteralFitsIff(haystack, classes, text, false, start);
      assert FitsAt(haystack, classes, skeleton[0][0], false, start) && !identity(JoinedText(skeleton[0]));
    }
  }

  // ----- repetition

  /** A token repeated any number of times. */
  ghost predicate Repeats(t: Token, text: Text, insensitive: bool, times: nat, i: nat, j: nat) {
    if times == 0 then i == j <= |text|
    else
      exists k: nat | k <= j ::
        MatchesToken(t, text, insensitive, i, k) && Repeats(t, text, insensitive, times - 1, k, j)
  }

  lemma {:induction false} NonAlphanumericToken(t: Token, text: Text, insensitive: bool, i: nat, k: nat)
    requires NonAlphanumeric(t) && MatchesToken(t, text, insensitive, i, k)
    ensures NoAlphanumeric(text, i, k)
    decreases t, 0
  {
    if t.Group? {
      var a :| 0 <= a < |t.alternatives| && Matches(t.alternatives[a].tokens, text, insensitive, i, k);
      NonAlphanumericTokens(t.alternatives[a].tokens, text, insensitive, i, k);
    }
  }

  lemma {:induction false} NonAlphanumericTokens(tokens: seq<Token>, text: Text, insensitive: bool, i: nat, j: nat)
    requires (forall k | 0 <= k < |tokens| :: NonAlphanumeric(tokens[k])) && Matches(tokens, text, insensitive, i, j)
    ensures i <= j <= |text| && NoAlphanumeric(text, i, j)
    decreases tokens, 1
  {
    MatchesBounds(tokens, text, insensitive, i, j);
    if tokens != [] {
      var k := FirstEnds(tokens, text, insensitive, i, j);
      NonAlphanumericToken(tokens[0], text, insensitive, i, k);
      NonAlphanumericTokens(tokens[1..], text, insensitive, k, j);
    }
  }

  /** What stands for a repeated token matches whatever any number of repetitions matches. */
  lemma {:induction false} QuantifiedCovers(t: Token, text: Text, insensitive: bool, times: nat, i: nat, j: nat)
    requires Quantified(t).Some? && Repeats(t, text, insensitive, times, i, j)
    ensures MatchesToken(Quantified(t).value, text, insensitive, i, j)
  {
    if times > 0 {
      var k: nat :| k <= j && MatchesToken(t, text, insensitive, i, k)
          && Repeats(t, text, insensitive, times - 1, k, j);
      QuantifiedCovers(t, text, insensitive, times - 1, k, j);
      if Quantified(t) == Some(Split) { NonAlphanumericToken(t, text, insensitive, i, k); }
    }
  }
}
