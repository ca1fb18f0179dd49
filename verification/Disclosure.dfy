/**
 * Whether an assertion that a text does not contain a sentinel could fail by chance: the text is
 * a template whose generated positions each stand for a class of characters, and a pattern stands for
 * literal pieces, all of which a match would hold.
 */
module Disclosure {
  import opened Texts

  // ----- characters

  predicate IsAlphanumeric(c: CodeUnit) {
    0x30 <= c <= 0x39 || 0x41 <= c <= 0x5a || 0x61 <= c <= 0x7a
  }

  function Upper(c: CodeUnit): CodeUnit {
    if 0x61 <= c <= 0x7a then c - 0x20 else c
  }

  predicate Same(insensitive: bool, a: CodeUnit, b: CodeUnit) {
    if insensitive then Lower(a) == Lower(b) else a == b
  }

  // ----- the template

  datatype Shape = Ulid | Uuid | Instant | Digest

  datatype Generated = Generated(shape: Shape, index: nat, value: Text)

  /** What a generated position could have come out as. */
  datatype Class = UpTo(last: CodeUnit) | Hex | Crockford

  type Classes = seq<Option<Class>>

  const DIGITS := UpTo(0x39)

  predicate Member(k: Class, c: CodeUnit) {
    match k
    case UpTo(last) => 0x30 <= c <= last <= 0x39
    case Hex => 0x30 <= c <= 0x39 || 0x61 <= c <= 0x66 || 0x41 <= c <= 0x46
    case Crockford =>
      (0x30 <= c <= 0x39 || 0x41 <= c <= 0x5a) && c != 0x49 && c != 0x4c && c != 0x4f && c != 0x55
  }

  predicate Allowed(insensitive: bool, k: Class, c: CodeUnit) {
    Member(k, c) || (insensitive && (Member(k, Upper(c)) || Member(k, Lower(c))))
  }

  /** What a character of an instant may be: itself in the year, any digit after the point. */
  function InstantClass(value: Text, i: nat): Option<Class>
    requires i < |value|
  {
    if i < 19 then
      (if i == 5 then Some(UpTo(0x31))
       else if i == 8 then Some(UpTo(0x33))
       else if i == 11 then Some(UpTo(0x32))
       else if i == 14 || i == 17 then Some(UpTo(0x35))
       else if i == 6 || i == 9 || i == 12 || i == 15 || i == 18 then Some(DIGITS)
       else None)
    else if value[19] == 0x2e && i > 19 && forall k | 20 <= k <= i :: IsDigit(value[k]) then Some(DIGITS)
    else None
  }

  function ClassIn(g: Generated, i: nat): Option<Class>
    requires i < |g.value|
  {
    match g.shape
    case Ulid => Some(if i == 0 then UpTo(0x37) else Crockford)
    case Instant => InstantClass(g.value, i)
    case _ => if g.value[i] == 0x2d then None else Some(Hex)
  }

  /** Found in a text: each value stands where its index says. */
  ghost predicate FoundIn(haystack: Text, generated: seq<Generated>) {
    forall g | 0 <= g < |generated| :: StartsAt(haystack, generated[g].value, generated[g].index)
  }

  /** The class of position `p`: the last generated value that has one there decides. */
  function ClassAt(generated: seq<Generated>, p: nat): Option<Class> {
    if generated == [] then None
    else
      var g := generated[|generated| - 1];
      if g.index <= p < g.index + |g.value| && ClassIn(g, p - g.index).Some? then ClassIn(g, p - g.index)
      else ClassAt(generated[..|generated| - 1], p)
  }

  /** `classesOf`. */
  method ClassesOf(haystack: Text, generated: seq<Generated>) returns (classes: Classes)
    requires FoundIn(haystack, generated)
    ensures |classes| == |haystack| && forall p | 0 <= p < |haystack| :: classes[p] == ClassAt(generated, p)
  {
    var cells := new Option<Class>[|haystack|](_ => None);
    for n := 0 to |generated|
      invariant forall p | 0 <= p < |haystack| :: cells[p] == ClassAt(generated[..n], p)
    {
      var g := generated[n];
      assert StartsAt(haystack, g.value, g.index);
      assert generated[..n + 1][..n] == generated[..n];
      for i := 0 to |g.value|
        invariant forall p | 0 <= p < |haystack| ::
          cells[p] == ClassAt(if g.index <= p < g.index + i then generated[..n + 1] else generated[..n], p)
      {
        var allowed := ClassIn(g, i);
        if allowed.Some? {
          cells[g.index + i] := allowed;
        }
      }
    }
    assert generated[..|generated|] == generated;
    classes := cells[..];
  }

  // ----- pieces

  /** Consecutive characters that no match of an alternative is without, and the conditions on either side of them. */
  datatype Piece = Piece(
    text: Text, boundaryBefore: bool, boundaryAfter: bool, wordlessBefore: bool, wordlessAfter: bool)

  predicate IsWord(haystack: Text, classes: Classes, at: int)
    requires |classes| == |haystack|
  {
    0 <= at < |haystack| && (classes[at].Some? || IsWordChar(haystack[at]))
  }

  predicate CharFits(haystack: Text, classes: Classes, insensitive: bool, at: nat, c: CodeUnit)
    requires |classes| == |haystack| && at < |haystack|
  {
    match classes[at]
    case None => Same(insensitive, haystack[at], c)
    case Some(k) => Allowed(insensitive, k, c)
  }

  predicate EdgesFit(haystack: Text, classes: Classes, piece: Piece, start: nat)
    requires |classes| == |haystack|
  {
    var n := |piece.text|;
    && !(piece.boundaryBefore && (IsWord(haystack, classes, start - 1) <==> n > 0 && IsWordChar(piece.text[0])))
    && !(piece.wordlessBefore && IsWord(haystack, classes, start - 1))
    && !(piece.wordlessAfter && IsWord(haystack, classes, start + n))
    && !(piece.boundaryAfter && (IsWord(haystack, classes, start + n) <==> n > 0 && IsWordChar(piece.text[n - 1])))
  }

  /** The piece fits the template at `start`, with at least one character on a class. */
  ghost predicate FitsAt(haystack: Text, classes: Classes, piece: Piece, insensitive: bool, start: nat)
    requires |classes| == |haystack|
  {
    && start + |piece.text| <= |haystack| && EdgesFit(haystack, classes, piece, start)
    && (forall i | 0 <= i < |piece.text| :: CharFits(haystack, classes, insensitive, start + i, piece.text[i]))
    && (exists p | start <= p < start + |piece.text| :: classes[p].Some?)
  }

  /** `fitsTemplate`: the first position where the piece fits, if any. */
  method FitsTemplate(haystack: Text, classes: Classes, piece: Piece, insensitive: bool) returns (r: Option<nat>)
    requires |classes| == |haystack|
    ensures r.None? ==> forall start: nat :: !FitsAt(haystack, classes, piece, insensitive, start)
    ensures r.Some? ==> FitsAt(haystack, classes, piece, insensitive, r.value)
    ensures r.Some? ==> forall start: nat | start < r.value :: !FitsAt(haystack, classes, piece, insensitive, start)
  {
    var text := piece.text;
    var start := 0;
    while start + |text| <= |haystack|
      invariant forall k: nat | k < start :: !FitsAt(haystack, classes, piece, insensitive, k)
    {
      if EdgesFit(haystack, classes, piece, start) {
        var generated := false;
        var fits := true;
        var i := 0;
        while i < |text| && fits
          invariant 0 <= i <= |text|
          invariant generated <==> exists p | start <= p < start + i :: classes[p].Some?
          invariant fits ==> forall k | 0 <= k < i :: CharFits(haystack, classes, insensitive, start + k, text[k])
          invariant !fits ==> exists k | 0 <= k < i :: !CharFits(haystack, classes, insensitive, start + k, text[k])
        {
          if classes[start + i].Some? {
            generated := true;
          }
          fits := CharFits(haystack, classes, insensitive, start + i, text[i]);
          i := i + 1;
        }
        if fits && generated {
          return Some(start);
        }
      }
      start := start + 1;
    }
    r := None;
  }

  // ----- the token language

  datatype Token =
    | Char(c: CodeUnit)
    | Boundary
    | Split
    | Zero
    | Wordless(before: bool)
    | Group(alternatives: seq<Sequence>)

  datatype Sequence = Sequence(tokens: seq<Token>)

  const MAX_ALTERNATIVES := 256

  /** Every prefix followed by every option. */
  function Product(prefixes: seq<seq<Token>>, options: seq<seq<Token>>): seq<seq<Token>> {
    if prefixes == [] then []
    else Append(prefixes[0], options) + Product(prefixes[1..], options)
  }

  function Append(prefix: seq<Token>, options: seq<seq<Token>>): (r: seq<seq<Token>>)
    ensures |r| == |options| && forall i | 0 <= i < |options| :: r[i] == prefix + options[i]
  {
    seq(|options|, i requires 0 <= i < |options| => prefix + options[i])
  }

  /** `expand`: the sequence's alternatives, groups multiplied out; none when there are too many. */
  function Expand(sequence: seq<Token>): Option<seq<seq<Token>>>
    decreases sequence, 1
  {
    ExpandFrom([[]], sequence)
  }

  function ExpandFrom(out: seq<seq<Token>>, sequence: seq<Token>): Option<seq<seq<Token>>>
    decreases sequence, 0
  {
    if sequence == [] then Some(out)
    else match sequence[0]
      case Group(alternatives) =>
        var options := ExpandAll(alternatives);
        if options.None? then None
        else
          var more := Product(out, options.value);
          if |more| > MAX_ALTERNATIVES then None else ExpandFrom(more, sequence[1..])
      case token => ExpandFrom(Product(out, [[token]]), sequence[1..])
  }

  function ExpandAll(alternatives: seq<Sequence>): Option<seq<seq<Token>>>
    decreases alternatives, 0
  {
    if alternatives == [] then Some([])
    else
      var first, rest := Expand(alternatives[0].tokens), ExpandAll(alternatives[1..]);
      if first.None? || rest.None? then None else Some(first.value + rest.value)
  }

  /** What `piecesOf` keeps while it reads tokens. */
  datatype Reading = Reading(
    pieces: seq<Piece>, text: Text, before: bool, pending: bool, wordless: bool, pendingWordless: bool)

  function Close(r: Reading, after: bool, wordlessAfter: bool): Reading {
    if r.text == [] then r
    else r.(pieces := r.pieces + [Piece(r.text, r.before, after, r.wordless, wordlessAfter)], text := [])
  }

  function ReadToken(r: Reading, token: Token): Reading {
    match token
    case Char(c) =>
      r.(before := if r.text == [] then r.pending else r.before,
         wordless := if r.text == [] then r.pendingWordless else r.wordless,
         pending := false, pendingWordless := false, text := r.text + [c])
    case Boundary => Close(r, true, false).(pending := true)
    case Split => Close(r, false, false).(pending := false, pendingWordless := false)
    case Wordless(before) =>
      if before then Close(r, false, false).(pendingWordless := true) else Close(r, false, true)
    case Zero => r
    case Group(_) => r
  }

  function ReadTokens(r: Reading, tokens: seq<Token>): Reading
    decreases |tokens|
  {
    if tokens == [] then r else ReadTokens(ReadToken(r, tokens[0]), tokens[1..])
  }

  const NOTHING_READ := Reading([], [], false, false, false, false)

  /** The pieces of a sequence without groups. */
  function Pieces(tokens: seq<Token>): seq<Piece> {
    Close(ReadTokens(NOTHING_READ, tokens), false, false).pieces
  }

  /** `piecesOf`. */
  method PiecesOf(tokens: seq<Token>) returns (pieces: seq<Piece>)
    ensures pieces == Pieces(tokens)
  {
    var r := NOTHING_READ;
    assert tokens[0..] == tokens;
    for i := 0 to |tokens|
      invariant ReadTokens(r, tokens[i..]) == ReadTokens(NOTHING_READ, tokens)
    {
      assert tokens[i..][1..] == tokens[i + 1..];
      r := ReadToken(r, tokens[i]);
    }
    pieces := Close(r, false, false).pieces;
  }

  /** All of a token's matches are free of letters and digits. */
  predicate NonAlphanumeric(t: Token)
    decreases t
  {
    match t
    case Char(c) => !IsAlphanumeric(c)
    case Group(alternatives) =>
      forall a | 0 <= a < |alternatives| ::
        forall k | 0 <= k < |alternatives[a].tokens| :: NonAlphanumeric(alternatives[a].tokens[k])
    case _ => true
  }

  /** `quantified`: what stands for a token that may repeat; nothing where no token can. */
  function Quantified(t: Token): Option<Token> {
    if t.Zero? || t.Boundary? || t.Wordless? then Some(Zero)
    else if NonAlphanumeric(t) then Some(Split)
    else None
  }

  // ----- the decision

  /** A string, or a pattern as alternatives of tokens. */
  datatype Sentinel = Literal(text: Text) | Pattern(alternatives: seq<Sequence>, insensitive: bool)

  datatype Verdict = NoHazard | Irreducible | CouldOccur(piece: Piece, at: nat)

  /** `skeletonOf`, from the tokens on. */
  function Skeleton(sentinel: Sentinel): Option<seq<seq<Piece>>> {
    match sentinel
    case Literal(text) => Some([[Piece(text, false, false, false, false)]])
    case Pattern(alternatives, _) =>
      match ExpandAll(alternatives)
      case None => None
      case Some(expanded) => Some(AllPieces(expanded))
  }

  function AllPieces(expanded: seq<seq<Token>>): (r: seq<seq<Piece>>)
    ensures |r| == |expanded| && forall i | 0 <= i < |expanded| :: r[i] == Pieces(expanded[i])
  {
    seq(|expanded|, i requires 0 <= i < |expanded| => Pieces(expanded[i]))
  }

  function Insensitive(sentinel: Sentinel): bool {
    sentinel.Pattern? && sentinel.insensitive
  }

  function JoinedText(pieces: seq<Piece>): Text {
    if pieces == [] then [] else pieces[0].text + JoinedText(pieces[1..])
  }

  /** Some alternative that is no identity of its own has a piece that fits the template. */
  ghost predicate Hazardous(identity: Text -> bool, haystack: Text, classes: Classes, skeleton: seq<seq<Piece>>,
                            insensitive: bool)
    requires |classes| == |haystack|
  {
    exists a, k, start: nat | 0 <= a < |skeleton| && 0 <= k < |skeleton[a]| ::
      !identity(JoinedText(skeleton[a])) && FitsAt(haystack, classes, skeleton[a][k], insensitive, start)
  }

  /** `absenceHazard`. `identity` says whether a text holds a whole generated identity. */
  method AbsenceHazard(identity: Text -> bool, haystack: Text, generated: seq<Generated>, sentinel: Sentinel)
    returns (verdict: Verdict, ghost classes: Classes)
    requires FoundIn(haystack, generated)
    ensures |classes| == |haystack| && forall p | 0 <= p < |haystack| :: classes[p] == ClassAt(generated, p)
    ensures verdict == Irreducible <==> generated != [] && Skeleton(sentinel).None?
    ensures generated == [] ==> verdict == NoHazard
    ensures generated != [] && Skeleton(sentinel).Some? ==>
              (verdict.CouldOccur? <==> Hazardous(identity, haystack, classes, Skeleton(sentinel).value,
                                                  Insensitive(sentinel)))
  {
    var found := ClassesOf(haystack, generated);
    classes := found;
    if generated == [] {
      return NoHazard, classes;
    }
    var skeleton := Skeleton(sentinel);
    if skeleton.None? {
      return Irreducible, classes;
    }
    var alternatives := skeleton.value;
    for a := 0 to |alternatives|
      invariant forall b, k, start: nat | 0 <= b < a && 0 <= k < |alternatives[b]| ::
        identity(JoinedText(alternatives[b]))
            || !FitsAt(haystack, found, alternatives[b][k], Insensitive(sentinel), start)
    {
      if !identity(JoinedText(alternatives[a])) {
        for k := 0 to |alternatives[a]|
          invariant forall j, start: nat | 0 <= j < k :: !FitsAt(haystack, found, alternatives[a][j],
                                                                 Insensitive(sentinel), start)
        {
          var at := FitsTemplate(haystack, found, alternatives[a][k], Insensitive(sentinel));
          if at.Some? {
            return CouldOccur(alternatives[a][k], at.value), classes;
          }
        }
      }
    }
    verdict := NoHazard;
  }
}
