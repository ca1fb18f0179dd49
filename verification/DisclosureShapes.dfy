/**
 * What the classes say of each shape: the texts another run could have generated, stated by the
 * shape itself, are exactly the texts a template's positions stand for.
 */
module DisclosureShapes {
  import opened Texts
  import opened Disclosure
  import opened DisclosureProofs

  // ----- the shapes

  predicate IsHex(c: CodeUnit) {
    IsDigit(c) || 0x61 <= c <= 0x66 || 0x41 <= c <= 0x46
  }

  /** `[0-9A-HJKMNP-TV-Z]`. */
  predicate IsCrockford(c: CodeUnit) {
    IsDigit(c) || 0x41 <= c <= 0x48 || c == 0x4a || c == 0x4b || c == 0x4d || c == 0x4e || 0x50 <= c <= 0x54
    || 0x56 <= c <= 0x5a
  }

  ghost predicate UlidShape(t: Text) {
    |t| == 26 && 0x30 <= t[0] <= 0x37 && forall i | 1 <= i < 26 :: IsCrockford(t[i])
  }

  ghost predicate HexAt(t: Text, from: nat, n: nat) {
    from + n <= |t| && forall i | from <= i < from + n :: IsHex(t[i])
  }

  ghost predicate DigitsAt(t: Text, from: nat, n: nat) {
    from + n <= |t| && forall i | from <= i < from + n :: IsDigit(t[i])
  }

  /** Eight, four, four, four and twelve hex digits, a dash between each two. */
  ghost predicate UuidShape(t: Text) {
    && |t| == 36 && HexAt(t, 0, 8) && HexAt(t, 9, 4) && HexAt(t, 14, 4) && HexAt(t, 19, 4) && HexAt(t, 24, 12)
    && t[8] == DASH && t[13] == DASH && t[18] == DASH && t[23] == DASH
  }

  /** At least thirty-two hex digits, a letter among them. */
  ghost predicate DigestShape(t: Text) {
    |t| >= 32 && HexAt(t, 0, |t|) && exists i | 0 <= i < |t| :: !IsDigit(t[i])
  }

  /** Nothing, `Z`, or a sign, two digits, perhaps a colon, and two digits. */
  ghost predicate IsZone(t: Text, at: nat) {
    at == |t| || (at + 1 == |t| && t[at] == 0x5a) || IsOffset(t, at)
  }

  ghost predicate IsOffset(t: Text, at: nat) {
    && at < |t| && (t[at] == PLUS || t[at] == DASH) && DigitsAt(t, at + 1, 2)
    && ((|t| == at + 5 && DigitsAt(t, at + 3, 2)) || (|t| == at + 6 && t[at + 3] == COLON && DigitsAt(t, at + 4, 2)))
  }

  /** Where an instant's zone begins: after the minutes, the seconds, or the fraction. */
  ghost function ZoneStart(seconds: bool, fraction: nat): nat {
    if !seconds then 16 else if fraction == 0 then 19 else 20 + fraction
  }

  /** A date and hours and minutes; perhaps seconds, and then perhaps a point and up to nine digits; perhaps a zone. */
  ghost predicate InstantShape(t: Text, seconds: bool, fraction: nat) {
    && (fraction > 0 ==> seconds) && fraction <= 9 && ZoneStart(seconds, fraction) <= |t|
    && DigitsAt(t, 0, 4) && t[4] == DASH && DigitsAt(t, 5, 2) && t[7] == DASH && DigitsAt(t, 8, 2) && t[10] == 0x54
    && DigitsAt(t, 11, 2) && t[13] == COLON && DigitsAt(t, 14, 2)
    && (seconds ==> t[16] == COLON && DigitsAt(t, 17, 2))
    && (fraction > 0 ==> t[19] == DOT && DigitsAt(t, 20, fraction))
    && IsZone(t, ZoneStart(seconds, fraction))
  }

  /** What is found has the shape it is found as. */
  ghost predicate Shaped(g: Generated) {
    match g.shape
    case Ulid => UlidShape(g.value)
    case Uuid => UuidShape(g.value)
    case Digest => DigestShape(g.value)
    case Instant => exists seconds, fraction :: InstantShape(g.value, seconds, fraction)
  }

  // ----- what another run could have generated in a value's place

  predicate UpToDigit(c: CodeUnit, last: CodeUnit) {
    0x30 <= c <= last
  }

  ghost predicate SameOn(t: Text, other: Text, from: nat, upTo: nat) {
    |t| == |other| && upTo <= |t| && forall i | from <= i < upTo :: other[i] == t[i]
  }

  /** The month, day, hour and minute in their ranges by digit; the year and the separators as they were. */
  ghost predicate DateVaries(t: Text, other: Text)
    requires |t| == |other| >= 16
  {
    && SameOn(t, other, 0, 5)
    && UpToDigit(other[5], 0x31) && IsDigit(other[6]) && other[7] == t[7]
    && UpToDigit(other[8], 0x33) && IsDigit(other[9]) && other[10] == t[10]
    && UpToDigit(other[11], 0x32) && IsDigit(other[12]) && other[13] == t[13]
    && UpToDigit(other[14], 0x35) && IsDigit(other[15])
  }

  /** The seconds in their range, the fraction any digits, and the zone as it was. */
  ghost predicate SecondsVary(t: Text, fraction: nat, other: Text)
    requires |t| == |other| >= ZoneStart(true, fraction)
  {
    && other[16] == t[16] && UpToDigit(other[17], 0x35) && IsDigit(other[18])
    && (fraction > 0 ==> other[19] == t[19] && DigitsAt(other, 20, fraction))
    && SameOn(t, other, ZoneStart(true, fraction), |t|)
  }

  /** Without seconds, whatever stands two and three past the minutes is taken for them: the hours of an offset. */
  ghost predicate OffsetVaries(t: Text, other: Text)
    requires |t| == |other| >= 16
  {
    if IsOffset(t, 16) then
      other[16] == t[16] && UpToDigit(other[17], 0x35) && IsDigit(other[18]) && SameOn(t, other, 19, |t|)
    else SameOn(t, other, 16, |t|)
  }

  ghost predicate InstantVaries(t: Text, seconds: bool, fraction: nat, other: Text)
    requires InstantShape(t, seconds, fraction)
  {
    && |other| == |t| && DateVaries(t, other)
    && if seconds then SecondsVary(t, fraction, other) else OffsetVaries(t, other)
  }

  /**
   * Another run's value in this one's place: another of its shape, as long; a run of digits too
   * where this one is a digest. An instant keeps its year, its separators and its zone.
   */
  ghost predicate ComesOutAs(g: Generated, other: Text) {
    match g.shape
    case Ulid => UlidShape(other)
    case Uuid => UuidShape(other)
    case Digest => |other| == |g.value| && HexAt(other, 0, |other|)
    case Instant =>
      exists seconds, fraction :: InstantShape(g.value, seconds, fraction)
                                  && InstantVaries(g.value, seconds, fraction, other)
  }

  /** A text stands in the value's place with each character of its position's class, or as it was. */
  ghost predicate FillsIn(g: Generated, other: Text) {
    |other| == |g.value| && forall i | 0 <= i < |other| :: FillsAt(g, i, other[i])
  }

  ghost predicate FillsAt(g: Generated, i: nat, c: CodeUnit)
    requires i < |g.value|
  {
    match ClassIn(g, i) case None => c == g.value[i] case Some(k) => Member(k, c)
  }

  lemma CrockfordMember(c: CodeUnit)
    ensures Member(Crockford, c) <==> IsCrockford(c)
    ensures Member(Hex, c) <==> IsHex(c)
    ensures Member(DIGITS, c) <==> IsDigit(c)
  {
  }

  lemma UlidFillsIff(g: Generated, other: Text)
    requires g.shape == Ulid && UlidShape(g.value)
    ensures FillsIn(g, other) <==> UlidShape(other)
  {
    if FillsIn(g, other) { assert FillsAt(g, 0, other[0]); }
    forall i | 1 <= i < |other| && |other| == 26 ensures FillsAt(g, i, other[i]) <==> IsCrockford(other[i]) {
      CrockfordMember(other[i]);
    }
  }

  predicate IsDashAt(i: nat) {
    i == 8 || i == 13 || i == 18 || i == 23
  }

  ghost predicate HexAndDashes(t: Text) {
    |t| == 36 && forall i | 0 <= i < 36 :: if IsDashAt(i) then t[i] == DASH else IsHex(t[i])
  }

  lemma UuidChars(t: Text)
    ensures UuidShape(t) <==> HexAndDashes(t)
  {
    if HexAndDashes(t) { assert IsDashAt(8) && IsDashAt(13) && IsDashAt(18) && IsDashAt(23); }
  }

  lemma UuidFillsIff(g: Generated, other: Text)
    requires g.shape == Uuid && UuidShape(g.value)
    ensures FillsIn(g, other) <==> UuidShape(other)
  {
    UuidChars(g.value);
    UuidChars(other);
    if |other| == 36 {
      forall i | 0 <= i < 36
        ensures FillsAt(g, i, other[i]) <==> if IsDashAt(i) then other[i] == DASH else IsHex(other[i])
      {
        CrockfordMember(other[i]);
      }
    }
  }

  lemma DigestFillsIff(g: Generated, other: Text)
    requires g.shape == Digest && DigestShape(g.value)
    ensures FillsIn(g, other) <==> |other| == |g.value| && HexAt(other, 0, |other|)
  {
    if |other| == |g.value| {
      forall i | 0 <= i < |other| ensures FillsAt(g, i, other[i]) <==> IsHex(other[i]) { CrockfordMember(other[i]); }
    }
  }

  // ----- instants

  /** The class of a position past the seconds: a digit of the fraction. */
  lemma PastSeconds(t: Text, seconds: bool, fraction: nat, i: nat)
    requires InstantShape(t, seconds, fraction) && 19 <= i < |t|
    ensures InstantClass(t, i) == if 20 <= i < 20 + fraction then Some(DIGITS) else None
  {
    if fraction == 0 {
      NoPoint(t, seconds);
    } else if i >= 20 + fraction {
      assert !IsDigit(t[20 + fraction]);
    }
  }

  lemma NoPoint(t: Text, seconds: bool)
    requires InstantShape(t, seconds, 0) && |t| > 19
    ensures t[19] != DOT
  {
  }

  lemma DateFills(g: Generated, seconds: bool, fraction: nat, other: Text)
    requires g.shape == Instant && InstantShape(g.value, seconds, fraction) && |other| == |g.value|
    ensures (forall i | 0 <= i < 16 :: FillsAt(g, i, other[i])) <==> DateVaries(g.value, other)
  {
    if forall i | 0 <= i < 16 :: FillsAt(g, i, other[i]) {
      assert FillsAt(g, 5, other[5]) && FillsAt(g, 6, other[6]) && FillsAt(g, 7, other[7]) && FillsAt(g, 8, other[8]);
      assert FillsAt(g, 9, other[9]) && FillsAt(g, 10, other[10]) && FillsAt(g, 11, other[11]);
      assert FillsAt(g, 12, other[12]) && FillsAt(g, 13, other[13]) && FillsAt(g, 14, other[14]);
      assert FillsAt(g, 15, other[15]);
      forall i | 0 <= i < 5 ensures other[i] == g.value[i] { assert FillsAt(g, i, other[i]); }
    }
  }

  ghost predicate FillsFrom(g: Generated, other: Text, from: nat) {
    |other| == |g.value| && forall i | from <= i < |other| :: FillsAt(g, i, other[i])
  }

  lemma FractionFills(g: Generated, fraction: nat, other: Text)
    requires g.shape == Instant && InstantShape(g.value, true, fraction) && |other| == |g.value|
    ensures FillsFrom(g, other, 19) <==>
              && (fraction > 0 ==> other[19] == g.value[19] && DigitsAt(other, 20, fraction))
              && SameOn(g.value, other, ZoneStart(true, fraction), |g.value|)
  {
    forall i | 19 <= i < |other|
      ensures FillsAt(g, i, other[i]) <==>
              if 20 <= i < 20 + fraction then IsDigit(other[i]) else other[i] == g.value[i]
    {
      PastSeconds(g.value, true, fraction, i);
      CrockfordMember(other[i]);
    }
    if FillsFrom(g, other, 19) {
      assert fraction > 0 ==> FillsAt(g, 19, other[19]);
      forall i | 20 <= i < 20 + fraction ensures IsDigit(other[i]) { assert FillsAt(g, i, other[i]); }
      forall i | ZoneStart(true, fraction) <= i < |other| ensures other[i] == g.value[i] {
        assert FillsAt(g, i, other[i]);
      }
    }
  }

  lemma SecondsFill(g: Generated, fraction: nat, other: Text)
    requires g.shape == Instant && InstantShape(g.value, true, fraction) && |other| == |g.value|
    ensures FillsFrom(g, other, 16) <==> SecondsVary(g.value, fraction, other)
  {
    FractionFills(g, fraction, other);
    FromSixteen(g, other);
  }

  /** The three positions past the minutes, and the rest. */
  lemma FromSixteen(g: Generated, other: Text)
    requires g.shape == Instant && |other| == |g.value| >= 19
    ensures FillsFrom(g, other, 16) <==>
              && other[16] == g.value[16] && UpToDigit(other[17], 0x35) && IsDigit(other[18])
              && FillsFrom(g, other, 19)
  {
    if FillsFrom(g, other, 16) {
      assert FillsAt(g, 16, other[16]) && FillsAt(g, 17, other[17]) && FillsAt(g, 18, other[18]);
    }
  }

  lemma ZoneFills(g: Generated, other: Text)
    requires g.shape == Instant && InstantShape(g.value, false, 0) && |other| == |g.value|
    ensures FillsFrom(g, other, 16) <==> OffsetVaries(g.value, other)
  {
    if IsOffset(g.value, 16) {
      FromSixteen(g, other);
      forall i | 19 <= i < |other| ensures FillsAt(g, i, other[i]) <==> other[i] == g.value[i] {
        PastSeconds(g.value, false, 0, i);
      }
    } else {
      assert |other| <= 17;
      forall i | 16 <= i < |other| ensures FillsAt(g, i, other[i]) <==> other[i] == g.value[i] {
      }
    }
  }

  lemma InstantFillsIff(g: Generated, seconds: bool, fraction: nat, other: Text)
    requires g.shape == Instant && InstantShape(g.value, seconds, fraction)
    ensures FillsIn(g, other) <==> InstantVaries(g.value, seconds, fraction, other)
  {
    if |other| == |g.value| {
      DateFills(g, seconds, fraction, other);
      assert FillsIn(g, other) <==> (forall i | 0 <= i < 16 :: FillsAt(g, i, other[i])) && FillsFrom(g, other, 16);
      if seconds { SecondsFill(g, fraction, other); } else { ZoneFills(g, other); }
    }
  }

  /** A value's positions stand for exactly the values another run could have generated in its place. */
  lemma FillsIff(g: Generated, other: Text)
    requires Shaped(g)
    ensures FillsIn(g, other) <==> ComesOutAs(g, other)
  {
    match g.shape
    case Ulid => UlidFillsIff(g, other);
    case Uuid => UuidFillsIff(g, other);
    case Digest => DigestFillsIff(g, other);
    case Instant =>
      var seconds, fraction :| InstantShape(g.value, seconds, fraction);
      InstantFillsIff(g, seconds, fraction, other);
      forall s, f | InstantShape(g.value, s, f) && InstantVaries(g.value, s, f, other) ensures FillsIn(g, other) {
        InstantFillsIff(g, s, f, other);
      }
  }

  // ----- one position

  /** Another run could have generated `c` at a value's `i`-th position. */
  ghost predicate CouldBe(g: Generated, i: nat, c: CodeUnit) {
    exists other :: HasAt(g, other, i, c)
  }

  ghost predicate HasAt(g: Generated, other: Text, i: nat, c: CodeUnit) {
    ComesOutAs(g, other) && i < |other| && other[i] == c
  }

  /** Another run could have generated something else there. */
  ghost predicate CanVary(g: Generated, i: nat) {
    i < |g.value| && exists c :: CouldBe(g, i, c) && c != g.value[i]
  }

  /** Each position filled with some member of its class. */
  ghost function AnyFilling(g: Generated): (other: Text)
  {
    seq(|g.value|, i requires 0 <= i < |g.value| => if ClassIn(g, i).None? then g.value[i] else 0x30)
  }

  lemma AnyFills(g: Generated)
    ensures FillsIn(g, AnyFilling(g))
  {
  }

  lemma CouldBeIff(g: Generated, i: nat, c: CodeUnit)
    requires Shaped(g) && i < |g.value|
    ensures CouldBe(g, i, c) <==> FillsAt(g, i, c)
  {
    if FillsAt(g, i, c) {
      AnyFills(g);
      var other := AnyFilling(g)[i := c];
      assert FillsIn(g, other);
      FillsIff(g, other);
      assert HasAt(g, other, i, c);
    }
    forall other | HasAt(g, other, i, c) ensures FillsAt(g, i, c) { FillsIff(g, other); }
  }

  /** A position has a class exactly when another run could have generated something else there, and the class is
   *  what it could have. */
  lemma ClassIsWhatCouldBe(g: Generated, i: nat)
    requires Shaped(g) && i < |g.value|
    ensures ClassIn(g, i).Some? <==> CanVary(g, i)
    ensures ClassIn(g, i).Some? ==> forall c :: Member(ClassIn(g, i).value, c) <==> CouldBe(g, i, c)
  {
    forall c: CodeUnit ensures CouldBe(g, i, c) <==> FillsAt(g, i, c) { CouldBeIff(g, i, c); }
    if ClassIn(g, i).Some? {
      var c: CodeUnit := if g.value[i] == 0x30 then 0x31 else 0x30;
      assert FillsAt(g, i, c);
      assert CouldBe(g, i, c);
    }
  }

  // ----- the whole text

  /** The last found value that could come out otherwise at a position of the text. */
  ghost predicate Decides(generated: seq<Generated>, n: int, p: nat) {
    && 0 <= n < |generated| && Within(generated[n], p) && CanVary(generated[n], p - generated[n].index)
    && forall m | n < m < |generated| && Within(generated[m], p) :: !CanVary(generated[m], p - generated[m].index)
  }

  predicate Within(g: Generated, p: nat) {
    g.index <= p < g.index + |g.value|
  }

  lemma {:induction false} ClassAtIs(generated: seq<Generated>, p: nat)
    requires forall n | 0 <= n < |generated| :: Shaped(generated[n])
    ensures ClassAt(generated, p).None? <==> forall n :: !Decides(generated, n, p)
    ensures forall n | Decides(generated, n, p) ::
              ClassAt(generated, p) == ClassIn(generated[n], p - generated[n].index)
  {
    if generated != [] {
      var last := |generated| - 1;
      var rest, g := generated[..last], generated[last];
      ClassAtIs(rest, p);
      if Within(g, p) { ClassIsWhatCouldBe(g, p - g.index); }
      if Within(g, p) && CanVary(g, p - g.index) {
        assert Decides(generated, last, p);
        forall n | Decides(generated, n, p) ensures n == last {}
      } else {
        forall n ensures Decides(generated, n, p) <==> Decides(rest, n, p) {
          if 0 <= n < last { assert rest[n] == generated[n]; }
          SameDecides(generated, n, p);
        }
      }
    }
  }

  lemma SameDecides(generated: seq<Generated>, n: int, p: nat)
    requires generated != []
    requires var g := generated[|generated| - 1]; !Within(g, p) || !CanVary(g, p - g.index)
    ensures Decides(generated, n, p) <==> Decides(generated[..|generated| - 1], n, p)
  {
    var last := |generated| - 1;
    if Decides(generated[..last], n, p) {
      forall m | n < m < |generated| && Within(generated[m], p) ensures !CanVary(generated[m], p - generated[m].index) {
        if m < last { assert generated[..last][m] == generated[m]; }
      }
    }
    if Decides(generated, n, p) && n < last {
      forall m | n < m < last && Within(generated[..last][m], p)
        ensures !CanVary(generated[..last][m], p - generated[..last][m].index)
      {
        assert generated[..last][m] == generated[m];
      }
    }
  }

  /** Another run's text: as this one's, but for what the found values could have come out as. */
  ghost predicate OtherRun(haystack: Text, generated: seq<Generated>, other: Text) {
    |other| == |haystack| && forall p | 0 <= p < |other| :: OtherAt(haystack, generated, p, other[p])
  }

  ghost predicate OtherAt(haystack: Text, generated: seq<Generated>, p: nat, c: CodeUnit)
    requires p < |haystack|
  {
    && ((forall n :: !Decides(generated, n, p)) ==> c == haystack[p])
    && (forall n | Decides(generated, n, p) :: CouldBe(generated[n], p - generated[n].index, c))
  }

  /** The refillings of a text's template are exactly the texts another run could have written in its place. */
  lemma RefillsIff(haystack: Text, generated: seq<Generated>, classes: Classes, other: Text)
    requires forall n | 0 <= n < |generated| :: Shaped(generated[n])
    requires |classes| == |haystack| && forall p | 0 <= p < |haystack| :: classes[p] == ClassAt(generated, p)
    ensures Refills(haystack, classes, other) <==> OtherRun(haystack, generated, other)
  {
    if |other| == |haystack| {
      forall p | 0 <= p < |other|
        ensures OtherAt(haystack, generated, p, other[p]) <==>
                match classes[p] case None => other[p] == haystack[p] case Some(k) => Member(k, other[p])
      {
        OtherAtIff(haystack, generated, p, other[p]);
      }
    }
  }

  lemma OtherAtIff(haystack: Text, generated: seq<Generated>, p: nat, c: CodeUnit)
    requires p < |haystack| && forall n | 0 <= n < |generated| :: Shaped(generated[n])
    ensures OtherAt(haystack, generated, p, c) <==>
            match ClassAt(generated, p) case None => c == haystack[p] case Some(k) => Member(k, c)
  {
    ClassAtIs(generated, p);
    if ClassAt(generated, p).Some? {
      var n :| Decides(generated, n, p);
      ClassIsWhatCouldBe(generated[n], p - generated[n].index);
      forall m | Decides(generated, m, p) ensures m == n {}
    }
  }

  /** The text stands in another run's text, over a position that run could have written otherwise. */
  ghost predicate OccursByChance(haystack: Text, generated: seq<Generated>, text: Text, start: nat) {
    && start + |text| <= |haystack|
    && (exists other :: OtherRun(haystack, generated, other) && StartsAt(other, text, start))
    && (exists p, n :: start <= p < start + |text| && Decides(generated, n, p))
  }

  /** A string sentinel that is no identity is a hazard exactly when some other run's text could hold it by chance. */
  lemma SentinelHazardIff(identity: Text -> bool, haystack: Text, generated: seq<Generated>, classes: Classes,
                          text: Text)
    requires forall n | 0 <= n < |generated| :: Shaped(generated[n])
    requires |classes| == |haystack| && forall p | 0 <= p < |haystack| :: classes[p] == ClassAt(generated, p)
    requires !identity(text)
    ensures Hazardous(identity, haystack, classes, Skeleton(Literal(text)).value, false) <==>
            exists start :: OccursByChance(haystack, generated, text, start)
  {
    forall p | 0 <= p < |classes| ensures classes[p].Some? ==> ProperClass(classes[p].value) {
      ClassAtProper(generated, p);
    }
    LiteralHazardIff(identity, haystack, classes, text);
    forall start: nat
      ensures OccursByChance(haystack, generated, text, start) <==>
              exists other :: Refills(haystack, classes, other) && OccursAt(classes, other, false, text, start)
    {
      OccursIff(haystack, generated, classes, text, start);
    }
  }

  lemma OccursIff(haystack: Text, generated: seq<Generated>, classes: Classes, text: Text, start: nat)
    requires forall n | 0 <= n < |generated| :: Shaped(generated[n])
    requires |classes| == |haystack| && forall p | 0 <= p < |haystack| :: classes[p] == ClassAt(generated, p)
    ensures OccursByChance(haystack, generated, text, start) <==>
            exists other :: Refills(haystack, classes, other) && OccursAt(classes, other, false, text, start)
  {
    if OccursByChance(haystack, generated, text, start) {
      var other :| OtherRun(haystack, generated, other) && StartsAt(other, text, start);
      ChanceOccurs(haystack, generated, classes, text, start, other);
    }
    forall other | Refills(haystack, classes, other) && OccursAt(classes, other, false, text, start)
      ensures OccursByChance(haystack, generated, text, start)
    {
      OccurrenceIsChance(haystack, generated, classes, text, start, other);
    }
  }

  lemma ChanceOccurs(haystack: Text, generated: seq<Generated>, classes: Classes, text: Text, start: nat, other: Text)
    requires forall n | 0 <= n < |generated| :: Shaped(generated[n])
    requires |classes| == |haystack| && forall p | 0 <= p < |haystack| :: classes[p] == ClassAt(generated, p)
    requires OtherRun(haystack, generated, other) && StartsAt(other, text, start)
    requires OccursByChance(haystack, generated, text, start)
    ensures Refills(haystack, classes, other) && OccursAt(classes, other, false, text, start)
  {
    RefillsIff(haystack, generated, classes, other);
    var p, n :| start <= p < start + |text| && Decides(generated, n, p);
    ClassAtIs(generated, p);
    assert classes[p].Some?;
    Standing(other, text, start);
  }

  lemma Standing(other: Text, text: Text, start: nat)
    requires start + |text| <= |other|
    ensures StartsAt(other, text, start) <==> forall i | 0 <= i < |text| :: other[start + i] == text[i]
  {
    var found := other[start..start + |text|];
    forall i | 0 <= i < |text| ensures found[i] == other[start + i] {}
  }

  lemma OccurrenceIsChance(haystack: Text, generated: seq<Generated>, classes: Classes, text: Text, start: nat,
                           other: Text)
    requires forall n | 0 <= n < |generated| :: Shaped(generated[n])
    requires |classes| == |haystack| && forall p | 0 <= p < |haystack| :: classes[p] == ClassAt(generated, p)
    requires Refills(haystack, classes, other) && OccursAt(classes, other, false, text, start)
    ensures OccursByChance(haystack, generated, text, start)
  {
    RefillsIff(haystack, generated, classes, other);
    Standing(other, text, start);
    var p :| start <= p < start + |text| && classes[p].Some?;
    ClassAtIs(generated, p);
  }

  // ----- the zone of an instant

  /** Every other run's instant has this one's zone. */
  ghost predicate KeepsZone(g: Generated, seconds: bool, fraction: nat) {
    forall other | ComesOutAs(g, other) ::
      SameOn(g.value, other, ZoneStart(seconds, fraction), |g.value|)
  }

  /** An instant's zone is never taken for generated, exactly unless an offset follows the minutes at once. */
  lemma ZoneKeptIff(g: Generated, seconds: bool, fraction: nat)
    requires g.shape == Instant && InstantShape(g.value, seconds, fraction)
    ensures KeepsZone(g, seconds, fraction) <==> seconds || !IsOffset(g.value, 16)
  {
    if seconds || !IsOffset(g.value, 16) {
      forall other | ComesOutAs(g, other) ensures SameOn(g.value, other, ZoneStart(seconds, fraction), |g.value|) {
        FillsIff(g, other);
        InstantFillsIff(g, seconds, fraction, other);
      }
    } else {
      var c: CodeUnit := if g.value[18] == 0x30 then 0x31 else 0x30;
      assert FillsAt(g, 18, c);
      CouldBeIff(g, 18, c);
      var other :| HasAt(g, other, 18, c);
      assert other[18] != g.value[18];
    }
  }

  /** `2024-01-01T10:00+02:00`. */
  const SHORT_OFFSET: Text :=
    [0x32, 0x30, 0x32, 0x34, 0x2d, 0x30, 0x31, 0x2d, 0x30, 0x31, 0x54, 0x31, 0x30, 0x3a, 0x30, 0x30,
     0x2b, 0x30, 0x32, 0x3a, 0x30, 0x30]

  lemma ShortOffsetShape()
    ensures InstantShape(SHORT_OFFSET, false, 0) && IsOffset(SHORT_OFFSET, 16) && SHORT_OFFSET[18] == 0x32
  {
    var t := SHORT_OFFSET;
    assert DigitsAt(t, 0, 4) && DigitsAt(t, 5, 2) && DigitsAt(t, 8, 2);
    assert DigitsAt(t, 11, 2) && DigitsAt(t, 14, 2) && DigitsAt(t, 17, 2) && DigitsAt(t, 20, 2);
  }

  /** Another run's hour of its offset counts as generated. */
  lemma ShortOffsetVaries()
    ensures var g := Generated(Instant, 0, SHORT_OFFSET);
            Shaped(g) && !KeepsZone(g, false, 0)
  {
    ShortOffsetShape();
    ZoneKeptIff(Generated(Instant, 0, SHORT_OFFSET), false, 0);
  }
}
