/**
 * JSON string literals (section 7 of RFC 8259): what `JSON.stringify` writes for a string,
 * and a reader for literals. A lone surrogate is written as an escape, so a literal is always
 * well-formed text whatever string it states.
 */
module JsonStrings {
  import opened Texts
  import opened Utf8Encoding

  const LETTER_U: CodeUnit := 0x75

  // ----- writing

  function HexDigit(n: int): CodeUnit
    requires 0 <= n < 16
  {
    if n < 10 then 0x30 + n else 0x57 + n
  }

  function Hex4(c: CodeUnit): Text {
    [HexDigit(c / 0x1000), HexDigit(c / 0x100 % 0x10), HexDigit(c / 0x10 % 0x10), HexDigit(c % 0x10)]
  }

  /** The letter of the short escape of `c`, if it has one: quote, backslash, \b \f \n \r \t. */
  function ShortEscape(c: CodeUnit): Option<CodeUnit> {
    if c == 0x22 || c == 0x5c then Some(c)
    else if c == 0x08 then Some(0x62)
    else if c == 0x0c then Some(0x66)
    else if c == 0x0a then Some(0x6e)
    else if c == 0x0d then Some(0x72)
    else if c == 0x09 then Some(0x74)
    else None
  }

  /** One code unit that is not half of a pair, as `JSON.stringify` writes it. */
  function EscapeUnit(c: CodeUnit): Text {
    match ShortEscape(c)
    case Some(letter) => [BACKSLASH, letter]
    case None => if c < 0x20 || IsSurrogate(c) then [BACKSLASH, LETTER_U] + Hex4(c) else [c]
  }

  function Escape(s: Text): Text {
    if s == [] then []
    else if PairAtStart(s) then [s[0], s[1]] + Escape(s[2..])
    else EscapeUnit(s[0]) + Escape(s[1..])
  }

  /** `JSON.stringify(s)` for a string. */
  function Quote(s: Text): Text {
    [QUOTE] + Escape(s) + [QUOTE]
  }

  // ----- reading

  function HexValue(c: CodeUnit): Option<nat> {
    if 0x30 <= c <= 0x39 then Some(c - 0x30)
    else if 0x61 <= c <= 0x66 then Some(c - 0x57)
    else if 0x41 <= c <= 0x46 then Some(c - 0x37)
    else None
  }

  function Hex4Value(t: Text): Option<CodeUnit>
    requires |t| == 4
  {
    var a, b, c, d := HexValue(t[0]), HexValue(t[1]), HexValue(t[2]), HexValue(t[3]);
    if a.Some? && b.Some? && c.Some? && d.Some?
       && a.value < 16 && b.value < 16 && c.value < 16 && d.value < 16
    then Some(a.value * 0x1000 + b.value * 0x100 + c.value * 0x10 + d.value)
    else None
  }

  function ShortUnescape(c: CodeUnit): Option<CodeUnit> {
    if c == 0x22 || c == 0x5c || c == 0x2f then Some(c)
    else if c == 0x62 then Some(0x08)
    else if c == 0x66 then Some(0x0c)
    else if c == 0x6e then Some(0x0a)
    else if c == 0x72 then Some(0x0d)
    else if c == 0x74 then Some(0x09)
    else None
  }

  datatype Read<+T> = Failed | Got(value: T, rest: Text)

  /** One code unit of a literal's body: a character that stands for itself, or an escape. */
  function ReadUnit(t: Text): (r: Read<CodeUnit>)
    ensures r.Got? ==> |r.rest| < |t|
  {
    if t == [] || t[0] < 0x20 || t[0] == QUOTE then Failed
    else if t[0] != BACKSLASH then Got(t[0], t[1..])
    else if |t| >= 2 && ShortUnescape(t[1]).Some? then Got(ShortUnescape(t[1]).value, t[2..])
    else if |t| >= 6 && t[1] == LETTER_U && Hex4Value(t[2..6]).Some? then Got(Hex4Value(t[2..6]).value, t[6..])
    else Failed
  }

  /** Reads a literal from just after its opening quote to its closing one. */
  function ReadString(t: Text): (r: Read<Text>)
    ensures r.Got? ==> |r.rest| < |t|
    decreases |t|
  {
    if t != [] && t[0] == QUOTE then Got([], t[1..])
    else match ReadUnit(t)
      case Failed => Failed
      case Got(c, rest) => Prepend(c, ReadString(rest))
  }

  function Prepend(c: CodeUnit, r: Read<Text>): Read<Text> {
    if r.Got? then Got([c] + r.value, r.rest) else Failed
  }

  // ----- the round trip

  lemma Hex4RoundTrip(c: CodeUnit)
    ensures Hex4Value(Hex4(c)) == Some(c)
  {
    assert c / 0x100 == c / 0x10 / 0x10;
    assert c / 0x1000 == c / 0x100 / 0x10;
    assert HexValue(Hex4(c)[0]) == Some(c / 0x1000);
    assert HexValue(Hex4(c)[1]) == Some(c / 0x100 % 0x10);
    assert HexValue(Hex4(c)[2]) == Some(c / 0x10 % 0x10);
    assert HexValue(Hex4(c)[3]) == Some(c % 0x10);
  }

  lemma ReadEscapedUnit(c: CodeUnit, tail: Text)
    ensures ReadUnit(EscapeUnit(c) + tail) == Got(c, tail)
  {
    var t := EscapeUnit(c) + tail;
    match ShortEscape(c)
    case Some(letter) =>
      assert t[0] == BACKSLASH && t[1] == letter;
      assert t[2..] == tail;
    case None =>
      if c < 0x20 || IsSurrogate(c) {
        Hex4RoundTrip(c);
        assert t[0] == BACKSLASH && t[1] == LETTER_U;
        assert t[2..6] == Hex4(c);
        assert t[6..] == tail;
      } else {
        assert t[1..] == tail;
      }
  }

  lemma ReadEscaped(c: CodeUnit, tail: Text)
    ensures ReadString(EscapeUnit(c) + tail) == Prepend(c, ReadString(tail))
  {
    ReadEscapedUnit(c, tail);
    var t := EscapeUnit(c) + tail;
    assert t[0] == EscapeUnit(c)[0] && t[0] != QUOTE;
  }

  lemma ReadPlainUnit(c: CodeUnit, tail: Text)
    requires c >= 0x20 && c != QUOTE && c != BACKSLASH
    ensures ReadString([c] + tail) == Prepend(c, ReadString(tail))
  {
    assert ([c] + tail)[1..] == tail;
  }

  lemma PairRoundTrip(high: CodeUnit, low: CodeUnit, text: Text, s: Text, rest: Text)
    requires IsHigh(high) && IsLow(low) && ReadString(text + [QUOTE] + rest) == Got(s, rest)
    ensures ReadString([high, low] + text + [QUOTE] + rest) == Got([high] + ([low] + s), rest)
  {
    var tail := text + [QUOTE] + rest;
    ReadPlainUnit(high, [low] + tail);
    ReadPlainUnit(low, tail);
    GroupFour([high, low], text, [QUOTE], rest);
    assert [high, low] + tail == [high] + ([low] + tail);
  }

  lemma UnitRoundTrip(c: CodeUnit, text: Text, s: Text, rest: Text)
    requires ReadString(text + [QUOTE] + rest) == Got(s, rest)
    ensures ReadString(EscapeUnit(c) + text + [QUOTE] + rest) == Got([c] + s, rest)
  {
    ReadEscaped(c, text + [QUOTE] + rest);
    GroupFour(EscapeUnit(c), text, [QUOTE], rest);
  }

  /** Reading what was written gives the string back, and leaves what follows the literal. */
  lemma {:induction false} StringRoundTrip(s: Text, rest: Text)
    ensures ReadString(Escape(s) + [QUOTE] + rest) == Got(s, rest)
  {
    if s == [] {
      assert (Escape(s) + [QUOTE] + rest)[1..] == rest;
    } else if PairAtStart(s) {
      StringRoundTrip(s[2..], rest);
      PairRoundTrip(s[0], s[1], Escape(s[2..]), s[2..], rest);
      assert s == [s[0]] + ([s[1]] + s[2..]);
    } else {
      StringRoundTrip(s[1..], rest);
      UnitRoundTrip(s[0], Escape(s[1..]), s[1..], rest);
      assert s == [s[0]] + s[1..];
    }
  }

  // ----- what is written is well-formed

  lemma EscapeUnitWellFormed(c: CodeUnit)
    ensures WellFormed(EscapeUnit(c))
  {
    var t := EscapeUnit(c);
    if forall i | 0 <= i < |t| :: t[i] < 0x80 {
      AsciiWellFormed(t);
    } else {
      assert t == [c] && WellFormed([]) && t[1..] == [];
    }
  }

  lemma {:induction false} EscapeWellFormed(s: Text)
    ensures WellFormed(Escape(s))
  {
    if s == [] {
    } else if PairAtStart(s) {
      EscapeWellFormed(s[2..]);
      assert Escape(s)[2..] == Escape(s[2..]);
    } else {
      EscapeUnitWellFormed(s[0]);
      EscapeWellFormed(s[1..]);
      WellFormedConcat(EscapeUnit(s[0]), Escape(s[1..]));
    }
  }

  /** A literal is well-formed text, even for a string with lone surrogates. */
  lemma QuoteWellFormed(s: Text)
    ensures WellFormed(Quote(s))
  {
    EscapeWellFormed(s);
    AsciiWellFormed([QUOTE]);
    WellFormedConcat([QUOTE], Escape(s));
    WellFormedConcat([QUOTE] + Escape(s), [QUOTE]);
  }
}
