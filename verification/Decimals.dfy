/** Decimal literals by their exact value: one canonical text for each number, whatever way it is written. */
module Decimals {
  import opened Texts

  const LETTER_E: CodeUnit := 0x65

  /** A literal taken apart: sign, digits before and after the point, power of ten. */
  datatype Literal = Literal(negative: bool, whole: Text, fraction: Text, power: int)

  /** The digits on both sides of the point. */
  function AllOf(l: Literal): Text {
    l.whole + l.fraction
  }

  /** The power of ten of the last of them. */
  function Exponent(l: Literal): int {
    l.power - |l.fraction|
  }

  ghost predicate WellMade(l: Literal) {
    AllDigits(l.whole) && AllDigits(l.fraction)
  }

  function AfterSign(t: Text): Text {
    if t != [] && (t[0] == PLUS || t[0] == DASH) then t[1..] else t
  }

  predicate Negative(t: Text) {
    t != [] && t[0] == DASH
  }

  /** The exponent part, or none of it: the power it states. */
  function Power(t: Text): Option<int> {
    if t == [] then Some(0)
    else if t[0] != LETTER_E && t[0] != 0x45 then None
    else
      var digits := AfterSign(t[1..]);
      if digits == [] || DigitRun(digits) < |digits| then None
      else
        assert digits[..DigitRun(digits)] == digits;
        Some(if Negative(t[1..]) then 0 - DigitsValue(digits) else DigitsValue(digits))
  }

  /** The literal a text is, whole: sign, digits with at most one point among them, exponent. */
  function Read(t: Text): (r: Option<Literal>)
    ensures r.Some? ==> WellMade(r.value)
  {
    var body := AfterSign(t);
    var n := DigitRun(body);
    var whole, rest := body[..n], body[n..];
    var dotted := rest != [] && rest[0] == DOT;
    var m := if dotted then DigitRun(rest[1..]) else 0;
    var fraction := if dotted then rest[1..][..m] else [];
    var power := Power(if dotted then rest[1..][m..] else rest);
    if (whole == [] && fraction == []) || power.None? then None
    else Some(Literal(Negative(t), whole, fraction, power.value))
  }

  // ----- the value

  function Pow10(e: int): real
    decreases if e < 0 then -e else e
  {
    if e == 0 then 1.0 else if e > 0 then 10.0 * Pow10(e - 1) else Pow10(e + 1) / 10.0
  }

  function Magnitude(n: nat, e: int): real {
    (n as real) * Pow10(e)
  }

  /** A number of digits times a power of ten, with its sign. */
  function Scaled(negative: bool, n: nat, e: int): real {
    if negative then 0.0 - Magnitude(n, e) else Magnitude(n, e)
  }

  /** The number a literal denotes. */
  function Value(l: Literal): real
    requires AllDigits(l.whole) && AllDigits(l.fraction)
  {
    Scaled(l.negative, DigitsValue(AllOf(l)), Exponent(l))
  }

  // ----- the canonical form

  function StripLeading(d: Text): (r: Text)
    requires AllDigits(d)
    ensures AllDigits(r) && (r == [] || r[0] != ZERO)
  {
    if d != [] && d[0] == ZERO then StripLeading(d[1..]) else d
  }

  /** Digits and a power with the trailing zeros moved from one to the other. */
  function StripTrailing(d: Text, e: int): (Text, int)
    decreases |d|
  {
    if d != [] && d[|d| - 1] == ZERO then StripTrailing(d[..|d| - 1], e + 1) else (d, e)
  }

  function Signed(negative: bool, t: Text): Text {
    if negative then [DASH] + t else t
  }

  function Written(negative: bool, digits: Text, e: int): Text {
    Signed(negative, digits + ([LETTER_E] + IntText(e)))
  }

  function Canonical(l: Literal): Text
    requires WellMade(l)
  {
    var digits := StripLeading(AllOf(l));
    if digits == [] then [ZERO]
    else
      var (d, e) := StripTrailing(digits, Exponent(l));
      Written(l.negative, d, e)
  }

  /** The loop that moves trailing zeros from the digits to the power. */
  method StripZeros(digits: Text, exponent: int) returns (d: Text, e: int)
    ensures (d, e) == StripTrailing(digits, exponent)
  {
    d, e := digits, exponent;
    while d != [] && d[|d| - 1] == ZERO
      invariant StripTrailing(d, e) == StripTrailing(digits, exponent)
      decreases |d|
    {
      d := d[..|d| - 1];
      e := e + 1;
    }
  }

  /** `canonicalDecimal`: nothing for a text that is no literal. */
  method CanonicalDecimal(text: Text) returns (r: Option<Text>)
    ensures r == (if Read(text).None? then None else Some(Canonical(Read(text).value)))
  {
    var literal := Read(text);
    if literal.None? {
      return None;
    }
    var canonical := WriteCanonical(literal.value);
    r := Some(canonical);
  }

  method WriteCanonical(l: Literal) returns (r: Text)
    requires WellMade(l)
    ensures r == Canonical(l)
  {
    var digits := StripLeading(AllOf(l));
    if digits == [] {
      return [ZERO];
    }
    var d, e := StripZeros(digits, Exponent(l));
    r := Written(l.negative, d, e);
  }

  // ----- the canonical form has the value

  lemma {:induction false} PrefixDigits(d: Text, more: Text)
    requires AllDigits(d) && AllDigits(more)
    ensures AllDigits(d + more)
  {
  }

  lemma {:induction false} LeadingZero(d: Text)
    requires AllDigits(d) && d != [] && d[0] == ZERO
    ensures DigitsValue(d) == DigitsValue(d[1..])
  {
    if |d| == 1 {
      assert d[..0] == [] && d[1..] == [];
    } else {
      LeadingZero(d[..|d| - 1]);
      assert d[1..][..|d| - 2] == d[..|d| - 1][1..];
    }
  }

  lemma {:induction false} StripLeadingValue(d: Text)
    requires AllDigits(d)
    ensures DigitsValue(StripLeading(d)) == DigitsValue(d)
  {
    if d != [] && d[0] == ZERO {
      StripLeadingValue(d[1..]);
      LeadingZero(d);
    }
  }

  lemma {:induction false} Pow10Positive(e: int)
    ensures Pow10(e) > 0.0
    decreases if e < 0 then -e else e
  {
    if e > 0 { Pow10Positive(e - 1); } else if e < 0 { Pow10Positive(e + 1); }
  }

  lemma Pow10Next(e: int)
    ensures Pow10(e + 1) == 10.0 * Pow10(e)
  {
  }

  ghost predicate Stripped(d: Text) {
    AllDigits(d) && d != [] && d[0] != ZERO && d[|d| - 1] != ZERO
  }

  /** What stripping leaves: no leading zero where there was none, no trailing zero, the same value. */
  lemma {:induction false} StripTrailingValue(d: Text, e: int)
    requires AllDigits(d) && d != [] && d[0] != ZERO
    ensures var (r, f) := StripTrailing(d, e);
            Stripped(r) && Magnitude(DigitsValue(r), f) == Magnitude(DigitsValue(d), e)
    decreases |d|
  {
    if d[|d| - 1] == ZERO {
      StripTrailingValue(d[..|d| - 1], e + 1);
      TenTimes(DigitsValue(d[..|d| - 1]), e);
    }
  }

  lemma TenTimes(n: nat, e: int)
    ensures Magnitude(10 * n, e) == Magnitude(n, e + 1)
  {
    Pow10Next(e);
    var x, p := n as real, Pow10(e);
    assert (10 * n) as real == 10.0 * x;
    assert (10.0 * x) * p == x * (10.0 * p);
  }

  // ----- a value has one canonical form

  lemma {:induction false} PositiveValue(d: Text)
    requires AllDigits(d) && d != [] && d[0] != ZERO
    ensures DigitsValue(d) > 0
  {
    if |d| == 1 {
      assert d[..0] == [];
    } else {
      PositiveValue(d[..|d| - 1]);
    }
  }

  /** Digits without a leading zero are the ones their value is written with. */
  lemma {:induction false} DigitsDetermined(d: Text)
    requires AllDigits(d) && d != [] && d[0] != ZERO
    ensures NatText(DigitsValue(d)) == d
  {
    if |d| == 1 {
      assert d[..0] == [];
    } else {
      var shorter, last := d[..|d| - 1], d[|d| - 1];
      DigitsDetermined(shorter);
      PositiveValue(shorter);
      assert DigitsValue(d) / 10 == DigitsValue(shorter) && DigitsValue(d) % 10 == last - 0x30;
      assert d == shorter + [last];
    }
  }

  lemma Cancel(a: real, b: real, p: real)
    requires p > 0.0 && a * p == b * p
    ensures a == b
  {
    assert (a - b) * p == 0.0;
  }

  /** The same magnitude at a lower power: a multiple of ten, where the power is lower at all. */
  lemma {:induction false} AtLowerPower(n: nat, f: int, e: int) returns (m: nat)
    requires e <= f
    ensures Magnitude(m, e) == Magnitude(n, f)
    ensures if e == f then m == n else m % 10 == 0
    decreases f - e
  {
    if e == f {
      m := n;
    } else {
      TenTimes(n, f - 1);
      m := AtLowerPower(10 * n, f - 1, e);
    }
  }

  lemma SameMagnitude(m: nat, n: nat, e: int)
    requires Magnitude(m, e) == Magnitude(n, e)
    ensures m == n
  {
    Pow10Positive(e);
    Cancel(m as real, n as real, Pow10(e));
  }

  /** Numbers that do not end in zero, equal after scaling, are equal and scaled alike. */
  lemma ScaleDetermined(m: nat, e: int, n: nat, f: int)
    requires m % 10 != 0 && e <= f && Magnitude(m, e) == Magnitude(n, f)
    ensures e == f && m == n
  {
    var k := AtLowerPower(n, f, e);
    SameMagnitude(m, k, e);
  }

  lemma MagnitudePositive(d: Text, e: int)
    requires AllDigits(d) && d != [] && d[0] != ZERO
    ensures Magnitude(DigitsValue(d), e) > 0.0
  {
    PositiveValue(d);
    Pow10Positive(e);
  }

  /** Stripped digits, a power and a sign are determined by the value they denote. */
  lemma StrippedDetermined(negative: bool, c: Text, e: int, other: bool, d: Text, f: int)
    requires Stripped(c) && Stripped(d)
    requires Scaled(negative, DigitsValue(c), e) == Scaled(other, DigitsValue(d), f)
    ensures negative == other && c == d && e == f
  {
    MagnitudePositive(c, e);
    MagnitudePositive(d, f);
    LastDigit(c);
    LastDigit(d);
    if e <= f { ScaleDetermined(DigitsValue(c), e, DigitsValue(d), f); } else {
      ScaleDetermined(DigitsValue(d), f, DigitsValue(c), e);
    }
    DigitsDetermined(c);
    DigitsDetermined(d);
  }

  lemma LastDigit(d: Text)
    requires AllDigits(d) && d != []
    ensures DigitsValue(d) % 10 == d[|d| - 1] - 0x30
  {
  }

  lemma BodyInjective(c: Text, e: int, d: Text, f: int)
    requires AllDigits(c) && AllDigits(d) && c + ([LETTER_E] + IntText(e)) == d + ([LETTER_E] + IntText(f))
    ensures c == d && e == f
  {
    var x, y := [LETTER_E] + IntText(e), [LETTER_E] + IntText(f);
    var body := c + x;
    DigitRunOf(c, x);
    DigitRunOf(d, y);
    assert c == body[..|c|] && d == body[..|d|];
    assert x == body[|c|..] && y == body[|d|..];
    assert x[1..] == IntText(e) && y[1..] == IntText(f);
    IntTextInjective(e, f);
  }

  /** A canonical text is read back in one way. */
  lemma WrittenInjective(negative: bool, c: Text, e: int, other: bool, d: Text, f: int)
    requires AllDigits(c) && AllDigits(d) && c != [] && d != []
    requires Written(negative, c, e) == Written(other, d, f)
    ensures negative == other && c == d && e == f
  {
    var x, y := c + ([LETTER_E] + IntText(e)), d + ([LETTER_E] + IntText(f));
    assert x[0] == c[0] && y[0] == d[0] && IsDigit(c[0]) && IsDigit(d[0]);
    SignSplits(negative, x, other, y);
    BodyInjective(c, e, d, f);
  }

  lemma SignSplits(negative: bool, x: Text, other: bool, y: Text)
    requires x != [] && y != [] && x[0] != DASH && y[0] != DASH && Signed(negative, x) == Signed(other, y)
    ensures negative == other && x == y
  {
    var s, t := Signed(negative, x), Signed(other, y);
    assert s[0] == (if negative then DASH else x[0]) && t[0] == (if other then DASH else y[0]);
    assert negative ==> x == s[1..];
    assert other ==> y == t[1..];
  }

  // ----- the law

  /** A literal is zero exactly when its digits are all zeros. */
  lemma ZeroValue(l: Literal)
    requires WellMade(l)
    ensures AllDigits(AllOf(l))
    ensures StripLeading(AllOf(l)) == [] <==> Value(l) == 0.0
  {
    PrefixDigits(l.whole, l.fraction);
    StripLeadingValue(AllOf(l));
    var digits := StripLeading(AllOf(l));
    if digits != [] { MagnitudePositive(digits, Exponent(l)); }
  }

  /** A literal that is not zero is written as stripped digits of the same value. */
  lemma NonzeroWritten(l: Literal) returns (d: Text, e: int)
    requires WellMade(l) && Value(l) != 0.0
    ensures Stripped(d) && Canonical(l) == Written(l.negative, d, e)
    ensures Value(l) == Scaled(l.negative, DigitsValue(d), e)
  {
    ZeroValue(l);
    var digits := StripLeading(AllOf(l));
    assert DigitsValue(digits) == DigitsValue(AllOf(l)) by { StripLeadingValue(AllOf(l)); }
    var r := StripTrailing(digits, Exponent(l));
    d, e := r.0, r.1;
    assert Stripped(d) && Magnitude(DigitsValue(d), e) == Magnitude(DigitsValue(digits), Exponent(l)) by {
      StripTrailingValue(digits, Exponent(l));
    }
  }

  lemma ZeroWritten(l: Literal)
    requires WellMade(l) && Value(l) == 0.0
    ensures Canonical(l) == [ZERO]
  {
    ZeroValue(l);
  }

  /** Two literals have the same canonical text exactly when they denote the same number. */
  lemma SameCanonicalIffSameValue(k: Literal, l: Literal)
    requires WellMade(k) && WellMade(l)
    ensures Canonical(k) == Canonical(l) <==> Value(k) == Value(l)
  {
    if Value(k) == 0.0 && Value(l) == 0.0 {
      ZeroWritten(k);
      ZeroWritten(l);
    } else if Value(k) == 0.0 {
      ZeroWritten(k);
      var d, e := NonzeroWritten(l);
    } else if Value(l) == 0.0 {
      ZeroWritten(l);
      var d, e := NonzeroWritten(k);
    } else {
      var x, m := NonzeroWritten(k);
      var y, n := NonzeroWritten(l);
      if Canonical(k) == Canonical(l) { WrittenInjective(k.negative, x, m, l.negative, y, n); }
      if Value(k) == Value(l) { StrippedDetermined(k.negative, x, m, l.negative, y, n); }
    }
  }
}
