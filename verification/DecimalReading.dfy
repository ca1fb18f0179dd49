/** Which texts are decimal literals: exactly those a literal can be written as, and each is read as the one it is. */
module DecimalReading {
  import opened Texts
  import opened Decimals

  // ----- writing a literal

  /** How a literal is written: its sign, its point and its exponent part each in one of their forms. */
  datatype Form = Form(sign: Option<CodeUnit>, whole: Text, point: bool, fraction: Text, exponent: Option<Exponent>)
  datatype Exponent = Exponent(letter: CodeUnit, sign: Option<CodeUnit>, digits: Text)

  predicate IsSign(sign: Option<CodeUnit>) {
    sign.None? || sign.value == PLUS || sign.value == DASH
  }

  ghost predicate AllowedExponent(e: Exponent) {
    && (e.letter == LETTER_E || e.letter == 0x45) && IsSign(e.sign) && AllDigits(e.digits) && e.digits != []
  }

  ghost function PowerOf(e: Option<Exponent>): int
    requires e.Some? ==> AllowedExponent(e.value)
  {
    if e.None? then 0
    else if e.value.sign == Some(DASH) then 0 - DigitsValue(e.value.digits)
    else DigitsValue(e.value.digits)
  }

  /** Digits on at least one side of the point, none after it where there is none, and an exponent with digits. */
  ghost predicate Allowed(f: Form) {
    && IsSign(f.sign) && AllDigits(f.whole) && AllDigits(f.fraction)
    && (f.whole != [] || f.fraction != []) && (!f.point ==> f.fraction == [])
    && (f.exponent.Some? ==> AllowedExponent(f.exponent.value))
  }

  function SignText(sign: Option<CodeUnit>): Text {
    if sign.None? then [] else [sign.value]
  }

  function PointText(f: Form): Text {
    if f.point then [DOT] + f.fraction else []
  }

  function ExponentText(e: Option<Exponent>): Text {
    if e.None? then [] else [e.value.letter] + (SignText(e.value.sign) + e.value.digits)
  }

  function FormText(f: Form): Text {
    SignText(f.sign) + (f.whole + (PointText(f) + ExponentText(f.exponent)))
  }

  /** The literal a form is of. */
  ghost function LiteralOf(f: Form): Literal
    requires Allowed(f)
  {
    Literal(f.sign == Some(DASH), f.whole, f.fraction, PowerOf(f.exponent))
  }

  // ----- reading what was written

  lemma SignRead(sign: Option<CodeUnit>, rest: Text)
    requires IsSign(sign) && (rest == [] || (rest[0] != PLUS && rest[0] != DASH))
    ensures AfterSign(SignText(sign) + rest) == rest
    ensures Negative(SignText(sign) + rest) <==> sign == Some(DASH)
  {
    if sign.None? { assert SignText(sign) + rest == rest; }
  }

  lemma DigitsRead(digits: Text)
    requires AllDigits(digits)
    ensures DigitRun(digits) == |digits|
  {
    DigitRunOf(digits, []);
    assert digits + [] == digits;
  }

  /** The power a non-empty exponent part states, from its digits. */
  lemma PowerIs(t: Text, digits: Text)
    requires t != [] && (t[0] == LETTER_E || t[0] == 0x45) && AfterSign(t[1..]) == digits
    requires AllDigits(digits) && digits != []
    ensures Power(t) == Some(if Negative(t[1..]) then 0 - DigitsValue(digits) else DigitsValue(digits))
  {
    DigitsRead(digits);
  }

  lemma Opened(c: CodeUnit, rest: Text)
    ensures var t := [c] + rest; t != [] && t[0] == c && t[1..] == rest
  {
  }

  lemma ExponentRead(e: Option<Exponent>)
    requires e.Some? ==> AllowedExponent(e.value)
    ensures Power(ExponentText(e)) == Some(PowerOf(e))
  {
    if e.Some? {
      Opened(e.value.letter, SignText(e.value.sign) + e.value.digits);
      SignRead(e.value.sign, e.value.digits);
      PowerIs(ExponentText(e), e.value.digits);
    }
  }

  lemma RunSplits(digits: Text, rest: Text)
    requires AllDigits(digits) && Ends(rest)
    ensures var t := digits + rest; t[..DigitRun(t)] == digits && t[DigitRun(t)..] == rest
  {
    DigitRunOf(digits, rest);
  }

  /** A text is read piece by piece: the digits before the point, those after it, and the exponent part. */
  lemma ReadIs(t: Text, whole: Text, rest: Text, fraction: Text, after: Text)
    requires AfterSign(t)[..DigitRun(AfterSign(t))] == whole && AfterSign(t)[DigitRun(AfterSign(t))..] == rest
    requires Pointed(rest, fraction, after)
    ensures Read(t) == if (whole == [] && fraction == []) || Power(after).None? then None
                       else Some(Literal(Negative(t), whole, fraction, Power(after).value))
  {
  }

  /** The digits after the point of `rest`, none where it has no point, and what follows them. */
  ghost predicate Pointed(rest: Text, fraction: Text, after: Text) {
    if rest != [] && rest[0] == DOT
    then fraction == rest[1..][..DigitRun(rest[1..])] && after == rest[1..][DigitRun(rest[1..])..]
    else fraction == [] && after == rest
  }

  lemma ExponentEnds(e: Option<Exponent>)
    requires e.Some? ==> AllowedExponent(e.value)
    ensures Ends(ExponentText(e)) && (ExponentText(e) == [] || ExponentText(e)[0] != DOT)
  {
    if e.Some? { Opened(e.value.letter, SignText(e.value.sign) + e.value.digits); }
  }

  lemma PointRead(point: bool, fraction: Text, after: Text)
    requires AllDigits(fraction) && (!point ==> fraction == []) && Ends(after) && (after == [] || after[0] != DOT)
    ensures var rest := (if point then [DOT] + fraction else []) + after; Pointed(rest, fraction, after) && Ends(rest)
  {
    if point {
      RunSplits(fraction, after);
      assert ([DOT] + fraction) + after == [DOT] + (fraction + after);
      Opened(DOT, fraction + after);
    } else {
      assert [] + after == after;
    }
  }

  lemma SignlessStart(whole: Text, rest: Text)
    requires AllDigits(whole) && (rest == [] || (rest[0] != PLUS && rest[0] != DASH))
    ensures var t := whole + rest; t == [] || (t[0] != PLUS && t[0] != DASH)
  {
  }

  /** A written literal is read as the literal it is. */
  lemma FormRead(f: Form)
    requires Allowed(f)
    ensures Read(FormText(f)) == Some(LiteralOf(f))
  {
    var after := ExponentText(f.exponent);
    ExponentEnds(f.exponent);
    PointRead(f.point, f.fraction, after);
    BodyRead(f, PointText(f) + after, after);
  }

  lemma BodyRead(f: Form, rest: Text, after: Text)
    requires Allowed(f) && after == ExponentText(f.exponent) && rest == PointText(f) + after
    requires Pointed(rest, f.fraction, after) && Ends(rest) && (rest == [] || (rest[0] != PLUS && rest[0] != DASH))
    ensures Read(FormText(f)) == Some(LiteralOf(f))
  {
    ExponentRead(f.exponent);
    SignlessStart(f.whole, rest);
    SignRead(f.sign, f.whole + rest);
    RunSplits(f.whole, rest);
    ReadIs(FormText(f), f.whole, rest, f.fraction, after);
  }

  // ----- what is read was written

  lemma SignWritten(t: Text) returns (sign: Option<CodeUnit>)
    ensures IsSign(sign) && t == SignText(sign) + AfterSign(t) && (Negative(t) <==> sign == Some(DASH))
  {
    sign := if t != [] && (t[0] == PLUS || t[0] == DASH) then Some(t[0]) else None;
  }

  lemma ExponentWritten(t: Text) returns (e: Option<Exponent>)
    requires Power(t).Some?
    ensures t == ExponentText(e)
    ensures e.Some? ==> AllowedExponent(e.value)
  {
    if t == [] {
      e := None;
    } else {
      var sign := SignWritten(t[1..]);
      var digits := AfterSign(t[1..]);
      assert digits[..DigitRun(digits)] == digits;
      e := Some(Exponent(t[0], sign, digits));
      assert t == [t[0]] + t[1..];
    }
  }

  lemma PointWritten(rest: Text) returns (point: bool, fraction: Text, after: Text)
    ensures Pointed(rest, fraction, after) && AllDigits(fraction) && (!point ==> fraction == [])
    ensures rest == (if point then [DOT] + fraction else []) + after
  {
    point := rest != [] && rest[0] == DOT;
    if point {
      fraction, after := CutAt(rest[1..], DigitRun(rest[1..]));
      assert rest == ([DOT] + fraction) + after;
    } else {
      fraction, after := [], rest;
    }
  }

  lemma CutAt(t: Text, n: nat) returns (front: Text, back: Text)
    requires n <= |t|
    ensures front == t[..n] && back == t[n..] && t == front + back
  {
    front, back := t[..n], t[n..];
  }

  /** A text that is read as a literal is one that this literal is written as. */
  lemma ReadWritten(t: Text) returns (f: Form)
    requires Read(t).Some?
    ensures Allowed(f) && t == FormText(f)
  {
    var body := AfterSign(t);
    var whole, rest := CutAt(body, DigitRun(body));
    var sign := SignWritten(t);
    var point, fraction, after := PointWritten(rest);
    ReadIs(t, whole, rest, fraction, after);
    var e := ExponentWritten(after);
    f := Form(sign, whole, point, fraction, e);
  }

  /** The literals are exactly what is written with a sign or none, digits with at most one point, and an exponent or
   *  none, and each is read as what it states. */
  lemma ReadIff(t: Text, l: Literal)
    ensures Read(t) == Some(l) <==> exists f :: Allowed(f) && FormText(f) == t && LiteralOf(f) == l
  {
    if Read(t) == Some(l) {
      var f := ReadWritten(t);
      FormRead(f);
    }
    forall f | Allowed(f) && FormText(f) == t ensures Read(t) == Some(LiteralOf(f)) { FormRead(f); }
  }
}
