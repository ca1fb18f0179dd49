/** Strings as the program sees them: sequences of UTF-16 code units, and buffers of bytes. */
module Texts {

  type CodeUnit = x: int | 0 <= x < 0x1_0000
  type Text = seq<CodeUnit>
  type Byte = x: int | 0 <= x < 0x100
  type Bytes = seq<Byte>

  datatype Option<+T> = None | Some(value: T)

  // ----- characters

  const NEWLINE: CodeUnit := 0x0a
  const SPACE: CodeUnit := 0x20
  const QUOTE: CodeUnit := 0x22
  const HASH: CodeUnit := 0x23
  const AMPERSAND: CodeUnit := 0x26
  const PLUS: CodeUnit := 0x2b
  const COMMA: CodeUnit := 0x2c
  const DASH: CodeUnit := 0x2d
  const DOT: CodeUnit := 0x2e
  const SLASH: CodeUnit := 0x2f
  const ZERO: CodeUnit := 0x30
  const COLON: CodeUnit := 0x3a
  const EQUALS: CodeUnit := 0x3d
  const QUESTION: CodeUnit := 0x3f
  const AT_SIGN: CodeUnit := 0x40
  const OPEN_BRACKET: CodeUnit := 0x5b
  const BACKSLASH: CodeUnit := 0x5c
  const CLOSE_BRACKET: CodeUnit := 0x5d
  const OPEN_BRACE: CodeUnit := 0x7b
  const CLOSE_BRACE: CodeUnit := 0x7d

  /** ASCII lower case. */
  function Lower(c: CodeUnit): CodeUnit {
    if 0x41 <= c <= 0x5a then c + 0x20 else c
  }

  // ----- grouping

  lemma Group<T>(a: seq<T>, b: seq<T>, c: seq<T>)
    ensures a + (b + c) == a + b + c
  {
  }

  lemma GroupFour<T>(a: seq<T>, b: seq<T>, c: seq<T>, d: seq<T>)
    ensures a + (b + c + d) == a + b + c + d
  {
  }

  // ----- digits

  predicate IsDigit(c: CodeUnit) {
    0x30 <= c <= 0x39
  }

  ghost predicate AllDigits(t: Text) {
    forall i | 0 <= i < |t| :: IsDigit(t[i])
  }

  /** The decimal digits of `n`, without leading zeros. */
  function NatText(n: nat): (t: Text)
    ensures AllDigits(t) && |t| >= 1
    ensures n > 0 ==> t[0] != 0x30
  {
    if n < 10 then [0x30 + n] else NatText(n / 10) + [0x30 + n % 10]
  }

  /** `String(n)` for an integer. */
  function IntText(n: int): (t: Text) {
    if n < 0 then [0x2d] + NatText(-n) else NatText(n)
  }

  /** The number a run of digits denotes. */
  function DigitsValue(t: Text): nat
    requires AllDigits(t)
  {
    if t == [] then 0 else 10 * DigitsValue(t[..|t| - 1]) + (t[|t| - 1] - 0x30)
  }

  /** The number an integer's text denotes: an inverse of `IntText`. */
  function IntValue(t: Text): int {
    if t != [] && t[0] == 0x2d then
      if forall i | 1 <= i < |t| :: IsDigit(t[i]) then 0 - DigitsValue(t[1..]) else 0
    else if forall i | 0 <= i < |t| :: IsDigit(t[i]) then DigitsValue(t) else 0
  }

  lemma {:induction false} NatTextValue(n: nat)
    ensures DigitsValue(NatText(n)) == n
  {
    if n < 10 {
      assert NatText(n)[..0] == [];
    } else {
      NatTextValue(n / 10);
      var t := NatText(n);
      assert t[..|t| - 1] == NatText(n / 10);
    }
  }

  lemma IntTextValue(n: int)
    ensures IntValue(IntText(n)) == n
  {
    if n < 0 {
      NatTextValue(-n);
      assert IntText(n)[1..] == NatText(-n);
    } else {
      NatTextValue(n);
    }
  }

  /** Two integers with the same text are the same integer. */
  lemma IntTextInjective(m: int, n: int)
    requires IntText(m) == IntText(n)
    ensures m == n
  {
    IntTextValue(m);
    IntTextValue(n);
  }

  /** How many digits a text opens with. */
  function DigitRun(t: Text): (n: nat)
    ensures n <= |t| && AllDigits(t[..n])
    ensures n < |t| ==> !IsDigit(t[n])
  {
    if t == [] || !IsDigit(t[0]) then 0
    else
      var n := 1 + DigitRun(t[1..]);
      assert t[..n] == [t[0]] + t[1..][..n - 1];
      n
  }

  /** A number's text ends where the digits do, so what follows it must not go on with one. */
  ghost predicate Ends(rest: Text) {
    rest == [] || !IsDigit(rest[0])
  }

  lemma {:induction false} DigitRunOf(digits: Text, rest: Text)
    requires AllDigits(digits) && Ends(rest)
    ensures DigitRun(digits + rest) == |digits|
  {
    if digits == [] {
      assert digits + rest == rest;
    } else {
      DigitRunOf(digits[1..], rest);
      assert (digits + rest)[1..] == digits[1..] + rest;
    }
  }

  // ----- order

  /** Strictly before in UTF-16 code unit order, as `Array.prototype.sort` compares strings. */
  predicate Before(a: Text, b: Text) {
    if b == [] then false
    else if a == [] then true
    else if a[0] != b[0] then a[0] < b[0]
    else Before(a[1..], b[1..])
  }

  lemma {:induction false} BeforeTrichotomy(a: Text, b: Text)
    ensures Before(a, b) || Before(b, a) || a == b
    ensures !(Before(a, b) && Before(b, a))
    ensures a == b ==> !Before(a, b)
  {
    if a != [] && b != [] && a[0] == b[0] {
      BeforeTrichotomy(a[1..], b[1..]);
      assert a == [a[0]] + a[1..] && b == [b[0]] + b[1..];
    }
  }

  lemma {:induction false} BeforeTransitive(a: Text, b: Text, c: Text)
    requires Before(a, b) && Before(b, c)
    ensures Before(a, c)
  {
    if a != [] && a[0] == b[0] && b[0] == c[0] {
      BeforeTransitive(a[1..], b[1..], c[1..]);
    }
  }

  /** The two agree up to `k`, where the first ends or has the smaller unit. */
  ghost predicate FirstDiffers(a: Text, b: Text, k: nat) {
    k <= |a| && k < |b| && a[..k] == b[..k] && (k < |a| ==> a[k] < b[k])
  }

  /** One string comes before another exactly when it is a proper prefix of it, or smaller at the first difference. */
  lemma {:induction false} BeforeIff(a: Text, b: Text)
    ensures Before(a, b) <==> exists k: nat :: FirstDiffers(a, b, k)
  {
    if a != [] && b != [] && a[0] == b[0] {
      BeforeIff(a[1..], b[1..]);
      if k: nat :| FirstDiffers(a[1..], b[1..], k) {
        assert a[..k + 1] == [a[0]] + a[1..][..k] && b[..k + 1] == [b[0]] + b[1..][..k];
        assert FirstDiffers(a, b, k + 1);
      }
      if k: nat :| FirstDiffers(a, b, k) {
        if k > 0 {
          assert a[1..][..k - 1] == a[..k][1..] && b[1..][..k - 1] == b[..k][1..];
          assert FirstDiffers(a[1..], b[1..], k - 1);
        }
      }
    } else if b != [] && (a == [] || a[0] < b[0]) {
      assert FirstDiffers(a, b, 0);
    } else {
      forall k: nat ensures !FirstDiffers(a, b, k) {
        if 0 < k <= |a| && k <= |b| && a[..k] == b[..k] { FirstUnits(a, b, k); }
      }
    }
  }

  lemma FirstUnits(a: Text, b: Text, k: nat)
    requires 0 < k <= |a| && k <= |b| && a[..k] == b[..k]
    ensures a[0] == b[0]
  {
    assert a[..k][0] == b[..k][0];
  }

  // ----- whitespace

  /** Whether a code unit is in the set `\s` matches. */
  predicate IsWhitespace(c: CodeUnit) {
    0x09 <= c <= 0x0d || c == 0x20 || c == 0xa0 || c == 0x1680 || 0x2000 <= c <= 0x200a
    || c == 0x2028 || c == 0x2029 || c == 0x202f || c == 0x205f || c == 0x3000 || c == 0xfeff
  }

  /** `\w`: an ASCII letter, a digit or an underscore. */
  predicate IsWordChar(c: CodeUnit) {
    0x30 <= c <= 0x39 || 0x41 <= c <= 0x5a || 0x61 <= c <= 0x7a || c == 0x5f
  }

  // ----- searching

  /** Whether `part` stands in `text` at `at`. */
  predicate StartsAt(text: Text, part: Text, at: int) {
    0 <= at && at + |part| <= |text| && text[at..at + |part|] == part
  }

  /** `text.indexOf(part, from)`. */
  method IndexOf(text: Text, part: Text, from: nat) returns (at: int)
    ensures at == -1 ==> forall i | from <= i :: !StartsAt(text, part, i)
    ensures at != -1 ==> from <= at && StartsAt(text, part, at) && forall i | from <= i < at :: !StartsAt(text, part, i)
  {
    at := from;
    while at + |part| <= |text|
      invariant from <= at && forall i | from <= i < at :: !StartsAt(text, part, i)
    {
      if text[at..at + |part|] == part {
        return;
      }
      at := at + 1;
    }
    at := -1;
  }

  /** `://`. */
  const SCHEME_END: Text := [0x3a, 0x2f, 0x2f]

  predicate SchemeAt(text: Text, sep: int) {
    0 <= sep && sep + 3 <= |text| && text[sep] == COLON && text[sep + 1] == SLASH && text[sep + 2] == SLASH
  }

  lemma SchemeChars(text: Text, sep: int)
    ensures StartsAt(text, SCHEME_END, sep) <==> SchemeAt(text, sep)
  {
    if 0 <= sep && sep + 3 <= |text| {
      var found := text[sep..sep + 3];
      assert found[0] == text[sep] && found[1] == text[sep + 1] && found[2] == text[sep + 2];
    }
  }
}
