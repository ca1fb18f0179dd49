/**
 * `Buffer.from(text, 'utf8')`: UTF-16 code units to UTF-8 bytes, a lone surrogate read as U+FFFD.
 * The encoding is injective on what it reads, hence on well-formed text, and on nothing more.
 */
module Utf8Encoding {
  import opened Texts

  type Scalar = x: int | 0 <= x < 0xD800 || 0xE000 <= x < 0x11_0000

  predicate IsHigh(c: CodeUnit) { 0xD800 <= c < 0xDC00 }
  predicate IsLow(c: CodeUnit) { 0xDC00 <= c < 0xE000 }
  predicate IsSurrogate(c: CodeUnit) { 0xD800 <= c < 0xE000 }

  predicate PairAtStart(t: Text) {
    |t| >= 2 && IsHigh(t[0]) && IsLow(t[1])
  }

  function PairScalar(high: CodeUnit, low: CodeUnit): Scalar
    requires IsHigh(high) && IsLow(low)
  {
    0x1_0000 + (high - 0xD800) * 0x400 + (low - 0xDC00)
  }

  /** The Unicode scalars the encoder reads: a pair is one, a lone surrogate is U+FFFD. */
  function Scalars(t: Text): seq<Scalar> {
    if t == [] then []
    else if PairAtStart(t) then [PairScalar(t[0], t[1])] + Scalars(t[2..])
    else if IsSurrogate(t[0]) then [0xFFFD] + Scalars(t[1..])
    else [t[0]] + Scalars(t[1..])
  }

  /** No surrogate stands alone. */
  predicate WellFormed(t: Text) {
    if t == [] then true
    else if PairAtStart(t) then WellFormed(t[2..])
    else !IsSurrogate(t[0]) && WellFormed(t[1..])
  }

  function ScalarBytes(c: Scalar): (b: Bytes)
    ensures 1 <= |b| <= 4
  {
    if c < 0x80 then [c]
    else if c < 0x800 then [0xC0 + c / 0x40, 0x80 + c % 0x40]
    else if c < 0x1_0000 then [0xE0 + c / 0x1000, 0x80 + c / 0x40 % 0x40, 0x80 + c % 0x40]
    else [0xF0 + c / 0x4_0000, 0x80 + c / 0x1000 % 0x40, 0x80 + c / 0x40 % 0x40, 0x80 + c % 0x40]
  }

  function ScalarsBytes(cs: seq<Scalar>): Bytes {
    if cs == [] then [] else ScalarBytes(cs[0]) + ScalarsBytes(cs[1..])
  }

  function Utf8(t: Text): Bytes {
    ScalarsBytes(Scalars(t))
  }

  /** How many bytes the scalar that opens with byte `b` takes: UTF-8 is a prefix code. */
  function WidthOf(b: Byte): nat {
    if b < 0x80 then 1 else if b < 0xE0 then 2 else if b < 0xF0 then 3 else 4
  }

  lemma WidthOfScalar(c: Scalar)
    ensures WidthOf(ScalarBytes(c)[0]) == |ScalarBytes(c)|
  {
  }

  /** A number is the sum of its base-64 digits, the last three taken apart. */
  lemma Base64Digits(c: nat)
    ensures c == 0x40 * (c / 0x40) + c % 0x40
    ensures c / 0x40 == 0x40 * (c / 0x1000) + c / 0x40 % 0x40
    ensures c / 0x1000 == 0x40 * (c / 0x4_0000) + c / 0x1000 % 0x40
  {
    assert c / 0x1000 == c / 0x40 / 0x40;
    assert c / 0x4_0000 == c / 0x1000 / 0x40;
  }

  lemma ScalarBytesInjective(c: Scalar, d: Scalar)
    requires ScalarBytes(c) == ScalarBytes(d)
    ensures c == d
  {
    Base64Digits(c);
    Base64Digits(d);
    var b, e := ScalarBytes(c), ScalarBytes(d);
    assert b[0] == e[0];
    if |b| == 2 {
      assert b[1] == e[1];
    } else if |b| == 3 {
      assert b[1] == e[1] && b[2] == e[2];
    } else if |b| == 4 {
      assert b[1] == e[1] && b[2] == e[2] && b[3] == e[3];
    }
  }

  lemma {:induction false} ScalarsBytesInjective(cs: seq<Scalar>, ds: seq<Scalar>)
    requires ScalarsBytes(cs) == ScalarsBytes(ds)
    ensures cs == ds
  {
    if cs != [] && ds != [] {
      WidthOfScalar(cs[0]);
      WidthOfScalar(ds[0]);
      var bytes := ScalarsBytes(cs);
      var n := |ScalarBytes(cs[0])|;
      assert ScalarBytes(cs[0])[0] == bytes[0] == ScalarBytes(ds[0])[0];
      assert ScalarBytes(cs[0]) == bytes[..n] == ScalarBytes(ds[0]);
      ScalarBytesInjective(cs[0], ds[0]);
      assert ScalarsBytes(cs[1..]) == bytes[n..] == ScalarsBytes(ds[1..]);
      ScalarsBytesInjective(cs[1..], ds[1..]);
      assert cs == [cs[0]] + cs[1..] && ds == [ds[0]] + ds[1..];
    }
  }

  lemma {:induction false} WellFormedScalarsInjective(s: Text, t: Text)
    requires WellFormed(s) && WellFormed(t) && Scalars(s) == Scalars(t)
    ensures s == t
  {
    if s != [] && t != [] {
      assert Scalars(s)[0] == Scalars(t)[0];
      if PairAtStart(s) {
        assert PairAtStart(t);
        assert Scalars(s)[1..] == Scalars(s[2..]) && Scalars(t)[1..] == Scalars(t[2..]);
        WellFormedScalarsInjective(s[2..], t[2..]);
        assert s == [s[0], s[1]] + s[2..] && t == [t[0], t[1]] + t[2..];
      } else {
        assert !PairAtStart(t);
        assert Scalars(s)[1..] == Scalars(s[1..]) && Scalars(t)[1..] == Scalars(t[1..]);
        WellFormedScalarsInjective(s[1..], t[1..]);
        assert s == [s[0]] + s[1..] && t == [t[0]] + t[1..];
      }
    }
  }

  /** Exactly when two texts have the same bytes: when they read as the same scalars. */
  lemma SameBytesIffSameScalars(s: Text, t: Text)
    ensures Utf8(s) == Utf8(t) <==> Scalars(s) == Scalars(t)
  {
    if Utf8(s) == Utf8(t) {
      ScalarsBytesInjective(Scalars(s), Scalars(t));
    }
  }

  /** Well-formed texts with the same bytes are the same text. */
  lemma Utf8Injective(s: Text, t: Text)
    requires WellFormed(s) && WellFormed(t) && Utf8(s) == Utf8(t)
    ensures s == t
  {
    SameBytesIffSameScalars(s, t);
    WellFormedScalarsInjective(s, t);
  }

  ghost predicate Ascii(t: Text) {
    forall i | 0 <= i < |t| :: t[i] < 0x80
  }

  /** A text with an ASCII text's bytes is that ASCII text, well-formed or not. */
  lemma {:induction false} AsciiBytesDetermine(s: Text, t: Text)
    requires Ascii(t) && Utf8(s) == Utf8(t)
    ensures s == t
  {
    SameBytesIffSameScalars(s, t);
    AsciiScalarsDetermine(s, t);
  }

  lemma {:induction false} AsciiScalarsDetermine(s: Text, t: Text)
    requires Ascii(t) && Scalars(s) == Scalars(t)
    ensures s == t
  {
    if s != [] && t != [] {
      assert Scalars(t)[0] == t[0] == Scalars(s)[0] == s[0];
      assert Scalars(s)[1..] == Scalars(s[1..]) && Scalars(t)[1..] == Scalars(t[1..]);
      AsciiScalarsDetermine(s[1..], t[1..]);
      assert s == [s[0]] + s[1..] && t == [t[0]] + t[1..];
    }
  }

  lemma {:induction false} AsciiWellFormed(t: Text)
    requires Ascii(t)
    ensures WellFormed(t)
  {
    if t != [] {
      AsciiWellFormed(t[1..]);
    }
  }

  lemma {:induction false} WellFormedConcat(s: Text, t: Text)
    requires WellFormed(s) && WellFormed(t)
    ensures WellFormed(s + t)
  {
    if s == [] {
      assert s + t == t;
    } else if PairAtStart(s) {
      WellFormedConcat(s[2..], t);
      assert (s + t)[2..] == s[2..] + t;
    } else {
      WellFormedConcat(s[1..], t);
      assert (s + t)[1..] == s[1..] + t;
    }
  }

  lemma LoneScalar(c: CodeUnit)
    requires IsSurrogate(c)
    ensures Scalars([c]) == [0xFFFD]
  {
    var t: Text := [c];
    assert t[1..] == [];
    assert Scalars(t) == [0xFFFD] + Scalars(t[1..]);
  }

  /** Any two lone surrogates have the same bytes: the encoding is not injective on every text. */
  lemma LoneSurrogatesShareBytes(c: CodeUnit, d: CodeUnit)
    requires IsSurrogate(c) && IsSurrogate(d)
    ensures Utf8([c]) == Utf8([d])
  {
    LoneScalar(c);
    LoneScalar(d);
  }

  // ----- texts that no other text is confused with

  /** No other text has the same bytes. */
  ghost predicate OwnBytes(t: Text) {
    forall s | Utf8(s) == Utf8(t) :: s == t
  }

  lemma {:induction false} ReplacedIffFffd(t: Text)
    ensures 0xFFFD in Scalars(t) <==> !WellFormed(t) || 0xFFFD in t
  {
    if t != [] {
      if PairAtStart(t) {
        ReplacedIffFffd(t[2..]);
        assert t == [t[0], t[1]] + t[2..];
      } else {
        ReplacedIffFffd(t[1..]);
        assert t == [t[0]] + t[1..];
      }
    }
  }

  /** A text with a lone surrogate, each one replaced; a text without one, its first U+FFFD made one. */
  function Repaired(t: Text): Text {
    if t == [] then []
    else if PairAtStart(t) then [t[0], t[1]] + Repaired(t[2..])
    else [if IsSurrogate(t[0]) then 0xFFFD else t[0]] + Repaired(t[1..])
  }

  function Damaged(t: Text): Text {
    if t == [] then []
    else if PairAtStart(t) then [t[0], t[1]] + Damaged(t[2..])
    else if t[0] == 0xFFFD then [0xDC00] + t[1..]
    else [t[0]] + Damaged(t[1..])
  }

  lemma {:induction false} RepairedSame(t: Text)
    ensures Scalars(Repaired(t)) == Scalars(t) && WellFormed(Repaired(t))
  {
    if t != [] {
      if PairAtStart(t) {
        RepairedSame(t[2..]);
        assert Repaired(t)[2..] == Repaired(t[2..]);
      } else {
        RepairedSame(t[1..]);
        assert Repaired(t)[1..] == Repaired(t[1..]);
      }
    }
  }

  lemma {:induction false} DamagedSame(t: Text)
    requires WellFormed(t) && 0xFFFD in t
    ensures Scalars(Damaged(t)) == Scalars(t) && Damaged(t) != t
  {
    if PairAtStart(t) {
      assert t == [t[0], t[1]] + t[2..];
      DamagedSame(t[2..]);
      assert Damaged(t)[2..] == Damaged(t[2..]);
    } else if t[0] == 0xFFFD {
      assert Damaged(t)[0] != t[0] && Damaged(t)[1..] == t[1..];
    } else {
      assert t == [t[0]] + t[1..];
      DamagedSame(t[1..]);
      assert Damaged(t)[1..] == Damaged(t[1..]);
    }
  }

  /** A text has its bytes to itself exactly when it holds neither a lone surrogate nor U+FFFD. */
  lemma OwnBytesIff(t: Text)
    ensures OwnBytes(t) <==> WellFormed(t) && 0xFFFD !in t
  {
    if WellFormed(t) && 0xFFFD !in t {
      forall s | Utf8(s) == Utf8(t) ensures s == t {
        SameBytesIffSameScalars(s, t);
        ReplacedIffFffd(s);
        ReplacedIffFffd(t);
        WellFormedScalarsInjective(s, t);
      }
    } else if !WellFormed(t) {
      RepairedSame(t);
      assert Utf8(Repaired(t)) == Utf8(t);
    } else {
      DamagedSame(t);
      assert Utf8(Damaged(t)) == Utf8(t);
    }
  }
}
