/** The one encoding of everything hashed or authenticated: each part after its length. */
module LengthPrefix {
  import opened Texts
  import opened Utf8Encoding

  /** A field: text, written as UTF-8, or bytes as they are. */
  datatype Part = T(text: Text) | B(bytes: Bytes)

  function PartBytes(part: Part): Bytes {
    match part
    case T(text) => Utf8(text)
    case B(bytes) => bytes
  }

  const MAX_LENGTH := 0xFFFF_FFFF

  /** `writeUInt32BE`. */
  function LengthBytes(n: nat): Bytes
    requires n <= MAX_LENGTH
  {
    [n / 0x100_0000, n / 0x1_0000 % 0x100, n / 0x100 % 0x100, n % 0x100]
  }

  function Encode(part: Bytes): Bytes
    requires |part| <= MAX_LENGTH
  {
    LengthBytes(|part|) + part
  }

  /** Every part after its length, in order; nothing when a length does not fit its four bytes. */
  function Encoding(parts: seq<Part>): Option<Bytes> {
    if parts == [] then Some([])
    else
      var rest := Encoding(parts[1..]);
      if rest.None? || |PartBytes(parts[0])| > MAX_LENGTH then None
      else Some(Encode(PartBytes(parts[0])) + rest.value)
  }

  function AllBytes(parts: seq<Part>): (bs: seq<Bytes>)
    ensures |bs| == |parts| && forall i | 0 <= i < |parts| :: bs[i] == PartBytes(parts[i])
  {
    seq(|parts|, i requires 0 <= i < |parts| => PartBytes(parts[i]))
  }

  // ----- the loop

  lemma EncodingOne(part: Part)
    ensures Encoding([part]) == if |PartBytes(part)| > MAX_LENGTH then None else Some([] + Encode(PartBytes(part)))
  {
    assert Encoding([part][1..]) == Some([]);
    if |PartBytes(part)| <= MAX_LENGTH {
      assert Encode(PartBytes(part)) + [] == [] + Encode(PartBytes(part));
    }
  }

  lemma {:induction false} EncodingAppend(parts: seq<Part>, last: Part)
    ensures Encoding(parts + [last]) ==
            if Encoding(parts).None? || |PartBytes(last)| > MAX_LENGTH then None
            else Some(Encoding(parts).value + Encode(PartBytes(last)))
  {
    if parts == [] {
      assert parts + [last] == [last];
      EncodingOne(last);
    } else {
      EncodingAppend(parts[1..], last);
      assert (parts + [last])[1..] == parts[1..] + [last];
      if Encoding(parts).Some? && |PartBytes(last)| <= MAX_LENGTH {
        assert (parts + [last])[0] == parts[0];
        Group(Encode(PartBytes(parts[0])), Encoding(parts[1..]).value, Encode(PartBytes(last)));
      }
    }
  }

  lemma {:induction false} EncodingOverflows(parts: seq<Part>, i: nat)
    requires i < |parts| && |PartBytes(parts[i])| > MAX_LENGTH
    ensures Encoding(parts).None?
  {
    if i > 0 { EncodingOverflows(parts[1..], i - 1); }
  }

  /** `lengthPrefixed`: chunks are pushed part by part; a length over 32 bits throws. */
  method LengthPrefixed(parts: seq<Part>) returns (r: Option<Bytes>)
    ensures r == Encoding(parts)
  {
    var chunks: Bytes := [];
    for i := 0 to |parts|
      invariant Encoding(parts[..i]) == Some(chunks)
    {
      var bytes := PartBytes(parts[i]);
      EncodingAppend(parts[..i], parts[i]);
      assert parts[..i + 1] == parts[..i] + [parts[i]];
      if |bytes| > MAX_LENGTH {
        EncodingOverflows(parts, i);
        return None;
      }
      chunks := chunks + LengthBytes(|bytes|) + bytes;
      assert chunks == Encoding(parts[..i]).value + Encode(bytes);
    }
    assert parts[..|parts|] == parts;
    r := Some(chunks);
  }

  // ----- injectivity

  lemma LengthBytesInjective(m: nat, n: nat)
    requires m <= MAX_LENGTH && n <= MAX_LENGTH && LengthBytes(m) == LengthBytes(n)
    ensures m == n
  {
    Base256(m);
    Base256(n);
    var a, b := LengthBytes(m), LengthBytes(n);
    assert a[0] == b[0] && a[1] == b[1] && a[2] == b[2] && a[3] == b[3];
  }

  lemma Base256(n: nat)
    ensures n == 0x100_0000 * (n / 0x100_0000) + 0x1_0000 * (n / 0x1_0000 % 0x100)
               + 0x100 * (n / 0x100 % 0x100) + n % 0x100
  {
    assert n / 0x1_0000 == n / 0x100 / 0x100;
    assert n / 0x100_0000 == n / 0x1_0000 / 0x100;
  }

  lemma EncodeInjective(p: Bytes, q: Bytes, s: Bytes, t: Bytes)
    requires |p| <= MAX_LENGTH && |q| <= MAX_LENGTH && Encode(p) + s == Encode(q) + t
    ensures p == q && s == t
  {
    var whole := Encode(p) + s;
    assert LengthBytes(|p|) == whole[..4] == LengthBytes(|q|);
    LengthBytesInjective(|p|, |q|);
    assert p == whole[4..4 + |p|] == q;
    assert s == whole[4 + |p|..] == t;
  }

  /** Two lists of parts with the same encoding have the same parts, byte for byte, and as many. */
  lemma {:induction false} EncodingInjective(ps: seq<Part>, qs: seq<Part>)
    requires Encoding(ps).Some? && Encoding(ps) == Encoding(qs)
    ensures AllBytes(ps) == AllBytes(qs)
  {
    if ps != [] && qs != [] {
      EncodeInjective(PartBytes(ps[0]), PartBytes(qs[0]), Encoding(ps[1..]).value, Encoding(qs[1..]).value);
      EncodingInjective(ps[1..], qs[1..]);
      assert AllBytes(ps) == [PartBytes(ps[0])] + AllBytes(ps[1..]);
      assert AllBytes(qs) == [PartBytes(qs[0])] + AllBytes(qs[1..]);
    }
  }

  /** The encoding depends on the parts' bytes alone. */
  lemma {:induction false} EncodingOfBytes(ps: seq<Part>, qs: seq<Part>)
    requires AllBytes(ps) == AllBytes(qs)
    ensures Encoding(ps) == Encoding(qs)
  {
    assert |ps| == |AllBytes(ps)| == |qs|;
    if ps != [] {
      assert PartBytes(ps[0]) == AllBytes(ps)[0] == PartBytes(qs[0]);
      assert AllBytes(ps[1..]) == AllBytes(ps)[1..] == AllBytes(qs[1..]);
      EncodingOfBytes(ps[1..], qs[1..]);
    }
  }

  /** Structures under labels with different bytes never encode alike: domain separation. */
  lemma LabelsSeparate(name: Text, ps: seq<Part>, other: Text, qs: seq<Part>)
    requires Utf8(name) != Utf8(other) && Encoding([T(name)] + ps).Some?
    ensures Encoding([T(name)] + ps) != Encoding([T(other)] + qs)
  {
    assert AllBytes([T(name)] + ps)[0] == Utf8(name) && AllBytes([T(other)] + qs)[0] == Utf8(other);
    if Encoding([T(name)] + ps) == Encoding([T(other)] + qs) {
      EncodingInjective([T(name)] + ps, [T(other)] + qs);
    }
  }
}
