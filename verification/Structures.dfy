/** What a scheme's labels are for: no two kinds of structure are ever encoded alike. */
module Structures {
  import opened Texts
  import opened Utf8Encoding
  import opened LengthPrefix
  import opened Receipts
  import opened Sealing
  import opened SealingProofs
  import opened Bindings

  /** Everything a scheme hashes or authenticates. */
  datatype Structure =
    | AssociatedData(b: Binding)
    | Commitment(salt: Bytes, canonical: Text)
    | Ciphertext(e: Envelope)
    | Genesis(scopeId: Text)
    | Receipt(scope: Text, previous: Text, link: Link)

  function PartsOf(labels: Labels, s: Structure): seq<Part> {
    match s
    case AssociatedData(b) => BindingParts(labels, b)
    case Commitment(salt, canonical) => CommitmentParts(labels, salt, canonical)
    case Ciphertext(e) => CiphertextParts(labels, e)
    case Genesis(scopeId) => GenesisParts(labels, scopeId)
    case Receipt(scope, previous, link) => LinkParts(labels, scope, previous, link)
  }

  ghost predicate SameKind(s: Structure, t: Structure) {
    match s
    case AssociatedData(_) => t.AssociatedData?
    case Commitment(_, _) => t.Commitment?
    case Ciphertext(_) => t.Ciphertext?
    case Genesis(_) => t.Genesis?
    case Receipt(_, _, _) => t.Receipt?
  }

  ghost predicate EncodedAlike(labels: Labels, s: Structure, t: Structure) {
    Encoding(PartsOf(labels, s)).Some? && Encoding(PartsOf(labels, s)) == Encoding(PartsOf(labels, t))
  }

  // ----- what the bytes of a structure hold

  /** The label written first in a structure of that kind. */
  function LabelOf(labels: Labels, s: Structure): Text {
    match s
    case AssociatedData(_) => labels.associatedData
    case Commitment(_, _) => labels.commitment
    case Ciphertext(_) => labels.ciphertext
    case Genesis(_) => labels.receiptGenesis
    case Receipt(_, _, _) => labels.receipt
  }

  /** All that a structure states, byte for byte. */
  ghost predicate SameStatement(s: Structure, t: Structure) {
    match (s, t) {
      case (AssociatedData(a), AssociatedData(b)) => SameBinding(a, b)
      case (Commitment(salt, c), Commitment(other, d)) => salt == other && Utf8(c) == Utf8(d)
      case (Ciphertext(e), Ciphertext(f)) => SameStored(e, f)
      case (Genesis(a), Genesis(b)) => Utf8(a) == Utf8(b)
      case (Receipt(a, p, l), Receipt(b, q, m)) =>
        && Utf8(a) == Utf8(b) && Utf8(p) == Utf8(q) && Utf8(l.entryId) == Utf8(m.entryId) && l.revision == m.revision
        && Utf8(l.receivedAt) == Utf8(m.receivedAt) && Utf8(l.ciphertextSha256) == Utf8(m.ciphertextSha256)
        && Utf8(l.contentCommitment) == Utf8(m.contentCommitment)
      case _ => false
    }
  }

  lemma SameBytesIff(ps: seq<Part>, qs: seq<Part>)
    requires Encoding(ps).Some?
    ensures Encoding(ps) == Encoding(qs) <==> AllBytes(ps) == AllBytes(qs)
  {
    if Encoding(ps) == Encoding(qs) { EncodingInjective(ps, qs); }
    if AllBytes(ps) == AllBytes(qs) { EncodingOfBytes(ps, qs); }
  }

  lemma CommitmentBytes(l: Labels, salt: Bytes, c: Text, m: Labels, other: Bytes, d: Text)
    ensures AllBytes(CommitmentParts(l, salt, c)) == AllBytes(CommitmentParts(m, other, d)) <==>
            Utf8(l.commitment) == Utf8(m.commitment) && salt == other && Utf8(c) == Utf8(d)
  {
    var x, y := AllBytes(CommitmentParts(l, salt, c)), AllBytes(CommitmentParts(m, other, d));
    assert x == [Utf8(l.commitment), salt, Utf8(c)] && y == [Utf8(m.commitment), other, Utf8(d)];
    assert x == y ==> x[0] == y[0] && x[1] == y[1] && x[2] == y[2];
  }

  lemma CiphertextBytes(l: Labels, e: Envelope, m: Labels, f: Envelope)
    ensures AllBytes(CiphertextParts(l, e)) == AllBytes(CiphertextParts(m, f)) <==>
            Utf8(l.ciphertext) == Utf8(m.ciphertext) && SameStored(e, f)
  {
    var x, y := AllBytes(CiphertextParts(l, e)), AllBytes(CiphertextParts(m, f));
    assert x == [Utf8(l.ciphertext), Utf8(e.keyId), e.nonce, e.ciphertext, e.tag, e.wrappedContentKey];
    assert y == [Utf8(m.ciphertext), Utf8(f.keyId), f.nonce, f.ciphertext, f.tag, f.wrappedContentKey];
    assert x == y ==> x[0] == y[0] && x[1] == y[1] && x[2] == y[2] && x[3] == y[3] && x[4] == y[4] && x[5] == y[5];
  }

  lemma GenesisBytes(l: Labels, a: Text, m: Labels, b: Text)
    ensures AllBytes(GenesisParts(l, a)) == AllBytes(GenesisParts(m, b)) <==>
            Utf8(l.receiptGenesis) == Utf8(m.receiptGenesis) && Utf8(a) == Utf8(b)
  {
    var x, y := AllBytes(GenesisParts(l, a)), AllBytes(GenesisParts(m, b));
    assert x == [Utf8(l.receiptGenesis), Utf8(a)] && y == [Utf8(m.receiptGenesis), Utf8(b)];
    assert x == y ==> x[0] == y[0] && x[1] == y[1];
  }

  lemma ReceiptBytes(l: Labels, s: Structure, m: Labels, t: Structure)
    requires s.Receipt? && t.Receipt?
    ensures AllBytes(PartsOf(l, s)) == AllBytes(PartsOf(m, t)) <==>
            Utf8(l.receipt) == Utf8(m.receipt) && SameStatement(s, t)
  {
    LinkPartsBytes(l, s.scope, s.previous, s.link);
    LinkPartsBytes(m, t.scope, t.previous, t.link);
    var x, y := AllBytes(PartsOf(l, s)), AllBytes(PartsOf(m, t));
    if x == y {
      assert x[0] == y[0] && x[1] == y[1] && x[2] == y[2] && x[3] == y[3] && x[4] == y[4];
      assert x[5] == y[5] && x[6] == y[6] && x[7] == y[7];
      IntTextBytesInjective(s.link.revision, t.link.revision);
    }
  }

  /**
   * The bytes of a structure say its label and all that it states, and nothing else: under whatever labels, two
   * structures of a kind are encoded alike exactly when their labels and their statements are the same.
   */
  lemma AlikeIff(l: Labels, s: Structure, m: Labels, t: Structure)
    requires SameKind(s, t) && Encoding(PartsOf(l, s)).Some?
    ensures Encoding(PartsOf(l, s)) == Encoding(PartsOf(m, t)) <==>
            Utf8(LabelOf(l, s)) == Utf8(LabelOf(m, t)) && SameStatement(s, t)
  {
    match s
    case AssociatedData(b) => AssociatedDataIff(l, b, m, t.b);
    case Commitment(salt, c) =>
      SameBytesIff(PartsOf(l, s), PartsOf(m, t));
      CommitmentBytes(l, salt, c, m, t.salt, t.canonical);
    case Ciphertext(e) =>
      SameBytesIff(PartsOf(l, s), PartsOf(m, t));
      CiphertextBytes(l, e, m, t.e);
    case Genesis(scopeId) =>
      SameBytesIff(PartsOf(l, s), PartsOf(m, t));
      GenesisBytes(l, scopeId, m, t.scopeId);
    case Receipt(_, _, _) =>
      SameBytesIff(PartsOf(l, s), PartsOf(m, t));
      ReceiptBytes(l, s, m, t);
  }

  /** The bytes of a structure tell which of the five kinds it is. */
  ghost predicate KindsApart(labels: Labels) {
    forall s, t | EncodedAlike(labels, s, t) :: SameKind(s, t)
  }

  /** Structures encoded alike have as many parts: only associated data and ciphertexts can be confused. */
  lemma AlikeIsCounted(labels: Labels, s: Structure, t: Structure)
    requires EncodedAlike(labels, s, t) && !SameKind(s, t)
    ensures (s.AssociatedData? && t.Ciphertext?) || (s.Ciphertext? && t.AssociatedData?)
  {
    var ps, qs := PartsOf(labels, s), PartsOf(labels, t);
    EncodingInjective(ps, qs);
    assert |ps| == |AllBytes(ps)| == |AllBytes(qs)| == |qs|;
  }

  lemma AlikeShareLabel(labels: Labels, s: Structure, t: Structure)
    requires EncodedAlike(labels, s, t) && s.AssociatedData? && t.Ciphertext?
    ensures Utf8(labels.associatedData) == Utf8(labels.ciphertext)
  {
    var ps, qs := PartsOf(labels, s), PartsOf(labels, t);
    assert ps == [T(labels.associatedData)] + ps[1..] && qs == [T(labels.ciphertext)] + qs[1..];
    if Utf8(labels.associatedData) != Utf8(labels.ciphertext) {
      LabelsSeparate(labels.associatedData, ps[1..], labels.ciphertext, qs[1..]);
    }
  }

  // ----- labels with the same bytes do confuse them

  lemma {:induction false} ScalarsShorter(t: Text)
    ensures |Scalars(t)| <= |t|
  {
    if t != [] {
      ScalarsShorter(if PairAtStart(t) then t[2..] else t[1..]);
    }
  }

  lemma {:induction false} ScalarsBytesBound(cs: seq<Scalar>)
    ensures |ScalarsBytes(cs)| <= 4 * |cs|
  {
    if cs != [] { ScalarsBytesBound(cs[1..]); }
  }

  lemma {:induction false} EncodingFits(parts: seq<Part>)
    requires forall i | 0 <= i < |parts| :: |PartBytes(parts[i])| <= MAX_LENGTH
    ensures Encoding(parts).Some?
  {
    if parts != [] { EncodingFits(parts[1..]); }
  }

  /** Associated data of nothing but revision 0, and the stored bytes that hold the same. */
  const NO_BINDING := Binding([], [], [], 0, [])
  const NO_ENVELOPE := Envelope(SEAL_VERSION, [], [], [], [0x30], [], [], [])

  lemma ZeroBytes()
    ensures Utf8([]) == [] && Utf8(IntText(0)) == [0x30]
  {
    var zero: Text := [0x30];
    assert IntText(0) == zero;
    assert Scalars(zero[1..]) == [];
    var scalars: seq<Scalar> := [0x30];
    assert Scalars(zero) == scalars;
    assert ScalarsBytes(scalars[1..]) == [];
  }

  lemma SameBytesConfuse(labels: Labels)
    requires |labels.associatedData| <= MAX_LABEL_LENGTH && Utf8(labels.associatedData) == Utf8(labels.ciphertext)
    ensures EncodedAlike(labels, AssociatedData(NO_BINDING), Ciphertext(NO_ENVELOPE))
  {
    var ps, qs := PartsOf(labels, AssociatedData(NO_BINDING)), PartsOf(labels, Ciphertext(NO_ENVELOPE));
    ZeroBytes();
    ScalarsShorter(labels.associatedData);
    ScalarsBytesBound(Scalars(labels.associatedData));
    EncodingFits(ps);
    assert AllBytes(ps) == AllBytes(qs);
    EncodingOfBytes(ps, qs);
  }

  /** Under accepted labels the kinds are told apart exactly when the two labels that could meet differ as bytes. */
  lemma KindsApartIff(labels: Labels)
    requires LabelsAccepted(labels)
    ensures KindsApart(labels) <==> Utf8(labels.associatedData) != Utf8(labels.ciphertext)
  {
    if Utf8(labels.associatedData) == Utf8(labels.ciphertext) {
      assert 0 < |LabelValues(labels)[0]| <= MAX_LABEL_LENGTH;
      SameBytesConfuse(labels);
    } else {
      forall s, t | EncodedAlike(labels, s, t) ensures SameKind(s, t) {
        if !SameKind(s, t) {
          AlikeIsCounted(labels, s, t);
          if s.AssociatedData? { AlikeShareLabel(labels, s, t); } else { AlikeShareLabel(labels, t, s); }
        }
      }
    }
  }

  /** Accepted labels without lone surrogates always tell the kinds apart. */
  lemma WellFormedLabelsApart(labels: Labels)
    requires LabelsAccepted(labels) && WellFormed(labels.associatedData) && WellFormed(labels.ciphertext)
    ensures KindsApart(labels)
  {
    assert LabelValues(labels)[0] != LabelValues(labels)[2];
    if Utf8(labels.associatedData) == Utf8(labels.ciphertext) {
      Utf8Injective(labels.associatedData, labels.ciphertext);
    }
    KindsApartIff(labels);
  }

  /** Labels that differ in a lone surrogate are accepted, and do not. */
  lemma LoneSurrogateLabelsMeet(c: CodeUnit, d: CodeUnit)
    requires IsSurrogate(c) && IsSurrogate(d) && c != d
    ensures LabelsAccepted(Labels([c], [0x61], [d], [0x62], [0x65]))
    ensures !KindsApart(Labels([c], [0x61], [d], [0x62], [0x65]))
  {
    var labels := Labels([c], [0x61], [d], [0x62], [0x65]);
    var values := LabelValues(labels);
    assert forall i | 0 <= i < 5 :: |values[i]| == 1;
    assert values[0][0] == c && values[1][0] == 0x61 && values[2][0] == d && values[3][0] == 0x62
           && values[4][0] == 0x65;
    LoneSurrogatesShareBytes(c, d);
    SameBytesConfuse(labels);
  }
}
