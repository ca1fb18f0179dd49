/** What an envelope is bound to: a change to any field of its binding hands the cipher other data and is refused. */
module Bindings {
  import opened Texts
  import opened Utf8Encoding
  import opened Canonical
  import opened LengthPrefix
  import opened Receipts
  import opened Sealing
  import opened SealingProofs

  /** The same scope, entry, submitter, revision and key, byte for byte. */
  ghost predicate SameBinding(a: Binding, b: Binding) {
    && Utf8(a.scopeId) == Utf8(b.scopeId) && Utf8(a.entryId) == Utf8(b.entryId)
    && Utf8(a.submitterId) == Utf8(b.submitterId) && a.revision == b.revision && Utf8(a.keyId) == Utf8(b.keyId)
  }

  lemma BindingBytes(labels: Labels, a: Binding)
    ensures AllBytes(BindingParts(labels, a)) ==
            [Utf8(labels.associatedData), Utf8(a.scopeId), Utf8(a.entryId), Utf8(a.submitterId),
             Utf8(IntText(a.revision)), Utf8(a.keyId)]
  {
  }

  lemma BindingBytesIff(labels: Labels, a: Binding, others: Labels, b: Binding)
    ensures AllBytes(BindingParts(labels, a)) == AllBytes(BindingParts(others, b)) <==>
            Utf8(labels.associatedData) == Utf8(others.associatedData) && SameBinding(a, b)
  {
    BindingBytes(labels, a);
    BindingBytes(others, b);
    var x, y := AllBytes(BindingParts(labels, a)), AllBytes(BindingParts(others, b));
    if x == y {
      assert x[0] == y[0] && x[1] == y[1] && x[2] == y[2] && x[3] == y[3] && x[4] == y[4] && x[5] == y[5];
      IntTextBytesInjective(a.revision, b.revision);
    }
  }

  /** The associated data names the label and every field of the binding, and nothing else. */
  lemma AssociatedDataIff(labels: Labels, a: Binding, others: Labels, b: Binding)
    requires Encoding(BindingParts(labels, a)).Some?
    ensures Encoding(BindingParts(labels, a)) == Encoding(BindingParts(others, b)) <==>
            Utf8(labels.associatedData) == Utf8(others.associatedData) && SameBinding(a, b)
  {
    BindingBytesIff(labels, a, others, b);
    var ps, qs := BindingParts(labels, a), BindingParts(others, b);
    if Encoding(ps) == Encoding(qs) { EncodingInjective(ps, qs); }
    if AllBytes(ps) == AllBytes(qs) { EncodingOfBytes(ps, qs); }
  }

  /** The cipher gives something for associated data other than what the ciphertext was made with. */
  ghost predicate Forged(p: Primitives, key: Bytes, nonce: Bytes, sealedWith: Option<Bytes>, openedWith: Option<Bytes>,
                         ciphertext: Bytes, tag: Bytes) {
    && sealedWith.Some? && openedWith.Some? && sealedWith != openedWith
    && p.aeadDecrypt(key, nonce, openedWith.value, ciphertext, tag).Some?
  }

  /** An envelope that opens was sealed under that very binding and label, or the cipher was forged. */
  lemma OpensOnlyAsSealed(p: Primitives, labels: Labels, publicKey: Text, privateKey: Bytes, b: Binding, content: Json,
                          salt: Bytes, contentKey: Bytes, nonce: Bytes, seed: Bytes, e: Envelope,
                          scheme: SealingScheme, d: Binding, verified: Option<VerifiedIndex>)
    requires KeyPair(p, publicKey, privateKey)
    requires Sealed(p, labels, publicKey, b, content, salt, contentKey, nonce, seed) == Ok(e)
    requires OpenedContent(p, scheme, privateKey, d, e, verified).Ok?
    ensures
      || (Utf8(labels.associatedData) == Utf8(scheme.labels.associatedData) && SameBinding(b, d))
      || Forged(p, contentKey, nonce, Encoding(BindingParts(labels, b)), Encoding(BindingParts(scheme.labels, d)),
                e.ciphertext, e.tag)
  {
    AssociatedDataIff(labels, b, scheme.labels, d);
    assert p.unwrap(privateKey, e.wrappedContentKey) == Some(contentKey);
  }

  /** Under any other binding it is refused as tampered with, once the receipts pass, unless the cipher was forged. */
  lemma OtherBindingIsTampered(p: Primitives, labels: Labels, publicKey: Text, privateKey: Bytes, b: Binding,
                               content: Json, salt: Bytes, contentKey: Bytes, nonce: Bytes, seed: Bytes, e: Envelope,
                               scheme: SealingScheme, d: Binding, verified: Option<VerifiedIndex>)
    requires KeyPair(p, publicKey, privateKey)
    requires Sealed(p, labels, publicKey, b, content, salt, contentKey, nonce, seed) == Ok(e)
    requires ReceiptFor(p, scheme, d, e, verified).Ok? && Encoding(BindingParts(scheme.labels, d)).Some?
    requires Utf8(labels.associatedData) != Utf8(scheme.labels.associatedData) || !SameBinding(b, d)
    requires !Forged(p, contentKey, nonce, Encoding(BindingParts(labels, b)), Encoding(BindingParts(scheme.labels, d)),
                     e.ciphertext, e.tag)
    ensures OpenedContent(p, scheme, privateKey, d, e, verified) == Err(Tampered)
  {
    AssociatedDataIff(labels, b, scheme.labels, d);
    assert p.unwrap(privateKey, e.wrappedContentKey) == Some(contentKey);
  }

  /** What a verification holds about an entry: its scope, and the entry's newest link. */
  ghost predicate Vouches(v: VerifiedIndex, scheme: SealingScheme, b: Binding, link: Link) {
    && v.scheme == scheme && v.scopeId == b.scopeId && b.entryId in v.newest && v.newest[b.entryId] == link
    && link.revision == b.revision
  }

  /** The envelope is the one its entry's newest receipt was issued for. */
  ghost predicate Receipted(p: Primitives, scheme: SealingScheme, b: Binding, e: Envelope, link: Link) {
    && e.version == SEAL_VERSION && e.keyId == b.keyId
    && Digest(p.sha256, CiphertextParts(scheme.labels, e)) == Some(link.ciphertextSha256)
    && e.ciphertextSha256 == link.ciphertextSha256 && Utf8(e.contentCommitment) == Utf8(link.contentCommitment)
  }

  lemma ReceiptedIff(p: Primitives, scheme: SealingScheme, b: Binding, e: Envelope, v: VerifiedIndex, link: Link)
    ensures ReceiptFor(p, scheme, b, e, Some(v)) == Ok(link) <==>
            Vouches(v, scheme, b, link) && Receipted(p, scheme, b, e, link)
  {
    var parts := CiphertextParts(scheme.labels, e);
    if Digest(p.sha256, parts).Some? {
      var digest := Digest(p.sha256, parts).value;
      if SameDigest(digest, link.ciphertextSha256) { SameDigestExact(p.sha256, parts, link.ciphertextSha256); }
      if SameDigest(e.ciphertextSha256, digest) { SameDigestExact(p.sha256, parts, e.ciphertextSha256); }
    }
  }

  /**
   * An opening succeeds with a value exactly when the envelope is of this version and key, the
   * verified chain's newest receipt for the entry is of this revision and was issued for just this envelope, and the
   * value inside is the one the receipt commits to.
   */
  lemma OpensIff(p: Primitives, scheme: SealingScheme, privateKey: Bytes, b: Binding, e: Envelope, v: VerifiedIndex,
                 link: Link, content: Json)
    requires Vouches(v, scheme, b, link)
    ensures OpenedContent(p, scheme, privateKey, b, e, Some(v)) == Ok(content) <==>
            && Receipted(p, scheme, b, e, link)
            && e.contentCommitment == link.contentCommitment
            && exists salt :: CommitsTo(p, scheme, privateKey, b, e, salt, content)
  {
    ReceiptedIff(p, scheme, b, e, v, link);
    var r := OpenedContent(p, scheme, privateKey, b, e, Some(v));
    if r == Ok(content) {
      OpenRecomputes(p, scheme, privateKey, b, e, v);
      var inner := Inside(p, scheme.labels, privateKey, b, e).value;
      SameDigestExact(p.sha256, CommitmentParts(scheme.labels, inner.salt, Canonicalize(content).value),
                      e.contentCommitment);
      assert CommitsTo(p, scheme, privateKey, b, e, inner.salt, content);
    }
  }

  /** Inside the envelope are this salt and this value, and its commitment is to them. */
  ghost predicate CommitsTo(p: Primitives, scheme: SealingScheme, privateKey: Bytes, b: Binding, e: Envelope,
                            salt: Bytes, content: Json) {
    && Inside(p, scheme.labels, privateKey, b, e) == Ok(Opened(salt, content))
    && Canonicalize(content).Some?
    && Digest(p.sha256, CommitmentParts(scheme.labels, salt, Canonicalize(content).value)) == Some(e.contentCommitment)
  }

  /** Without a verification of this scope under this scheme, or without a receipt of this revision, nothing opens. */
  lemma NothingOpensUnvouched(p: Primitives, scheme: SealingScheme, privateKey: Bytes, b: Binding, e: Envelope,
                              verified: Option<VerifiedIndex>)
    requires verified.None? || forall link :: !Vouches(verified.value, scheme, b, link)
    ensures OpenedContent(p, scheme, privateKey, b, e, verified).Err?
  {
    if verified.Some? && b.entryId in verified.value.newest {
      assert !Vouches(verified.value, scheme, b, verified.value.newest[b.entryId]);
    }
  }

  // ----- refusals

  /**
   * What sealing is refused for: content that cannot be written once wrapped, or is too large; then a binding that
   * does not fit the encoding; then a key that does not wrap; then what is hashed not fitting. Nothing else is.
   */
  lemma SealRefusedFor(p: Primitives, labels: Labels, publicKey: Text, b: Binding, content: Json, salt: Bytes,
                       contentKey: Bytes, nonce: Bytes, seed: Bytes)
    ensures var r := Sealed(p, labels, publicKey, b, content, salt, contentKey, nonce, seed);
            && (r == Err(InvalidContent) <==> PlaintextOf(p, content, salt).None?)
            && (r == Err(KeyUnavailable) <==>
                  && PlaintextOf(p, content, salt).Some? && Encoding(BindingParts(labels, b)).Some?
                  && p.wrap(publicKey, seed, contentKey).None?)
            && (r.Err? ==> r.failure in {InvalidContent, KeyUnavailable, RangeError})
  {
  }

  /** Nothing was verified for the scope under this scheme. */
  ghost predicate Unverified(verified: Option<VerifiedIndex>, scheme: SealingScheme, b: Binding) {
    verified.None? || verified.value.scheme != scheme || verified.value.scopeId != b.scopeId
  }

  /** What was verified has no receipt of this revision of the entry as its newest. */
  ghost predicate Unreceipted(verified: Option<VerifiedIndex>, scheme: SealingScheme, b: Binding) {
    verified.None? || forall link :: !Vouches(verified.value, scheme, b, link)
  }

  /**
   * What opening is refused for before anything is decrypted, in this order: an envelope of another version or key; no
   * verification of its scope under this scheme; no newest receipt of its revision; and a receipt that is not its own.
   */
  lemma OpenRefusedFor(p: Primitives, scheme: SealingScheme, privateKey: Bytes, b: Binding, e: Envelope,
                       verified: Option<VerifiedIndex>)
    ensures var r := OpenedContent(p, scheme, privateKey, b, e, verified);
            if e.version != SEAL_VERSION || e.keyId != b.keyId then r == Err(Tampered)
            else if Unverified(verified, scheme, b) then r == Err(ReceiptChainBroken)
            else if Unreceipted(verified, scheme, b) then r == Err(ReceiptMismatch)
            else
              var link := verified.value.newest[b.entryId];
              if Encoding(CiphertextParts(scheme.labels, e)).None? then r == Err(RangeError)
              else if !Receipted(p, scheme, b, e, link) then r == Err(ReceiptMismatch)
              else if Inside(p, scheme.labels, privateKey, b, e).Err? then
                r == Err(Inside(p, scheme.labels, privateKey, b, e).failure)
              else r == Compared(p, scheme, Inside(p, scheme.labels, privateKey, b, e).value, link)
  {
    if verified.Some? && b.entryId in verified.value.newest {
      var link := verified.value.newest[b.entryId];
      assert Vouches(verified.value, scheme, b, link) <==>
             !Unverified(verified, scheme, b) && link.revision == b.revision;
      ReceiptedIff(p, scheme, b, e, verified.value, link);
      if Inside(p, scheme.labels, privateKey, b, e).Ok? {
        ComparedIs(p, scheme, Inside(p, scheme.labels, privateKey, b, e).value, link);
      }
    }
  }

  /** What comes of the salt and the value inside once they are held against the receipted commitment. */
  ghost function Compared(p: Primitives, scheme: SealingScheme, inner: Opened, link: Link): Result<Json> {
    if Canonicalize(inner.content).None? then Err(InvalidContent)
    else
      var digest := Digest(p.sha256, CommitmentParts(scheme.labels, inner.salt, Canonicalize(inner.content).value));
      if digest.None? then Err(RangeError)
      else if digest != Some(link.contentCommitment) then Err(CommitmentMismatch)
      else Ok(inner.content)
  }

  lemma ComparedIs(p: Primitives, scheme: SealingScheme, inner: Opened, link: Link)
    ensures Committed(p, scheme.labels, inner, link) == Compared(p, scheme, inner, link)
  {
    if Canonicalize(inner.content).Some? {
      var parts := CommitmentParts(scheme.labels, inner.salt, Canonicalize(inner.content).value);
      if Digest(p.sha256, parts).Some? && SameDigest(Digest(p.sha256, parts).value, link.contentCommitment) {
        SameDigestExact(p.sha256, parts, link.contentCommitment);
      }
    }
  }

  /** A key that does not unwrap, or a cipher that gives nothing, is tampering; a range error is only the binding's. */
  lemma InsideRefusedFor(p: Primitives, labels: Labels, privateKey: Bytes, b: Binding, e: Envelope)
    ensures var r, key := Inside(p, labels, privateKey, b, e), p.unwrap(privateKey, e.wrappedContentKey);
            && (key.None? ==> r == Err(Tampered))
            && (key.Some? && Encoding(BindingParts(labels, b)).Some?
                && p.aeadDecrypt(key.value, e.nonce, Encoding(BindingParts(labels, b)).value, e.ciphertext, e.tag).None?
                ==> r == Err(Tampered))
            && (r.Err? ==> r.failure in {Tampered, RangeError, TypeError})
            && (r == Err(RangeError) ==> Encoding(BindingParts(labels, b)).None?)
  {
  }
}
