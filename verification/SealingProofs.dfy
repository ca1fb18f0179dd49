/** What opening guarantees: the sealed content back, and only the content the receipts commit to. */
module SealingProofs {
  import opened Texts
  import opened Utf8Encoding
  import opened Canonical
  import opened CanonicalProofs
  import opened JsonReader
  import opened LengthPrefix
  import opened Receipts
  import opened Sealing

  // ----- sealing, then opening

  lemma WrapperKeys(saltText: Text, content: Json)
    ensures var ks := Keys(Wrapper(saltText, content).members);
            ks == [V_KEY, SALT_KEY, CONTENT_KEY] && Distinct(ks)
  {
    assert |V_KEY| == 1 && |SALT_KEY| == 4 && |CONTENT_KEY| == 7;
  }

  /** A value with the wrapper's data holds its three fields, in whatever order. */
  lemma WrapperReads(saltText: Text, content: Json, parsed: Json)
    requires SameData(Wrapper(saltText, content), parsed)
    ensures parsed.Obj?
    ensures Field(parsed, V_KEY) == Num(SEAL_VERSION) && Field(parsed, SALT_KEY) == Str(saltText)
    ensures SameData(content, Field(parsed, CONTENT_KEY))
  {
    var ms := Wrapper(saltText, content).members;
    WrapperKeys(saltText, content);
    LookupOf(ms, 0);
    LookupOf(ms, 1);
    LookupOf(ms, 2);
    assert V_KEY in Keys(ms) && SALT_KEY in Keys(ms) && CONTENT_KEY in Keys(ms);
    assert SameData(Lookup(ms, V_KEY), Lookup(parsed.members, V_KEY));
    assert SameData(Lookup(ms, SALT_KEY), Lookup(parsed.members, SALT_KEY));
    assert SameData(Lookup(ms, CONTENT_KEY), Lookup(parsed.members, CONTENT_KEY));
  }

  lemma WrapperIsPlain(saltText: Text, content: Json)
    requires Proper(content) && Dense(content)
    ensures Proper(Wrapper(saltText, content)) && Dense(Wrapper(saltText, content))
  {
    WrapperKeys(saltText, content);
  }

  lemma ParsedOfText(p: Primitives, v: Json)
    requires Lawful(p) && Proper(v) && Dense(v) && Canonicalize(v).Some?
    ensures ReadsBack(v, p.parse(p.fromUtf8(Utf8(Canonicalize(v).value))))
  {
    WriteWellFormed(v, 0);
  }

  /** What was put in a plaintext is what is unpacked from it. */
  lemma UnpackedOfPlaintext(p: Primitives, content: Json, salt: Bytes)
    requires Lawful(p) && Proper(content) && Dense(content) && PlaintextOf(p, content, salt).Some?
    ensures var r := Unpacked(p, PlaintextOf(p, content, salt).value);
            r.Ok? && r.value.salt == salt && SameData(content, r.value.content)
  {
    var w := Wrapper(p.toBase64(salt), content);
    WrapperIsPlain(p.toBase64(salt), content);
    ParsedOfText(p, w);
    WrapperReads(p.toBase64(salt), content, p.parse(p.fromUtf8(Utf8(Canonicalize(w).value))).value);
    assert p.fromBase64(p.toBase64(salt)) == salt;
  }

  lemma SameDataSameText(v: Json, w: Json)
    requires Proper(v) && Proper(w) && SameData(v, w)
    ensures Canonicalize(v) == Canonicalize(w)
  {
    NormalOfSameData(v, w);
    WriteOfNormal(v, w, 0);
  }

  lemma InsideOfSealed(p: Primitives, labels: Labels, publicKey: Text, privateKey: Bytes, b: Binding, content: Json,
                       salt: Bytes, contentKey: Bytes, nonce: Bytes, seed: Bytes, e: Envelope)
    requires Lawful(p) && KeyPair(p, publicKey, privateKey)
    requires Sealed(p, labels, publicKey, b, content, salt, contentKey, nonce, seed) == Ok(e)
    ensures PlaintextOf(p, content, salt).Some?
    ensures Inside(p, labels, privateKey, b, e) == Unpacked(p, PlaintextOf(p, content, salt).value)
    ensures Canonicalize(content).Some?
    ensures Digest(p.sha256, CommitmentParts(labels, salt, Canonicalize(content).value)) == Some(e.contentCommitment)
  {
    var plaintext := PlaintextOf(p, content, salt).value;
    var aad := Encoding(BindingParts(labels, b)).value;
    assert p.unwrap(privateKey, e.wrappedContentKey) == Some(contentKey);
    assert p.aeadDecrypt(contentKey, nonce, aad, e.ciphertext, e.tag) == Some(plaintext);
  }

  /** A sealed envelope passes every check made before decryption when the newest receipt is its own. */
  lemma ReceiptOfSealed(p: Primitives, scheme: SealingScheme, publicKey: Text, b: Binding, content: Json,
                        salt: Bytes, contentKey: Bytes, nonce: Bytes, seed: Bytes, e: Envelope, v: VerifiedIndex)
    requires Sealed(p, scheme.labels, publicKey, b, content, salt, contentKey, nonce, seed) == Ok(e)
    requires v.scheme == scheme && v.scopeId == b.scopeId && b.entryId in v.newest
    requires v.newest[b.entryId].revision == b.revision
    requires v.newest[b.entryId].ciphertextSha256 == e.ciphertextSha256
    requires v.newest[b.entryId].contentCommitment == e.contentCommitment
    ensures ReceiptFor(p, scheme, b, e, Some(v)) == Ok(v.newest[b.entryId])
  {
    var bare := e.(contentCommitment := [], ciphertextSha256 := []);
    assert CiphertextParts(scheme.labels, e) == CiphertextParts(scheme.labels, bare);
  }

  /** The opening succeeded with the data that was sealed. */
  ghost predicate GivesBack(content: Json, r: Result<Json>) {
    r.Ok? && SameData(content, r.value)
  }

  /**
   * An envelope opened against a verified chain whose newest receipt for the entry is its own
   * gives back the data that was sealed, exactly when no array in it has an unassigned slot.
   */
  lemma SealThenOpen(p: Primitives, scheme: SealingScheme, publicKey: Text, privateKey: Bytes, b: Binding,
                     content: Json, salt: Bytes, contentKey: Bytes, nonce: Bytes, seed: Bytes, e: Envelope,
                     v: VerifiedIndex, links: seq<Link>, link: Link)
    requires Lawful(p) && KeyPair(p, publicKey, privateKey) && Proper(content)
    requires Sealed(p, scheme.labels, publicKey, b, content, salt, contentKey, nonce, seed) == Ok(e)
    requires v.scheme == scheme && v.scopeId == b.scopeId && Indexes(v.newest, links)
    requires LastFor(links, b.entryId) == Some(link) && link.revision == b.revision
    requires link.ciphertextSha256 == e.ciphertextSha256 && link.contentCommitment == e.contentCommitment
    ensures GivesBack(content, OpenedContent(p, scheme, privateKey, b, e, Some(v))) <==> Dense(content)
  {
    assert b.entryId in v.newest && v.newest[b.entryId] == link by {
      assert (if b.entryId in v.newest then Some(v.newest[b.entryId]) else None) == LastFor(links, b.entryId);
    }
    var r := OpenedContent(p, scheme, privateKey, b, e, Some(v));
    ReceiptOfSealed(p, scheme, publicKey, b, content, salt, contentKey, nonce, seed, e, v);
    InsideOfSealed(p, scheme.labels, publicKey, privateKey, b, content, salt, contentKey, nonce, seed, e);
    if Dense(content) {
      UnpackedOfPlaintext(p, content, salt);
      UnpackedIsPlain(p, PlaintextOf(p, content, salt).value);
      SameDataSameText(content, Inside(p, scheme.labels, privateKey, b, e).value.content);
    }
    if GivesBack(content, r) {
      OpenedIsDense(p, scheme, privateKey, b, e, Some(v));
      DenseOfSameData(content, r.value);
    }
  }

  /** What opens is plain data that can be printed. */
  lemma OpenedIsDense(p: Primitives, scheme: SealingScheme, privateKey: Bytes, b: Binding, e: Envelope,
                      verified: Option<VerifiedIndex>)
    requires ParsesPlainData(p) && OpenedContent(p, scheme, privateKey, b, e, verified).Ok?
    ensures var content := OpenedContent(p, scheme, privateKey, b, e, verified).value;
            Proper(content) && Dense(content) && Canonicalize(content).Some?
  {
    InsideIsPlain(p, scheme.labels, privateKey, b, e);
  }

  lemma FieldPlain(v: Json, key: Text)
    requires Proper(v) && Dense(v)
    ensures Proper(Field(v, key)) && Dense(Field(v, key))
  {
    if v.Obj? && key in Keys(v.members) {
      var value := Lookup(v.members, key);
      var i :| 0 <= i < |v.members| && v.members[i] == Member(key, value);
    }
  }

  lemma UnpackedIsPlain(p: Primitives, plaintext: Bytes)
    requires ParsesPlainData(p) && Unpacked(p, plaintext).Ok?
    ensures Proper(Unpacked(p, plaintext).value.content) && Dense(Unpacked(p, plaintext).value.content)
  {
    FieldPlain(p.parse(p.fromUtf8(plaintext)).value, CONTENT_KEY);
  }

  lemma InsideIsPlain(p: Primitives, labels: Labels, privateKey: Bytes, b: Binding, e: Envelope)
    requires ParsesPlainData(p) && Inside(p, labels, privateKey, b, e).Ok?
    ensures Proper(Inside(p, labels, privateKey, b, e).value.content)
            && Dense(Inside(p, labels, privateKey, b, e).value.content)
  {
    var key := p.unwrap(privateKey, e.wrappedContentKey).value;
    UnpackedIsPlain(p, Decrypted(p, labels, key, b, e).value);
  }

  // ----- an opening is determined by the receipts

  /** The envelope's stored bytes that a receipt commits to. */
  ghost predicate SameStored(e: Envelope, f: Envelope) {
    && Utf8(e.keyId) == Utf8(f.keyId) && e.nonce == f.nonce && e.ciphertext == f.ciphertext
    && e.tag == f.tag && e.wrappedContentKey == f.wrappedContentKey
  }

  lemma StoredAgree(h: Hash, labels: Labels, e: Envelope, f: Envelope)
    requires Digest(h, CiphertextParts(labels, e)).Some?
    requires Digest(h, CiphertextParts(labels, e)) == Digest(h, CiphertextParts(labels, f))
    requires !Collision(h, Encoding(CiphertextParts(labels, e)), Encoding(CiphertextParts(labels, f)))
    ensures SameStored(e, f)
  {
    DigestsAgree(h, CiphertextParts(labels, e), CiphertextParts(labels, f));
    var x, y := AllBytes(CiphertextParts(labels, e)), AllBytes(CiphertextParts(labels, f));
    assert x[1] == y[1] && x[2] == y[2] && x[3] == y[3] && x[4] == y[4] && x[5] == y[5];
  }

  lemma ContentsAgree(h: Hash, labels: Labels, o: Opened, q: Opened)
    requires Canonicalize(o.content).Some? && Canonicalize(q.content).Some?
    requires Proper(o.content) && Proper(q.content) && Dense(o.content) && Dense(q.content)
    requires var d := Digest(h, CommitmentParts(labels, o.salt, Canonicalize(o.content).value));
             d.Some? && d == Digest(h, CommitmentParts(labels, q.salt, Canonicalize(q.content).value))
    requires !Collision(h, Encoding(CommitmentParts(labels, o.salt, Canonicalize(o.content).value)),
                        Encoding(CommitmentParts(labels, q.salt, Canonicalize(q.content).value)))
    ensures o.salt == q.salt && SameData(o.content, q.content)
  {
    var s, t := Canonicalize(o.content).value, Canonicalize(q.content).value;
    DigestsAgree(h, CommitmentParts(labels, o.salt, s), CommitmentParts(labels, q.salt, t));
    var x, y := AllBytes(CommitmentParts(labels, o.salt, s)), AllBytes(CommitmentParts(labels, q.salt, t));
    assert x[1] == y[1] && x[2] == y[2];
    WriteWellFormed(o.content, 0);
    WriteWellFormed(q.content, 0);
    Utf8Injective(s, t);
    FoldedDense(o.content);
    FoldedDense(q.content);
    SameTextIffSameData(o.content, q.content);
  }

  /** What was hashed for one opening: the stored bytes, and the salt with the content. */
  ghost function StoredHashed(scheme: SealingScheme, e: Envelope): Option<Bytes> {
    Encoding(CiphertextParts(scheme.labels, e))
  }

  ghost function ContentHashed(p: Primitives, scheme: SealingScheme, privateKey: Bytes, b: Binding,
                               e: Envelope): Option<Bytes> {
    var inner := Inside(p, scheme.labels, privateKey, b, e);
    if inner.Err? || Canonicalize(inner.value.content).None? then None
    else Encoding(CommitmentParts(scheme.labels, inner.value.salt, Canonicalize(inner.value.content).value))
  }

  /** A successful opening was checked against the newest receipt of its entry, digest of the stored bytes included. */
  lemma OpenChecksStored(p: Primitives, scheme: SealingScheme, privateKey: Bytes, b: Binding, e: Envelope,
                         v: VerifiedIndex)
    requires OpenedContent(p, scheme, privateKey, b, e, Some(v)).Ok?
    ensures v.scheme == scheme && v.scopeId == b.scopeId
    ensures b.entryId in v.newest && v.newest[b.entryId].revision == b.revision
    ensures Digest(p.sha256, CiphertextParts(scheme.labels, e)) == Some(v.newest[b.entryId].ciphertextSha256)
  {
    SameDigestExact(p.sha256, CiphertextParts(scheme.labels, e), v.newest[b.entryId].ciphertextSha256);
  }

  /** A successful opening recomputed both digests of the receipt it was checked against. */
  lemma OpenRecomputes(p: Primitives, scheme: SealingScheme, privateKey: Bytes, b: Binding, e: Envelope,
                       v: VerifiedIndex)
    requires OpenedContent(p, scheme, privateKey, b, e, Some(v)).Ok?
    ensures v.scheme == scheme && v.scopeId == b.scopeId
    ensures b.entryId in v.newest && v.newest[b.entryId].revision == b.revision
    ensures Digest(p.sha256, CiphertextParts(scheme.labels, e)) == Some(v.newest[b.entryId].ciphertextSha256)
    ensures var inner := Inside(p, scheme.labels, privateKey, b, e);
            && inner.Ok? && inner.value.content == OpenedContent(p, scheme, privateKey, b, e, Some(v)).value
            && Canonicalize(inner.value.content).Some?
            && Digest(p.sha256, CommitmentParts(scheme.labels, inner.value.salt,
                                                Canonicalize(inner.value.content).value))
               == Some(v.newest[b.entryId].contentCommitment)
  {
    OpenChecksStored(p, scheme, privateKey, b, e, v);
    var inner := Inside(p, scheme.labels, privateKey, b, e).value;
    var parts := CommitmentParts(scheme.labels, inner.salt, Canonicalize(inner.content).value);
    SameDigestExact(p.sha256, parts, v.newest[b.entryId].contentCommitment);
  }

  /** An opening: through which verified index, with which private key, of which envelope under which binding. */
  datatype Attempt = Attempt(v: VerifiedIndex, key: Bytes, b: Binding, e: Envelope)

  function Outcome(p: Primitives, scheme: SealingScheme, a: Attempt): Result<Json> {
    OpenedContent(p, scheme, a.key, a.b, a.e, Some(a.v))
  }

  /** Two successful openings are of the same revision and the same stored bytes, and gave the same data. */
  ghost predicate Agree(p: Primitives, scheme: SealingScheme, a: Attempt, d: Attempt)
    requires Outcome(p, scheme, a).Ok? && Outcome(p, scheme, d).Ok?
  {
    && a.b.revision == d.b.revision && SameStored(a.e, d.e)
    && SameData(Outcome(p, scheme, a).value, Outcome(p, scheme, d).value)
  }

  /** Two different strings hashed for two openings have one hash. */
  ghost predicate OpeningsCollide(p: Primitives, scheme: SealingScheme, a: Attempt, d: Attempt) {
    || Collision(p.sha256, StoredHashed(scheme, a.e), StoredHashed(scheme, d.e))
    || Collision(p.sha256, ContentHashed(p, scheme, a.key, a.b, a.e), ContentHashed(p, scheme, d.key, d.b, d.e))
  }

  /** Two openings against receipts with the same bytes are of the same bytes, and give the same data. */
  lemma SameReceiptSameContent(p: Primitives, scheme: SealingScheme, a: Attempt, d: Attempt)
    requires ParsesPlainData(p) && Outcome(p, scheme, a).Ok? && Outcome(p, scheme, d).Ok?
    requires a.b.entryId in a.v.newest && d.b.entryId in d.v.newest
    requires SameLink(a.v.newest[a.b.entryId], d.v.newest[d.b.entryId])
    ensures Agree(p, scheme, a, d) || OpeningsCollide(p, scheme, a, d)
  {
    if !OpeningsCollide(p, scheme, a, d) {
      OpenRecomputes(p, scheme, a.key, a.b, a.e, a.v);
      OpenRecomputes(p, scheme, d.key, d.b, d.e, d.v);
      SameReceiptDigests(p, scheme, a, d);
      StoredAgree(p.sha256, scheme.labels, a.e, d.e);
      OpenedIsDense(p, scheme, a.key, a.b, a.e, Some(a.v));
      OpenedIsDense(p, scheme, d.key, d.b, d.e, Some(d.v));
      ContentsAgree(p.sha256, scheme.labels, Inside(p, scheme.labels, a.key, a.b, a.e).value,
                    Inside(p, scheme.labels, d.key, d.b, d.e).value);
    }
  }

  /** Digests that an opening recomputed are the texts in its receipt, so the same bytes are the same texts. */
  lemma SameReceiptDigests(p: Primitives, scheme: SealingScheme, a: Attempt, d: Attempt)
    requires Outcome(p, scheme, a).Ok? && Outcome(p, scheme, d).Ok?
    requires a.b.entryId in a.v.newest && d.b.entryId in d.v.newest
    requires SameLink(a.v.newest[a.b.entryId], d.v.newest[d.b.entryId])
    ensures a.v.newest[a.b.entryId].ciphertextSha256 == d.v.newest[d.b.entryId].ciphertextSha256
    ensures a.v.newest[a.b.entryId].contentCommitment == d.v.newest[d.b.entryId].contentCommitment
  {
    OpenRecomputes(p, scheme, a.key, a.b, a.e, a.v);
    var inner := Inside(p, scheme.labels, a.key, a.b, a.e).value;
    var link := d.v.newest[d.b.entryId];
    SameDigestExact(p.sha256, CiphertextParts(scheme.labels, a.e), link.ciphertextSha256);
    SameDigestExact(p.sha256, CommitmentParts(scheme.labels, inner.salt, Canonicalize(inner.content).value),
                    link.contentCommitment);
  }

  /**
   * Whoever opens an entry, with whatever private key, from whatever copy of the receipts, gets the
   * same content: when both copies verify to one trusted head, none of the strings hashed collide,
   * and no other entry of the chain has an id with the same bytes.
   */
  lemma OpeningDetermined(p: Primitives, scheme: SealingScheme, a: Attempt, ls: seq<Link>, d: Attempt, ms: seq<Link>)
    requires ParsesPlainData(p) && a.b.entryId == d.b.entryId && a.v.head == d.v.head
    requires MadeFrom(p.sha256, a.v, ls) && MadeFrom(p.sha256, d.v, ms)
    requires Outcome(p, scheme, a).Ok? && Outcome(p, scheme, d).Ok?
    ensures
      || (Utf8(a.b.scopeId) == Utf8(d.b.scopeId) && Agree(p, scheme, a, d))
      || ChainsCollide(p.sha256, scheme.labels, a.v.scopeId, ls, d.v.scopeId, ms)
      || OpeningsCollide(p, scheme, a, d)
      || IdConfused(ls, a.b.entryId) || IdConfused(ms, a.b.entryId)
  {
    var entryId := a.b.entryId;
    OpenRecomputes(p, scheme, a.key, a.b, a.e, a.v);
    OpenRecomputes(p, scheme, d.key, d.b, d.e, d.v);
    HeadDeterminesChain(p.sha256, scheme.labels, a.v.scopeId, ls, d.v.scopeId, ms, a.v.head);
    if SameChain(a.v.scopeId, ls, d.v.scopeId, ms) && !IdConfused(ls, entryId) && !IdConfused(ms, entryId) {
      NewestAlike(ls, ms, entryId);
      NewestOf(a.v.newest, ls, entryId);
      NewestOf(d.v.newest, ms, entryId);
      SameReceiptSameContent(p, scheme, a, d);
    }
  }

  lemma NewestOf(newest: map<Text, Link>, links: seq<Link>, entryId: Text)
    requires Indexes(newest, links) && entryId in newest
    ensures LastFor(links, entryId) == Some(newest[entryId])
  {
    assert (if entryId in newest then Some(newest[entryId]) else None) == LastFor(links, entryId);
  }

  /** The two chains behind two openings, and how they would have to fail. */
  ghost predicate ChainsFail(p: Primitives, scheme: SealingScheme, a: Attempt, ls: seq<Link>, d: Attempt,
                             ms: seq<Link>) {
    && MadeFrom(p.sha256, a.v, ls) && MadeFrom(p.sha256, d.v, ms)
    && (ChainsCollide(p.sha256, scheme.labels, a.v.scopeId, ls, d.v.scopeId, ms)
        || IdConfused(ls, a.b.entryId) || IdConfused(ms, a.b.entryId))
  }

  /**
   * Handles of one registry, whoever holds them: two openings of an entry through handles with one
   * head agree, unless what was hashed collides or the entry's id is confused in a verified chain.
   */
  lemma HandlesAgree(registry: Registry, r: VerifiedReceipts, t: VerifiedReceipts, scheme: SealingScheme, a: Attempt,
                     d: Attempt)
    requires registry.Valid() && ParsesPlainData(registry.p) && r in registry.verified && t in registry.verified
    requires a.v == registry.verified[r] && d.v == registry.verified[t] && a.v.head == d.v.head
    requires a.b.entryId == d.b.entryId
    requires Outcome(registry.p, scheme, a).Ok? && Outcome(registry.p, scheme, d).Ok?
    ensures
      || (Utf8(a.b.scopeId) == Utf8(d.b.scopeId) && Agree(registry.p, scheme, a, d))
      || OpeningsCollide(registry.p, scheme, a, d)
      || exists ls, ms :: ChainsFail(registry.p, scheme, a, ls, d, ms)
  {
    EstablishedAgree(registry.p, scheme, a, d);
  }

  lemma EstablishedAgree(p: Primitives, scheme: SealingScheme, a: Attempt, d: Attempt)
    requires ParsesPlainData(p) && Established(p.sha256, a.v) && Established(p.sha256, d.v)
    requires a.b.entryId == d.b.entryId && a.v.head == d.v.head
    requires Outcome(p, scheme, a).Ok? && Outcome(p, scheme, d).Ok?
    ensures
      || (Utf8(a.b.scopeId) == Utf8(d.b.scopeId) && Agree(p, scheme, a, d))
      || OpeningsCollide(p, scheme, a, d)
      || exists ls, ms :: ChainsFail(p, scheme, a, ls, d, ms)
  {
    var ls :| MadeFrom(p.sha256, a.v, ls);
    var ms :| MadeFrom(p.sha256, d.v, ms);
    OpeningDetermined(p, scheme, a, ls, d, ms);
    assert ChainsFail(p, scheme, a, ls, d, ms) || Agree(p, scheme, a, d) || OpeningsCollide(p, scheme, a, d);
  }

  // ----- content refused once it is wrapped

  lemma {:induction false} SealableHigher(v: Json, depth: nat)
    requires Sealable(v, depth + 1)
    ensures Sealable(v, depth)
  {
    match v
    case Arr(items) =>
      forall i | 0 <= i < |items| ensures items[i].Hole? || Sealable(items[i], depth + 1) {
        if !items[i].Hole? { SealableHigher(items[i], depth + 1); }
      }
    case Obj(ms) =>
      forall i | 0 <= i < |ms| ensures Sealable(ms[i].value, depth + 1) { SealableHigher(ms[i].value, depth + 1); }
    case _ =>
  }

  lemma WrapperPrintedIff(saltText: Text, content: Json)
    requires Proper(content)
    ensures Canonicalize(Wrapper(saltText, content)).Some? <==> Sealable(content, 1)
  {
    var w := Wrapper(saltText, content);
    var ms := w.members;
    WrapperKeys(saltText, content);
    WriteIffSealable(w, 0);
    assert Sealable(w, 0) <==> Sealable(ms[0].value, 1) && Sealable(ms[1].value, 1) && Sealable(ms[2].value, 1);
  }

  /** Content goes one level deeper: a plaintext exists exactly when it fits there and is not too large. */
  lemma WrappedIff(p: Primitives, content: Json, salt: Bytes)
    requires Proper(content)
    ensures PlaintextOf(p, content, salt).Some? <==>
              && Sealable(content, 1)
              && Canonicalize(Wrapper(p.toBase64(salt), content)).Some?
              && |Utf8(Canonicalize(Wrapper(p.toBase64(salt), content)).value)| <= MAX_CONTENT_BYTES
  {
    WrapperPrintedIff(p.toBase64(salt), content);
    if Sealable(content, 1) { PrintedHigher(content); }
  }

  lemma PrintedHigher(content: Json)
    requires Proper(content) && Sealable(content, 1)
    ensures Canonicalize(content).Some?
  {
    SealableHigher(content, 0);
    WriteIffSealable(content, 0);
  }

  /** Arrays in arrays, `n` deep. */
  function Nest(n: nat): Json {
    if n == 0 then Null else Arr([Nest(n - 1)])
  }

  lemma {:induction false} NestSealable(n: nat, depth: nat)
    ensures Proper(Nest(n))
    ensures Sealable(Nest(n), depth) <==> n + depth <= MAX_DEPTH
  {
    if n > 0 {
      NestSealable(n - 1, depth + 1);
      assert Nest(n).items[0] == Nest(n - 1);
    }
  }

  /** Content as deep as the printer allows is printed, and then refused for the wrapper: the salt is already drawn. */
  lemma DeepestRefusedOnceWrapped(p: Primitives, salt: Bytes)
    ensures Canonicalize(Nest(MAX_DEPTH)).Some? && PlaintextOf(p, Nest(MAX_DEPTH), salt).None?
  {
    NestSealable(MAX_DEPTH, 0);
    NestSealable(MAX_DEPTH, 1);
    WriteIffSealable(Nest(MAX_DEPTH), 0);
    WrappedIff(p, Nest(MAX_DEPTH), salt);
  }

  // ----- the newest receipt

  /** The index's answer for an entry is its last link in the chain: none after it is for that entry. */
  lemma {:induction false} LastForIsLast(links: seq<Link>, e: Text)
    ensures LastFor(links, e).None? <==> forall i | 0 <= i < |links| :: links[i].entryId != e
    ensures LastFor(links, e).Some? ==>
              exists i :: 0 <= i < |links| && links[i] == LastFor(links, e).value && links[i].entryId == e
                && forall j | i < j < |links| :: links[j].entryId != e
  {
    if links != [] {
      var n := |links| - 1;
      if links[n].entryId != e {
        LastForIsLast(links[..n], e);
        if LastFor(links, e).Some? {
          var i :| 0 <= i < n && links[..n][i] == LastFor(links[..n], e).value && links[..n][i].entryId == e
            && forall j | i < j < n :: links[..n][j].entryId != e;
          forall j | i < j < |links| ensures links[j].entryId != e {
            if j < n { assert links[..n][j].entryId != e; }
          }
          assert links[i] == LastFor(links, e).value;
        }
      }
    }
  }
}
