/**
 * Sealing content in an envelope, and opening it against verified receipts. The hash and the
 * ciphers are parameters; of them only the laws in `Lawful` and `KeyPair` are ever used.
 */
module Sealing {
  import opened Texts
  import opened Utf8Encoding
  import opened Canonical
  import opened CanonicalProofs
  import opened LengthPrefix
  import opened Receipts

  datatype Failure =
    | KeyUnavailable
    | Tampered
    | CommitmentMismatch
    | ReceiptChainBroken
    | ReceiptMismatch
    | InvalidContent
    | InvalidConfiguration
    | RangeError
    | TypeError

  datatype Result<+T> = Ok(value: T) | Err(failure: Failure)

  /** What `node:crypto`, `Buffer` and `JSON` supply. */
  datatype Primitives = Primitives(
    sha256: Hash,
    aeadEncrypt: (Bytes, Bytes, Bytes, Bytes) -> (Bytes, Bytes),
    aeadDecrypt: (Bytes, Bytes, Bytes, Bytes, Bytes) -> Option<Bytes>,
    wrap: (Text, Bytes, Bytes) -> Option<Bytes>,
    unwrap: (Bytes, Bytes) -> Option<Bytes>,
    toBase64: Bytes -> Text,
    fromBase64: Text -> Bytes,
    fromUtf8: Bytes -> Text,
    parse: Text -> Option<Json>)

  /** Decryption undoes encryption, decoding undoes encoding, parsing undoes the canonical printer. */
  ghost predicate Lawful(p: Primitives) {
    && (forall key, nonce, aad, plain ::
          var sealed := p.aeadEncrypt(key, nonce, aad, plain);
          p.aeadDecrypt(key, nonce, aad, sealed.0, sealed.1) == Some(plain))
    && (forall b :: p.fromBase64(p.toBase64(b)) == b)
    && (forall t | WellFormed(t) :: p.fromUtf8(Utf8(t)) == t)
    && (forall v | Proper(v) && Dense(v) && Canonicalize(v).Some? :: ReadsBack(v, p.parse(Canonicalize(v).value)))
    && ParsesPlainData(p)
  }

  /** What is parsed from text is plain data: distinct keys, no unassigned slot. */
  ghost predicate ParsesPlainData(p: Primitives) {
    forall t | p.parse(t).Some? :: Proper(p.parse(t).value) && Dense(p.parse(t).value)
  }

  /** The private half unwraps what the public half wrapped, whatever seed the padding took. */
  ghost predicate KeyPair(p: Primitives, publicKey: Text, privateKey: Bytes) {
    forall seed, key | p.wrap(publicKey, seed, key).Some? ::
      p.unwrap(privateKey, p.wrap(publicKey, seed, key).value) == Some(key)
  }

  datatype Binding = Binding(scopeId: Text, entryId: Text, submitterId: Text, revision: int, keyId: Text)

  datatype Envelope = Envelope(
    version: int, keyId: Text, nonce: Bytes, ciphertext: Bytes, tag: Bytes, wrappedContentKey: Bytes,
    contentCommitment: Text, ciphertextSha256: Text)

  const SEAL_VERSION := 1
  const MAX_CONTENT_BYTES := 256 * 1024
  const MAX_LABEL_LENGTH := 128

  const V_KEY: Text := [0x76]
  const SALT_KEY: Text := [0x73, 0x61, 0x6c, 0x74]
  const CONTENT_KEY: Text := [0x63, 0x6f, 0x6e, 0x74, 0x65, 0x6e, 0x74]

  // ----- the structures hashed and authenticated

  function BindingParts(labels: Labels, b: Binding): seq<Part> {
    [T(labels.associatedData), T(b.scopeId), T(b.entryId), T(b.submitterId), T(IntText(b.revision)), T(b.keyId)]
  }

  function CommitmentParts(labels: Labels, salt: Bytes, canonical: Text): seq<Part> {
    [T(labels.commitment), B(salt), T(canonical)]
  }

  function CiphertextParts(labels: Labels, e: Envelope): seq<Part> {
    [T(labels.ciphertext), T(e.keyId), B(e.nonce), B(e.ciphertext), B(e.tag), B(e.wrappedContentKey)]
  }

  // ----- sealing

  function Wrapper(saltText: Text, content: Json): Json {
    Obj([Member(V_KEY, Num(SEAL_VERSION)), Member(SALT_KEY, Str(saltText)), Member(CONTENT_KEY, content)])
  }

  /** The plaintext to encrypt, or nothing: content that cannot be written, or too much of it. */
  function PlaintextOf(p: Primitives, content: Json, salt: Bytes): Option<Bytes> {
    var text := Canonicalize(Wrapper(p.toBase64(salt), content));
    if Canonicalize(content).None? || text.None? || |Utf8(text.value)| > MAX_CONTENT_BYTES then None
    else Some(Utf8(text.value))
  }

  /** The envelope made from a plaintext with the random values drawn for it. */
  function Encrypted(p: Primitives, labels: Labels, publicKey: Text, b: Binding, canonical: Text, plaintext: Bytes,
                     salt: Bytes, contentKey: Bytes, nonce: Bytes, seed: Bytes): Result<Envelope>
  {
    match Encoding(BindingParts(labels, b))
    case None => Err(RangeError)
    case Some(aad) =>
      var (ciphertext, tag) := p.aeadEncrypt(contentKey, nonce, aad, plaintext);
      match p.wrap(publicKey, seed, contentKey)
      case None => Err(KeyUnavailable)
      case Some(wrapped) =>
        var bare := Envelope(SEAL_VERSION, b.keyId, nonce, ciphertext, tag, wrapped, [], []);
        var commitment := Digest(p.sha256, CommitmentParts(labels, salt, canonical));
        var digest := Digest(p.sha256, CiphertextParts(labels, bare));
        if commitment.None? || digest.None? then Err(RangeError)
        else Ok(bare.(contentCommitment := commitment.value, ciphertextSha256 := digest.value))
  }

  function Sealed(p: Primitives, labels: Labels, publicKey: Text, b: Binding, content: Json,
                  salt: Bytes, contentKey: Bytes, nonce: Bytes, seed: Bytes): Result<Envelope>
  {
    match PlaintextOf(p, content, salt)
    case None => Err(InvalidContent)
    case Some(plaintext) =>
      Encrypted(p, labels, publicKey, b, Canonicalize(content).value, plaintext, salt, contentKey, nonce, seed)
  }

  ghost predicate Wiped(a: array<Byte>)
    reads a
  {
    forall i | 0 <= i < a.Length :: a[i] == 0
  }

  method Fill(a: array<Byte>)
    modifies a
    ensures Wiped(a)
  {
    for i := 0 to a.Length
      invariant forall j | 0 <= j < i :: a[j] == 0
    {
      a[i] := 0;
    }
  }

  method ToBuffer(bytes: Bytes) returns (a: array<Byte>)
    ensures fresh(a) && a[..] == bytes
  {
    a := new Byte[|bytes|];
    for i := 0 to |bytes|
      invariant a[..i] == bytes[..i]
    {
      a[i] := bytes[i];
    }
  }

  /**
   * `seal`. The salt and the content key are the random buffers drawn for it; they and the
   * plaintext are zeroed in place once the envelope is made, or encryption failed. Content
   * refused before encryption leaves the buffers as they are.
   */
  method Seal(p: Primitives, labels: Labels, publicKey: Text, seed: Bytes, b: Binding, content: Json,
              salt: array<Byte>, contentKey: array<Byte>, nonce: Bytes)
    returns (r: Result<Envelope>, plaintext: array?<Byte>)
    requires salt != contentKey
    modifies salt, contentKey
    ensures r == Sealed(p, labels, publicKey, b, content, old(salt[..]), old(contentKey[..]), nonce, seed)
    ensures plaintext != null ==> fresh(plaintext)
    ensures if PlaintextOf(p, content, old(salt[..])).Some?
            then plaintext != null && Wiped(plaintext) && Wiped(salt) && Wiped(contentKey)
            else salt[..] == old(salt[..]) && contentKey[..] == old(contentKey[..])
  {
    plaintext := null;
    var canonical := Canonicalize(content);
    if canonical.None? {
      return Err(InvalidContent), null;
    }
    var text := Canonicalize(Wrapper(p.toBase64(salt[..]), content));
    if text.None? {
      return Err(InvalidContent), null;
    }
    plaintext := ToBuffer(Utf8(text.value));
    if plaintext.Length > MAX_CONTENT_BYTES {
      return Err(InvalidContent), plaintext;
    }
    r := Encrypted(p, labels, publicKey, b, canonical.value, plaintext[..], salt[..], contentKey[..], nonce, seed);
    Fill(contentKey);
    Fill(plaintext);
    Fill(salt);
  }

  // ----- opening

  /** `value[key]`, undefined where there is none. */
  function Field(v: Json, key: Text): Json {
    if v.Obj? && key in Keys(v.members) then Lookup(v.members, key) else Other
  }

  /** The record kept of one successful verification: under what, for whom, up to where, and the last link per entry. */
  datatype VerifiedIndex = VerifiedIndex(scheme: SealingScheme, scopeId: Text, head: Text, newest: map<Text, Link>)

  /** Every check made before anything is decrypted. */
  function ReceiptFor(p: Primitives, scheme: SealingScheme, b: Binding, e: Envelope, verified: Option<VerifiedIndex>)
    : Result<Link>
  {
    if e.version != SEAL_VERSION || e.keyId != b.keyId then Err(Tampered)
    else if verified.None? || verified.value.scheme != scheme || verified.value.scopeId != b.scopeId then
      Err(ReceiptChainBroken)
    else if b.entryId !in verified.value.newest || verified.value.newest[b.entryId].revision != b.revision then
      Err(ReceiptMismatch)
    else
      var link := verified.value.newest[b.entryId];
      var digest := Digest(p.sha256, CiphertextParts(scheme.labels, e));
      if digest.None? then Err(RangeError)
      else if !SameDigest(digest.value, link.ciphertextSha256)
              || !SameDigest(e.ciphertextSha256, link.ciphertextSha256)
              || !SameDigest(e.contentCommitment, link.contentCommitment) then Err(ReceiptMismatch)
      else Ok(link)
  }

  /** The plaintext bytes, given the unwrapped key. */
  function Decrypted(p: Primitives, labels: Labels, contentKey: Bytes, b: Binding, e: Envelope): Result<Bytes> {
    match Encoding(BindingParts(labels, b))
    case None => Err(RangeError)
    case Some(aad) =>
      match p.aeadDecrypt(contentKey, e.nonce, aad, e.ciphertext, e.tag)
      case None => Err(Tampered)
      case Some(plaintext) => Ok(plaintext)
  }

  datatype Opened = Opened(salt: Bytes, content: Json)

  /** The salt and the content a plaintext states. */
  function Unpacked(p: Primitives, plaintext: Bytes): Result<Opened> {
    match p.parse(p.fromUtf8(plaintext))
    case None => Err(Tampered)
    case Some(parsed) =>
      if parsed.Null? then Err(TypeError)
      else if Field(parsed, V_KEY) != Num(SEAL_VERSION) || !Field(parsed, SALT_KEY).Str? then Err(Tampered)
      else Ok(Opened(p.fromBase64(Field(parsed, SALT_KEY).s), Field(parsed, CONTENT_KEY)))
  }

  /** The commitment recomputed from what was decrypted, against the receipted one. */
  function Committed(p: Primitives, labels: Labels, inner: Opened, link: Link): Result<Json> {
    var canonical := Canonicalize(inner.content);
    if canonical.None? then Err(InvalidContent)
    else
      var digest := Digest(p.sha256, CommitmentParts(labels, inner.salt, canonical.value));
      if digest.None? then Err(RangeError)
      else if !SameDigest(digest.value, link.contentCommitment) then Err(CommitmentMismatch)
      else Ok(inner.content)
  }

  /** What an envelope holds once its key is unwrapped, before it is compared with its receipt. */
  function Inside(p: Primitives, labels: Labels, privateKey: Bytes, b: Binding, e: Envelope): Result<Opened> {
    match p.unwrap(privateKey, e.wrappedContentKey)
    case None => Err(Tampered)
    case Some(contentKey) =>
      match Decrypted(p, labels, contentKey, b, e)
      case Err(f) => Err(f)
      case Ok(plaintext) => Unpacked(p, plaintext)
  }

  function OpenedContent(p: Primitives, scheme: SealingScheme, privateKey: Bytes, b: Binding, e: Envelope,
                         verified: Option<VerifiedIndex>): Result<Json>
  {
    match ReceiptFor(p, scheme, b, e, verified)
    case Err(f) => Err(f)
    case Ok(link) =>
      match Inside(p, scheme.labels, privateKey, b, e)
      case Err(f) => Err(f)
      case Ok(inner) => Committed(p, scheme.labels, inner, link)
  }

  // ----- the scheme, and the module's record of verifications

  function LabelValues(l: Labels): seq<Text> {
    [l.associatedData, l.commitment, l.ciphertext, l.receiptGenesis, l.receipt]
  }

  /** Five labels, none empty or too long, no two the same. */
  ghost predicate LabelsAccepted(l: Labels) {
    && (forall i | 0 <= i < 5 :: 0 < |LabelValues(l)[i]| <= MAX_LABEL_LENGTH)
    && Distinct(LabelValues(l))
  }

  class SealingScheme {
    const labels: Labels

    constructor (labels: Labels)
      requires LabelsAccepted(labels)
      ensures this.labels == labels
    {
      this.labels := labels;
    }
  }

  /** A list has as many members as its set exactly when no two are the same. */
  lemma {:induction false} DistinctIffSize(values: seq<Text>)
    ensures |set value | value in values| <= |values|
    ensures |set value | value in values| == |values| <==> Distinct(values)
  {
    if values != [] {
      var rest := values[1..];
      DistinctIffSize(rest);
      var all, fewer := set value | value in values, set value | value in rest;
      assert all == fewer + {values[0]};
      assert values[0] in fewer <==> exists j :: 0 <= j < |rest| && rest[j] == values[0];
      DistinctSplit(values);
    }
  }

  lemma DistinctSplit(values: seq<Text>)
    requires values != []
    ensures Distinct(values) <==> values[0] !in values[1..] && Distinct(values[1..])
  {
    var rest := values[1..];
    if values[0] !in rest && Distinct(rest) {
      forall i, j | 0 <= i < j < |values| ensures values[i] != values[j] {
        assert values[j] == rest[j - 1] && (i > 0 ==> values[i] == rest[i - 1]);
      }
    }
    if Distinct(values) {
      forall i, j | 0 <= i < j < |rest| ensures rest[i] != rest[j] {
        assert rest[i] == values[i + 1] && rest[j] == values[j + 1];
      }
    }
  }

  /** `new SealingScheme(labels)`, which throws on labels it does not accept. */
  method NewScheme(labels: Labels) returns (r: Result<SealingScheme>)
    ensures r.Ok? <==> LabelsAccepted(labels)
    ensures r.Ok? ==> fresh(r.value) && r.value.labels == labels
    ensures r.Err? ==> r.failure == InvalidConfiguration
  {
    var values := LabelValues(labels);
    var distinct := set value | value in values;
    DistinctIffSize(values);
    if (exists i | 0 <= i < |values| :: |values[i]| == 0 || |values[i]| > MAX_LABEL_LENGTH) || |distinct| != |values| {
      return Err(InvalidConfiguration);
    }
    var scheme := new SealingScheme(labels);
    r := Ok(scheme);
  }

  /** A handle with nothing in it: only the registry knows which verification it came from. */
  class VerifiedReceipts {
    constructor () {}
  }

  /** The index lists each entry's newest link of a chain. */
  ghost predicate Indexes(newest: map<Text, Link>, links: seq<Link>) {
    forall e :: (if e in newest then Some(newest[e]) else None) == LastFor(links, e)
  }

  /** The chain is sound under the scheme and ends at the head, and the index was made from it. */
  ghost predicate MadeFrom(h: Hash, v: VerifiedIndex, links: seq<Link>) {
    ChainTo(h, v.scheme.labels, v.scopeId, links, v.head) && Indexes(v.newest, links)
  }

  ghost predicate Established(h: Hash, v: VerifiedIndex) {
    exists links :: MadeFrom(h, v, links)
  }

  /** The module-private `VERIFIED` map. */
  class Registry {
    const p: Primitives
    var verified: map<VerifiedReceipts, VerifiedIndex>

    /** Nothing is in the registry but what a verification found. */
    ghost predicate Valid()
      reads this
    {
      forall r | r in verified :: Established(p.sha256, verified[r])
    }

    constructor (p: Primitives)
      ensures Valid() && this.p == p && verified == map[]
    {
      this.p := p;
      verified := map[];
    }

    /** `verifyReceipts`: a fresh handle for a chain that verifies, and nothing otherwise. */
    method VerifyReceipts(scheme: SealingScheme, scopeId: Text, links: seq<Link>, head: Text)
      returns (r: Result<VerifiedReceipts>)
      requires Valid()
      modifies this`verified
      ensures Valid()
      ensures r.Ok? <==> ChainTo(p.sha256, scheme.labels, scopeId, links, head)
      ensures r.Ok? ==>
                && fresh(r.value) && verified.Keys == old(verified).Keys + {r.value}
                && verified[r.value].scheme == scheme && verified[r.value].scopeId == scopeId
                && verified[r.value].head == head && Indexes(verified[r.value].newest, links)
                && forall x | x in old(verified) :: x in verified && verified[x] == old(verified)[x]
      ensures r.Err? ==> verified == old(verified)
      ensures r.Err? ==>
                r.failure == if Unencodable(p.sha256, scheme.labels, scopeId, links) then RangeError
                             else ReceiptChainBroken
    {
      var verdict := VerifyReceiptChain(p.sha256, scheme.labels, scopeId, links, head);
      if verdict.Threw? {
        return Err(RangeError);
      }
      if !verdict.Verified? {
        return Err(ReceiptChainBroken);
      }
      var newest := NewestIndex(links);
      var handle := new VerifiedReceipts();
      var index := VerifiedIndex(scheme, scopeId, head, newest);
      assert MadeFrom(p.sha256, index, links);
      verified := verified[handle := index];
      r := Ok(handle);
    }

    /** `trustedReceiptsOf`: the evidence must also name the scope's own genesis. */
    method TrustedReceiptsOf(scheme: SealingScheme, scopeId: Text, genesis: Text, links: seq<Link>, head: Text)
      returns (r: Result<VerifiedReceipts>)
      requires Valid()
      modifies this`verified
      ensures Valid()
      ensures r.Ok? <==>
              GenesisReceipt(p.sha256, scheme.labels, scopeId) == Some(genesis)
                  && ChainTo(p.sha256, scheme.labels, scopeId, links, head)
      ensures r.Ok? ==>
                && fresh(r.value) && r.value in verified
                && verified[r.value].scheme == scheme && verified[r.value].scopeId == scopeId
                && verified[r.value].head == head && Indexes(verified[r.value].newest, links)
      ensures r.Err? ==> verified == old(verified)
      ensures r.Err? && GenesisReceipt(p.sha256, scheme.labels, scopeId) in {None, Some(genesis)} ==>
                r.failure == if Unencodable(p.sha256, scheme.labels, scopeId, links) then RangeError
                             else ReceiptChainBroken
      ensures r.Err? && GenesisReceipt(p.sha256, scheme.labels, scopeId) !in {None, Some(genesis)} ==>
                r.failure == ReceiptChainBroken
    {
      var expected := GenesisReceipt(p.sha256, scheme.labels, scopeId);
      if expected.None? {
        return Err(RangeError);
      }
      if genesis != expected.value {
        return Err(ReceiptChainBroken);
      }
      r := VerifyReceipts(scheme, scopeId, links, head);
    }

    /**
     * `open`. The content key, the plaintext and the salt are buffers of this call: the first two
     * are zeroed whatever happens, the salt once its commitment was computed.
     */
    method Open(scheme: SealingScheme, privateKey: Bytes, b: Binding, e: Envelope, receipts: VerifiedReceipts)
      returns (r: Result<Json>, contentKey: array?<Byte>, plaintext: array?<Byte>, salt: array?<Byte>)
      ensures r == OpenedContent(p, scheme, privateKey, b, e,
                                 if receipts in verified then Some(verified[receipts]) else None)
      ensures contentKey != null ==> fresh(contentKey) && Wiped(contentKey)
      ensures plaintext != null ==> fresh(plaintext) && Wiped(plaintext)
      ensures salt != null && (r.Ok? || r == Err(CommitmentMismatch)) ==> fresh(salt) && Wiped(salt)
    {
      contentKey, plaintext, salt := null, null, null;
      var index := if receipts in verified then Some(verified[receipts]) else None;
      var link := ReceiptFor(p, scheme, b, e, index);
      if link.Err? {
        return Err(link.failure), null, null, null;
      }
      var unwrapped := p.unwrap(privateKey, e.wrappedContentKey);
      if unwrapped.None? {
        return Err(Tampered), null, null, null;
      }
      contentKey := ToBuffer(unwrapped.value);
      var decrypted := Decrypted(p, scheme.labels, contentKey[..], b, e);
      if decrypted.Err? {
        r := Err(decrypted.failure);
      } else {
        plaintext := ToBuffer(decrypted.value);
        var inner := Unpacked(p, plaintext[..]);
        if inner.Err? {
          r := Err(inner.failure);
        } else {
          salt := ToBuffer(inner.value.salt);
          r := Committed(p, scheme.labels, Opened(salt[..], inner.value.content), link.value);
          if r.Ok? || r == Err(CommitmentMismatch) {
            Fill(salt);
          }
        }
        Fill(plaintext);
      }
      Fill(contentKey);
    }
  }
}
