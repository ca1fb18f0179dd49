/** The receipt chain of a scope: each receipt a hash of its link and of the receipt before it. */
module Receipts {
  import opened Texts
  import opened Utf8Encoding
  import opened JsonStrings
  import opened LengthPrefix

  /** One label per kind of structure, written before its fields. */
  datatype Labels = Labels(
    associatedData: Text, commitment: Text, ciphertext: Text, receiptGenesis: Text, receipt: Text)

  /**
   * One receipt: what it commits to, and the receipt issued. The instant it was received is
   * held as the ISO text that is hashed.
   */
  datatype Link = Link(
    entryId: Text, revision: int, receivedAt: Text,
    ciphertextSha256: Text, contentCommitment: Text, receipt: Text)

  /** The hash function: any function from bytes to bytes. */
  type Hash = Bytes -> Bytes

  // ----- digests

  function Hex(b: Bytes): Text {
    if b == [] then [] else [HexDigit(b[0] / 0x10), HexDigit(b[0] % 0x10)] + Hex(b[1..])
  }

  lemma {:induction false} HexAscii(b: Bytes)
    ensures Ascii(Hex(b))
  {
    if b != [] { HexAscii(b[1..]); }
  }

  lemma HexDigitInjective(m: int, n: int)
    requires 0 <= m < 16 && 0 <= n < 16 && HexDigit(m) == HexDigit(n)
    ensures m == n
  {
  }

  lemma {:induction false} HexInjective(a: Bytes, b: Bytes)
    requires Hex(a) == Hex(b)
    ensures a == b
  {
    if a != [] && b != [] {
      assert Hex(a)[0] == Hex(b)[0] && Hex(a)[1] == Hex(b)[1];
      HexDigitInjective(a[0] / 0x10, b[0] / 0x10);
      HexDigitInjective(a[0] % 0x10, b[0] % 0x10);
      assert Hex(a)[2..] == Hex(a[1..]) && Hex(b)[2..] == Hex(b[1..]);
      HexInjective(a[1..], b[1..]);
      assert a == [a[0]] + a[1..] && b == [b[0]] + b[1..];
    }
  }

  /** `sha256Hex(lengthPrefixed(...))`; nothing where the encoding throws. */
  function Digest(h: Hash, parts: seq<Part>): Option<Text> {
    match Encoding(parts)
    case None => None
    case Some(bytes) => Some(Hex(h(bytes)))
  }

  /** `sameDigest`: the two texts as UTF-8, byte for byte. */
  predicate SameDigest(a: Text, b: Text) {
    Utf8(a) == Utf8(b)
  }

  /** A text that has a digest's bytes is that digest. */
  lemma SameDigestExact(h: Hash, parts: seq<Part>, b: Text)
    requires Digest(h, parts).Some? && SameDigest(Digest(h, parts).value, b)
    ensures Digest(h, parts) == Some(b)
  {
    var d := Digest(h, parts).value;
    HexAscii(h(Encoding(parts).value));
    AsciiBytesDetermine(b, d);
  }

  // ----- the chain

  function GenesisParts(labels: Labels, scopeId: Text): seq<Part> {
    [T(labels.receiptGenesis), T(scopeId)]
  }

  function LinkParts(labels: Labels, scopeId: Text, previous: Text, link: Link): seq<Part> {
    [T(labels.receipt), T(scopeId), T(previous), T(link.entryId), T(IntText(link.revision)),
     T(link.receivedAt), T(link.ciphertextSha256), T(link.contentCommitment)]
  }

  function GenesisReceipt(h: Hash, labels: Labels, scopeId: Text): Option<Text> {
    Digest(h, GenesisParts(labels, scopeId))
  }

  function NextReceipt(h: Hash, labels: Labels, scopeId: Text, previous: Text, link: Link): Option<Text> {
    Digest(h, LinkParts(labels, scopeId, previous, link))
  }

  /** The receipt that link `i` follows: the one before it, or the scope's genesis. */
  function PreviousReceipt(h: Hash, labels: Labels, scopeId: Text, links: seq<Link>, i: nat): Option<Text>
    requires i <= |links|
  {
    if i == 0 then GenesisReceipt(h, labels, scopeId) else Some(links[i - 1].receipt)
  }

  ghost predicate LinkFollows(h: Hash, labels: Labels, scopeId: Text, links: seq<Link>, i: nat)
    requires i < |links|
  {
    var previous := PreviousReceipt(h, labels, scopeId, links, i);
    && previous.Some?
    && NextReceipt(h, labels, scopeId, previous.value, links[i]) == Some(links[i].receipt)
  }

  /** The first `n` links each follow from the one before. */
  ghost predicate Sound(h: Hash, labels: Labels, scopeId: Text, links: seq<Link>, n: nat)
    requires n <= |links|
  {
    n > 0 ==> Sound(h, labels, scopeId, links, n - 1) && LinkFollows(h, labels, scopeId, links, n - 1)
  }

  lemma {:induction false} SoundGives(h: Hash, labels: Labels, scopeId: Text, links: seq<Link>, n: nat, i: nat)
    requires i < n <= |links| && Sound(h, labels, scopeId, links, n)
    ensures LinkFollows(h, labels, scopeId, links, i)
  {
    if i < n - 1 { SoundGives(h, labels, scopeId, links, n - 1, i); }
  }

  lemma {:induction false} FollowsGive(h: Hash, labels: Labels, scopeId: Text, links: seq<Link>, n: nat)
    requires n <= |links| && forall i | 0 <= i < n :: LinkFollows(h, labels, scopeId, links, i)
    ensures Sound(h, labels, scopeId, links, n)
  {
    if n > 0 { FollowsGive(h, labels, scopeId, links, n - 1); }
  }

  lemma SoundAt(h: Hash, labels: Labels, scopeId: Text, links: seq<Link>, n: nat)
    requires n <= |links|
    ensures Sound(h, labels, scopeId, links, n) <==> forall i | 0 <= i < n :: LinkFollows(h, labels, scopeId, links, i)
  {
    if Sound(h, labels, scopeId, links, n) {
      forall i | 0 <= i < n ensures LinkFollows(h, labels, scopeId, links, i) {
        SoundGives(h, labels, scopeId, links, n, i);
      }
    } else if forall i | 0 <= i < n :: LinkFollows(h, labels, scopeId, links, i) {
      FollowsGive(h, labels, scopeId, links, n);
    }
  }

  /** A sound chain that ends at `head`. */
  ghost predicate ChainTo(h: Hash, labels: Labels, scopeId: Text, links: seq<Link>, head: Text) {
    && Sound(h, labels, scopeId, links, |links|)
    && GenesisReceipt(h, labels, scopeId).Some?
    && SameDigest(PreviousReceipt(h, labels, scopeId, links, |links|).value, head)
  }

  /** What the loop tests for a link is whether it follows from the one before. */
  lemma TestedIsFollows(h: Hash, labels: Labels, scopeId: Text, links: seq<Link>, i: nat, previous: Text)
    requires i < |links| && PreviousReceipt(h, labels, scopeId, links, i) == Some(previous)
    ensures var next := NextReceipt(h, labels, scopeId, previous, links[i]);
            LinkFollows(h, labels, scopeId, links, i) <==> next.Some? && SameDigest(next.value, links[i].receipt)
  {
    var parts := LinkParts(labels, scopeId, previous, links[i]);
    if Digest(h, parts).Some? && SameDigest(Digest(h, parts).value, links[i].receipt) {
      SameDigestExact(h, parts, links[i].receipt);
    }
  }

  /** Something to hash does not fit the encoding: the genesis, or a link that a sound chain comes to. */
  ghost predicate Unencodable(h: Hash, labels: Labels, scopeId: Text, links: seq<Link>) {
    || GenesisReceipt(h, labels, scopeId).None?
    || exists i :: UnencodableAt(h, labels, scopeId, links, i)
  }

  ghost predicate UnencodableAt(h: Hash, labels: Labels, scopeId: Text, links: seq<Link>, i: int) {
    && 0 <= i < |links| && Sound(h, labels, scopeId, links, i)
    && var previous := PreviousReceipt(h, labels, scopeId, links, i);
       previous.Some? && NextReceipt(h, labels, scopeId, previous.value, links[i]).None?
  }

  /** Every link of a sound chain was encoded. */
  lemma SoundEncodes(h: Hash, labels: Labels, scopeId: Text, links: seq<Link>, n: nat)
    requires n <= |links| && Sound(h, labels, scopeId, links, n)
    ensures forall i | 0 <= i < n :: !UnencodableAt(h, labels, scopeId, links, i)
  {
    forall i | 0 <= i < n ensures !UnencodableAt(h, labels, scopeId, links, i) {
      SoundGives(h, labels, scopeId, links, n, i);
    }
  }

  /** Past a link that does not follow, nothing is looked at. */
  lemma BrokenEncodes(h: Hash, labels: Labels, scopeId: Text, links: seq<Link>, n: nat)
    requires n < |links| && Sound(h, labels, scopeId, links, n) && GenesisReceipt(h, labels, scopeId).Some?
    requires !LinkFollows(h, labels, scopeId, links, n) && !UnencodableAt(h, labels, scopeId, links, n)
    ensures !Unencodable(h, labels, scopeId, links)
  {
    SoundEncodes(h, labels, scopeId, links, n);
    forall i | n < i < |links| ensures !UnencodableAt(h, labels, scopeId, links, i) {
      if Sound(h, labels, scopeId, links, i) { SoundGives(h, labels, scopeId, links, i, n); }
    }
  }

  datatype Verdict = Verified | LinkBroken(at: nat) | HeadMismatch | Threw

  /** `verifyReceiptChain`. */
  method VerifyReceiptChain(h: Hash, labels: Labels, scopeId: Text, links: seq<Link>, trustedHead: Text)
    returns (verdict: Verdict)
    ensures verdict == Verified <==> ChainTo(h, labels, scopeId, links, trustedHead)
    ensures verdict.LinkBroken? ==>
              && verdict.at < |links|
              && Sound(h, labels, scopeId, links, verdict.at)
              && !LinkFollows(h, labels, scopeId, links, verdict.at)
    ensures verdict.HeadMismatch? ==> Sound(h, labels, scopeId, links, |links|)
    ensures verdict == Threw <==> Unencodable(h, labels, scopeId, links)
  {
    var genesis := GenesisReceipt(h, labels, scopeId);
    if genesis.None? {
      return Threw;
    }
    var previous := genesis.value;
    for i := 0 to |links|
      invariant PreviousReceipt(h, labels, scopeId, links, i) == Some(previous)
      invariant Sound(h, labels, scopeId, links, i)
    {
      var next := NextReceipt(h, labels, scopeId, previous, links[i]);
      TestedIsFollows(h, labels, scopeId, links, i, previous);
      SoundAt(h, labels, scopeId, links, |links|);
      if next.None? {
        assert UnencodableAt(h, labels, scopeId, links, i);
        return Threw;
      }
      if !SameDigest(next.value, links[i].receipt) {
        BrokenEncodes(h, labels, scopeId, links, i);
        return LinkBroken(i);
      }
      previous := links[i].receipt;
    }
    SoundEncodes(h, labels, scopeId, links, |links|);
    verdict := if SameDigest(previous, trustedHead) then Verified else HeadMismatch;
  }

  // ----- collisions

  /** The bytes hashed for step `i` of a chain: the genesis first, then each link. */
  function HashedAt(h: Hash, labels: Labels, scopeId: Text, links: seq<Link>, i: nat): Option<Bytes>
    requires i <= |links|
  {
    if i == 0 then Encoding(GenesisParts(labels, scopeId))
    else
      var previous := PreviousReceipt(h, labels, scopeId, links, i - 1);
      if previous.None? then None else Encoding(LinkParts(labels, scopeId, previous.value, links[i - 1]))
  }

  ghost predicate Collision(h: Hash, x: Option<Bytes>, y: Option<Bytes>) {
    x.Some? && y.Some? && x != y && h(x.value) == h(y.value)
  }

  /** Two different byte strings with one hash, one hashed for each of two chains. */
  ghost predicate ChainsCollide(h: Hash, labels: Labels, s: Text, ls: seq<Link>, t: Text, ms: seq<Link>) {
    exists i, j :: 0 <= i <= |ls| && 0 <= j <= |ms|
      && Collision(h, HashedAt(h, labels, s, ls, i), HashedAt(h, labels, t, ms, j))
  }

  // ----- uniqueness

  ghost predicate SameLink(a: Link, b: Link) {
    && Utf8(a.entryId) == Utf8(b.entryId) && a.revision == b.revision
    && Utf8(a.receivedAt) == Utf8(b.receivedAt) && Utf8(a.ciphertextSha256) == Utf8(b.ciphertextSha256)
    && Utf8(a.contentCommitment) == Utf8(b.contentCommitment) && a.receipt == b.receipt
  }

  /** The same scope and the same links, byte for byte. */
  ghost predicate SameChain(s: Text, ls: seq<Link>, t: Text, ms: seq<Link>) {
    && Utf8(s) == Utf8(t)
    && |ls| == |ms|
    && forall i | 0 <= i < |ls| :: SameLink(ls[i], ms[i])
  }

  lemma {:induction false} IntTextAscii(n: int)
    ensures Ascii(IntText(n))
  {
    var digits := NatText(if n < 0 then -n else n);
    assert forall i | 0 <= i < |digits| :: IsDigit(digits[i]);
  }

  lemma IntTextBytesInjective(m: int, n: int)
    requires Utf8(IntText(m)) == Utf8(IntText(n))
    ensures m == n
  {
    IntTextAscii(n);
    AsciiBytesDetermine(IntText(m), IntText(n));
    IntTextInjective(m, n);
  }

  lemma LinkPartsBytes(labels: Labels, s: Text, previous: Text, a: Link)
    ensures AllBytes(LinkParts(labels, s, previous, a)) ==
            [Utf8(labels.receipt), Utf8(s), Utf8(previous), Utf8(a.entryId), Utf8(IntText(a.revision)),
             Utf8(a.receivedAt), Utf8(a.ciphertextSha256), Utf8(a.contentCommitment)]
  {
  }

  /** Equal receipts come from the same bytes, or the two encodings collide. */
  lemma DigestsAgree(h: Hash, ps: seq<Part>, qs: seq<Part>)
    requires Digest(h, ps).Some? && Digest(h, ps) == Digest(h, qs)
    requires !Collision(h, Encoding(ps), Encoding(qs))
    ensures AllBytes(ps) == AllBytes(qs)
  {
    HexInjective(h(Encoding(ps).value), h(Encoding(qs).value));
    EncodingInjective(ps, qs);
  }

  lemma LinksAgree(h: Hash, labels: Labels, s: Text, p: Text, a: Link, t: Text, q: Text, b: Link)
    requires NextReceipt(h, labels, s, p, a) == Some(a.receipt)
    requires NextReceipt(h, labels, t, q, b) == Some(b.receipt)
    requires a.receipt == b.receipt
    requires !Collision(h, Encoding(LinkParts(labels, s, p, a)), Encoding(LinkParts(labels, t, q, b)))
    ensures Utf8(s) == Utf8(t) && Utf8(p) == Utf8(q) && SameLink(a, b)
  {
    DigestsAgree(h, LinkParts(labels, s, p, a), LinkParts(labels, t, q, b));
    LinkPartsBytes(labels, s, p, a);
    LinkPartsBytes(labels, t, q, b);
    var x, y := AllBytes(LinkParts(labels, s, p, a)), AllBytes(LinkParts(labels, t, q, b));
    assert x[1] == y[1] && x[2] == y[2] && x[3] == y[3] && x[4] == y[4];
    assert x[5] == y[5] && x[6] == y[6] && x[7] == y[7];
    IntTextBytesInjective(a.revision, b.revision);
  }

  /** Dropping the last link leaves a sound chain that ends at the receipt before it. */
  lemma ChainPrefix(h: Hash, labels: Labels, s: Text, ls: seq<Link>, head: Text)
    requires ls != [] && ChainTo(h, labels, s, ls, head)
    ensures PreviousReceipt(h, labels, s, ls, |ls| - 1).Some?
    ensures ChainTo(h, labels, s, ls[..|ls| - 1], PreviousReceipt(h, labels, s, ls, |ls| - 1).value)
  {
    var n := |ls| - 1;
    SoundPrefix(h, labels, s, ls, n);
    assert n > 0 ==> ls[..n][n - 1] == ls[n - 1];
  }

  lemma SoundPrefix(h: Hash, labels: Labels, s: Text, ls: seq<Link>, n: nat)
    requires n <= |ls| && Sound(h, labels, s, ls, n)
    ensures Sound(h, labels, s, ls[..n], n)
  {
    SoundAt(h, labels, s, ls, n);
    SoundAt(h, labels, s, ls[..n], n);
    forall i | 0 <= i < n ensures LinkFollows(h, labels, s, ls[..n], i) {
      assert LinkFollows(h, labels, s, ls, i);
      assert ls[..n][i] == ls[i] && (i > 0 ==> ls[..n][i - 1] == ls[i - 1]);
    }
  }

  lemma PrefixesDoNotCollide(h: Hash, labels: Labels, s: Text, ls: seq<Link>, t: Text, ms: seq<Link>)
    requires ls != [] && ms != [] && !ChainsCollide(h, labels, s, ls, t, ms)
    ensures !ChainsCollide(h, labels, s, ls[..|ls| - 1], t, ms[..|ms| - 1])
  {
    var l, m := ls[..|ls| - 1], ms[..|ms| - 1];
    forall i, j | 0 <= i <= |l| && 0 <= j <= |m|
      ensures !Collision(h, HashedAt(h, labels, s, l, i), HashedAt(h, labels, t, m, j))
    {
      assert HashedAt(h, labels, s, ls, i) == HashedAt(h, labels, s, l, i);
      assert HashedAt(h, labels, t, ms, j) == HashedAt(h, labels, t, m, j);
      assert !Collision(h, HashedAt(h, labels, s, ls, i), HashedAt(h, labels, t, ms, j));
    }
  }

  /** The last step of a sound chain hashes to the head's text. */
  lemma HeadIsLastDigest(h: Hash, labels: Labels, s: Text, ls: seq<Link>, head: Text)
    requires ChainTo(h, labels, s, ls, head)
    ensures HashedAt(h, labels, s, ls, |ls|).Some?
    ensures head == Hex(h(HashedAt(h, labels, s, ls, |ls|).value))
    ensures ls != [] ==> head == ls[|ls| - 1].receipt
  {
    if ls == [] {
      SameDigestExact(h, GenesisParts(labels, s), head);
    } else {
      assert LinkFollows(h, labels, s, ls, |ls| - 1);
      var previous := PreviousReceipt(h, labels, s, ls, |ls| - 1).value;
      SameDigestExact(h, LinkParts(labels, s, previous, ls[|ls| - 1]), head);
    }
  }

  lemma EmptyAgainstLink(h: Hash, labels: Labels, s: Text, t: Text, ms: seq<Link>, head: Text)
    requires ms != [] && ChainTo(h, labels, s, [], head) && ChainTo(h, labels, t, ms, head)
    ensures Collision(h, HashedAt(h, labels, s, [], 0), HashedAt(h, labels, t, ms, |ms|))
  {
    HeadIsLastDigest(h, labels, s, [], head);
    HeadIsLastDigest(h, labels, t, ms, head);
    var x, y := HashedAt(h, labels, s, [], 0), HashedAt(h, labels, t, ms, |ms|);
    HexInjective(h(x.value), h(y.value));
    var previous := PreviousReceipt(h, labels, t, ms, |ms| - 1).value;
    assert |AllBytes(GenesisParts(labels, s))| == 2;
    if x == y {
      EncodingInjective(GenesisParts(labels, s), LinkParts(labels, t, previous, ms[|ms| - 1]));
    }
  }

  /** The last links of two chains with one head agree, and the chains before them share a head. */
  lemma LastLinksAgree(h: Hash, labels: Labels, s: Text, ls: seq<Link>, t: Text, ms: seq<Link>, head: Text)
    returns (before: Text)
    requires ls != [] && ms != [] && ChainTo(h, labels, s, ls, head) && ChainTo(h, labels, t, ms, head)
    requires !ChainsCollide(h, labels, s, ls, t, ms)
    ensures SameLink(ls[|ls| - 1], ms[|ms| - 1])
    ensures ChainTo(h, labels, s, ls[..|ls| - 1], before) && ChainTo(h, labels, t, ms[..|ms| - 1], before)
  {
    HeadIsLastDigest(h, labels, s, ls, head);
    HeadIsLastDigest(h, labels, t, ms, head);
    ChainPrefix(h, labels, s, ls, head);
    ChainPrefix(h, labels, t, ms, head);
    assert LinkFollows(h, labels, s, ls, |ls| - 1) && LinkFollows(h, labels, t, ms, |ms| - 1);
    before := PreviousReceipt(h, labels, s, ls, |ls| - 1).value;
    var other := PreviousReceipt(h, labels, t, ms, |ms| - 1).value;
    assert !Collision(h, HashedAt(h, labels, s, ls, |ls|), HashedAt(h, labels, t, ms, |ms|));
    LinksAgree(h, labels, s, before, ls[|ls| - 1], t, other, ms[|ms| - 1]);
  }

  lemma SameChainExtends(s: Text, ls: seq<Link>, t: Text, ms: seq<Link>)
    requires ls != [] && ms != [] && SameLink(ls[|ls| - 1], ms[|ms| - 1])
    requires SameChain(s, ls[..|ls| - 1], t, ms[..|ms| - 1])
    ensures SameChain(s, ls, t, ms)
  {
    forall i | 0 <= i < |ls| ensures SameLink(ls[i], ms[i]) {
      if i < |ls| - 1 { assert SameLink(ls[..|ls| - 1][i], ms[..|ms| - 1][i]); }
    }
  }

  /** Two chains that verify to one head are one chain, unless two of the strings they hashed collide. */
  lemma {:induction false} HeadDeterminesChain(
    h: Hash, labels: Labels, s: Text, ls: seq<Link>, t: Text, ms: seq<Link>, head: Text)
    requires ChainTo(h, labels, s, ls, head) && ChainTo(h, labels, t, ms, head)
    ensures SameChain(s, ls, t, ms) || ChainsCollide(h, labels, s, ls, t, ms)
    decreases |ls|
  {
    if ls == [] && ms == [] {
      EmptyChainsAgree(h, labels, s, t, head);
    } else if ls == [] {
      EmptyAgainstLink(h, labels, s, t, ms, head);
    } else if ms == [] {
      EmptyAgainstLink(h, labels, t, s, ls, head);
      assert Collision(h, HashedAt(h, labels, s, ls, |ls|), HashedAt(h, labels, t, ms, 0));
    } else if !ChainsCollide(h, labels, s, ls, t, ms) {
      var before := LastLinksAgree(h, labels, s, ls, t, ms, head);
      PrefixesDoNotCollide(h, labels, s, ls, t, ms);
      HeadDeterminesChain(h, labels, s, ls[..|ls| - 1], t, ms[..|ms| - 1], before);
      SameChainExtends(s, ls, t, ms);
    }
  }

  lemma EmptyChainsAgree(h: Hash, labels: Labels, s: Text, t: Text, head: Text)
    requires ChainTo(h, labels, s, [], head) && ChainTo(h, labels, t, [], head)
    ensures SameChain(s, [], t, []) || ChainsCollide(h, labels, s, [], t, [])
  {
    HeadIsLastDigest(h, labels, s, [], head);
    HeadIsLastDigest(h, labels, t, [], head);
    var ps, qs := GenesisParts(labels, s), GenesisParts(labels, t);
    if !Collision(h, Encoding(ps), Encoding(qs)) {
      DigestsAgree(h, ps, qs);
      assert AllBytes(ps)[1] == AllBytes(qs)[1];
    } else {
      assert Collision(h, HashedAt(h, labels, s, [], 0), HashedAt(h, labels, t, [], 0));
    }
  }

  lemma SameLinkSameReceipt(h: Hash, labels: Labels, s: Text, p: Text, a: Link, t: Text, q: Text, b: Link)
    requires Utf8(s) == Utf8(t) && p == q && SameLink(a, b)
    ensures NextReceipt(h, labels, s, p, a) == NextReceipt(h, labels, t, q, b)
  {
    LinkPartsBytes(labels, s, p, a);
    LinkPartsBytes(labels, t, q, b);
    EncodingOfBytes(LinkParts(labels, s, p, a), LinkParts(labels, t, q, b));
  }

  lemma SameGenesis(h: Hash, labels: Labels, s: Text, t: Text)
    requires Utf8(s) == Utf8(t)
    ensures GenesisReceipt(h, labels, s) == GenesisReceipt(h, labels, t)
  {
    assert AllBytes(GenesisParts(labels, s)) == AllBytes(GenesisParts(labels, t));
    EncodingOfBytes(GenesisParts(labels, s), GenesisParts(labels, t));
  }

  lemma SamePrevious(h: Hash, labels: Labels, s: Text, ls: seq<Link>, t: Text, ms: seq<Link>, i: nat)
    requires SameChain(s, ls, t, ms) && i <= |ls|
    ensures PreviousReceipt(h, labels, s, ls, i) == PreviousReceipt(h, labels, t, ms, i)
  {
    SameGenesis(h, labels, s, t);
    if i > 0 { assert SameLink(ls[i - 1], ms[i - 1]); }
  }

  lemma {:induction false} SameChainSound(h: Hash, labels: Labels, s: Text, ls: seq<Link>, t: Text, ms: seq<Link>,
                                          n: nat)
    requires SameChain(s, ls, t, ms) && n <= |ls| && Sound(h, labels, s, ls, n)
    ensures Sound(h, labels, t, ms, n)
  {
    if n > 0 {
      SameChainSound(h, labels, s, ls, t, ms, n - 1);
      SamePrevious(h, labels, s, ls, t, ms, n - 1);
      var previous := PreviousReceipt(h, labels, s, ls, n - 1).value;
      SameLinkSameReceipt(h, labels, s, previous, ls[n - 1], t, previous, ms[n - 1]);
    }
  }

  /** A chain with the same bytes verifies to the same head. */
  lemma SameChainSameHead(h: Hash, labels: Labels, s: Text, ls: seq<Link>, t: Text, ms: seq<Link>, head: Text)
    requires ChainTo(h, labels, s, ls, head) && SameChain(s, ls, t, ms)
    ensures ChainTo(h, labels, t, ms, head)
  {
    SameGenesis(h, labels, s, t);
    SameChainSound(h, labels, s, ls, t, ms, |ls|);
    SamePrevious(h, labels, s, ls, t, ms, |ls|);
  }

  /**
   * Next to a chain that verifies to a head, and without a collision between what the two hash,
   * another verifies to it exactly when it is the same scope and the same links, byte for byte.
   */
  lemma ChainUnique(h: Hash, labels: Labels, s: Text, ls: seq<Link>, t: Text, ms: seq<Link>, head: Text)
    requires ChainTo(h, labels, s, ls, head) && !ChainsCollide(h, labels, s, ls, t, ms)
    ensures ChainTo(h, labels, t, ms, head) <==> SameChain(s, ls, t, ms)
  {
    if ChainTo(h, labels, t, ms, head) {
      HeadDeterminesChain(h, labels, s, ls, t, ms, head);
    }
    if SameChain(s, ls, t, ms) {
      SameChainSameHead(h, labels, s, ls, t, ms, head);
    }
  }

  // ----- text that reads as one thing

  predicate LinkWellFormed(a: Link) {
    WellFormed(a.entryId) && WellFormed(a.receivedAt) && WellFormed(a.ciphertextSha256)
        && WellFormed(a.contentCommitment)
  }

  predicate ChainWellFormed(s: Text, ls: seq<Link>) {
    WellFormed(s) && forall i | 0 <= i < |ls| :: LinkWellFormed(ls[i])
  }

  /** For text without lone surrogates, the same bytes are the same chain. */
  lemma SameChainEqual(s: Text, ls: seq<Link>, t: Text, ms: seq<Link>)
    requires SameChain(s, ls, t, ms) && ChainWellFormed(s, ls) && ChainWellFormed(t, ms)
    ensures s == t && ls == ms
  {
    Utf8Injective(s, t);
    forall i | 0 <= i < |ls| ensures ls[i] == ms[i] {
      Utf8Injective(ls[i].entryId, ms[i].entryId);
      Utf8Injective(ls[i].receivedAt, ms[i].receivedAt);
      Utf8Injective(ls[i].ciphertextSha256, ms[i].ciphertextSha256);
      Utf8Injective(ls[i].contentCommitment, ms[i].contentCommitment);
    }
  }

  /** Scopes that differ only in a lone surrogate share every chain: there the scope is not determined. */
  lemma LoneSurrogateScopesShareChains(h: Hash, labels: Labels, c: CodeUnit, d: CodeUnit, ls: seq<Link>, head: Text)
    requires IsSurrogate(c) && IsSurrogate(d)
    ensures ChainTo(h, labels, [c], ls, head) <==> ChainTo(h, labels, [d], ls, head)
  {
    LoneSurrogatesShareBytes(c, d);
    if ChainTo(h, labels, [c], ls, head) { SameChainSameHead(h, labels, [c], ls, [d], ls, head); }
    if ChainTo(h, labels, [d], ls, head) { SameChainSameHead(h, labels, [d], ls, [c], ls, head); }
  }

  // ----- newest links

  /** What a scan of the whole chain from its end would find first for an entry. */
  function LastFor(links: seq<Link>, entryId: Text): Option<Link> {
    if links == [] then None
    else if links[|links| - 1].entryId == entryId then Some(links[|links| - 1])
    else LastFor(links[..|links| - 1], entryId)
  }

  /** The index `verifyReceipts` fills in chain order: each entry's last write stays. */
  method NewestIndex(links: seq<Link>) returns (newest: map<Text, Link>)
    ensures forall e :: (if e in newest then Some(newest[e]) else None) == LastFor(links, e)
  {
    newest := map[];
    for i := 0 to |links|
      invariant forall e :: (if e in newest then Some(newest[e]) else None) == LastFor(links[..i], e)
    {
      newest := newest[links[i].entryId := links[i]];
      assert links[..i + 1][..i] == links[..i];
    }
    assert links[..|links|] == links;
  }

  /** Some link is for another entry whose id has the same bytes. */
  ghost predicate IdConfused(links: seq<Link>, entryId: Text) {
    exists i :: 0 <= i < |links| && links[i].entryId != entryId && Utf8(links[i].entryId) == Utf8(entryId)
  }

  ghost predicate LinksAlike(ls: seq<Link>, ms: seq<Link>) {
    |ls| == |ms| && forall i | 0 <= i < |ls| :: SameLink(ls[i], ms[i])
  }

  ghost predicate NewestSame(x: Option<Link>, y: Option<Link>) {
    (x.None? && y.None?) || (x.Some? && y.Some? && SameLink(x.value, y.value))
  }

  /** Chains that are the same byte for byte have the same newest link of an entry, unless its id is confused. */
  lemma {:induction false} NewestAlike(ls: seq<Link>, ms: seq<Link>, entryId: Text)
    requires LinksAlike(ls, ms) && !IdConfused(ls, entryId) && !IdConfused(ms, entryId)
    ensures NewestSame(LastFor(ls, entryId), LastFor(ms, entryId))
  {
    if ls != [] {
      var n := |ls| - 1;
      LastAlike(ls, ms, entryId);
      if ls[n].entryId != entryId {
        assert LinksAlike(ls[..n], ms[..n]);
        ConfusedShorter(ls, entryId);
        ConfusedShorter(ms, entryId);
        NewestAlike(ls[..n], ms[..n], entryId);
      }
    }
  }

  lemma LastAlike(ls: seq<Link>, ms: seq<Link>, entryId: Text)
    requires ls != [] && LinksAlike(ls, ms) && !IdConfused(ls, entryId) && !IdConfused(ms, entryId)
    ensures SameLink(ls[|ls| - 1], ms[|ms| - 1])
    ensures ls[|ls| - 1].entryId == entryId <==> ms[|ms| - 1].entryId == entryId
  {
  }

  lemma ConfusedShorter(links: seq<Link>, entryId: Text)
    requires links != [] && !IdConfused(links, entryId)
    ensures !IdConfused(links[..|links| - 1], entryId)
  {
    var fewer := links[..|links| - 1];
    forall i | 0 <= i < |fewer| ensures fewer[i].entryId == entryId || Utf8(fewer[i].entryId) != Utf8(entryId) {
      assert fewer[i] == links[i];
    }
  }

  /** An id with neither a lone surrogate nor U+FFFD is never confused. */
  lemma PlainNeverConfused(links: seq<Link>, entryId: Text)
    requires WellFormed(entryId) && 0xFFFD !in entryId
    ensures !IdConfused(links, entryId)
  {
    OwnBytesIff(entryId);
  }

  /**
   * Where ids are confused the newest link is not determined: two receipts for entries named by lone
   * surrogates can trade their ids, and the chain still verifies to the same head.
   */
  lemma ConfusedIdsTrade(h: Hash, labels: Labels, s: Text, a: Link, b: Link, head: Text)
    requires |a.entryId| == 1 && |b.entryId| == 1 && a.entryId != b.entryId
    requires IsSurrogate(a.entryId[0]) && IsSurrogate(b.entryId[0])
    requires ChainTo(h, labels, s, [a, b], head)
    ensures var traded := [a.(entryId := b.entryId), b.(entryId := a.entryId)];
            && ChainTo(h, labels, s, traded, head)
            && LastFor([a, b], a.entryId) == Some(a)
            && LastFor(traded, a.entryId) == Some(b.(entryId := a.entryId))
  {
    var c, d := a.entryId[0], b.entryId[0];
    assert a.entryId == [c] && b.entryId == [d];
    LoneSurrogatesShareBytes(c, d);
    var links, traded := [a, b], [a.(entryId := [d]), b.(entryId := [c])];
    SameChainSameHead(h, labels, s, links, s, traded, head);
    assert links[..1] == [a];
  }
}
