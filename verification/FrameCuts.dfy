/**
 * What becomes of a stream however it is cut into chunks: in a process that outlives the exception of a
 * refused frame, and in one that it ends, as it does by default.
 */
module FrameCuts {
  import opened Texts
  import opened Frames

  // ----- how the stream is cut

  function Flatten(chunks: seq<Bytes>): Bytes {
    if chunks == [] then [] else chunks[0] + Flatten(chunks[1..])
  }

  /**
   * The chunks of a connection, one after another, in a process that outlives an exception thrown in
   * a listener: a turn that threw leaves the rest of its bytes to the next.
   */
  function Received(accepts: Bytes -> bool, buffered: Bytes, chunks: seq<Bytes>): Decoded
    requires ReadsHeader(accepts)
    decreases |chunks|
  {
    if chunks == [] then Decoded([], buffered, false)
    else
      var d := Decode(accepts, buffered + chunks[0]);
      var more := Received(accepts, d.rest, chunks[1..]);
      Decoded(d.frames + more.frames, more.rest, d.threw || more.threw)
  }

  lemma PartsAccepted(accepts: Bytes -> bool, a: seq<Bytes>, b: seq<Bytes>)
    requires AllButLastAccepted(accepts, a + b)
    ensures AllButLastAccepted(accepts, a) && AllButLastAccepted(accepts, b)
  {
    forall i | 0 <= i < |a| - 1 ensures accepts(a[i]) { assert (a + b)[i] == a[i]; }
    forall i | 0 <= i < |b| - 1 ensures accepts(b[i]) { assert (a + b)[|a| + i] == b[i]; }
  }

  /** A part of a stream meets a size that counts back only if the stream does. */
  lemma PartCountsBack(a: Bytes, c: Bytes)
    ensures HasFrame(AllFrames(a).1) ==>
            AllFrames(a + c) == (AllFrames(a).0, AllFrames(a).1 + c) && CountsBack(AllFrames(a).1 + c)
  {
    var (fs, rest) := AllFrames(a);
    FramesInParts(a, c);
    LeftOver(a);
    if HasFrame(rest) {
      CountsBackStays(rest, c);
      assert fs + [] == fs;
    }
  }

  /** However it is cut, a stream of which only the last frame may be refused hands over all its frames. */
  lemma {:induction false} ReceivedAll(accepts: Bytes -> bool, buffered: Bytes, chunks: seq<Bytes>)
    requires ReadsHeader(accepts) && !HasFrame(buffered) && !HasFrame(AllFrames(buffered + Flatten(chunks)).1)
    requires AllButLastAccepted(accepts, AllFrames(buffered + Flatten(chunks)).0)
    ensures var d := Received(accepts, buffered, chunks); (d.frames, d.rest) == AllFrames(buffered + Flatten(chunks))
    decreases |chunks|
  {
    if chunks == [] {
      assert buffered + [] == buffered;
    } else {
      var a, c := buffered + chunks[0], Flatten(chunks[1..]);
      assert buffered + Flatten(chunks) == a + c;
      FramesInParts(a, c);
      PartCountsBack(a, c);
      var (fs, rest) := AllFrames(a);
      PartsAccepted(accepts, fs, AllFrames(rest + c).0);
      TurnHandsOver(accepts, a);
      ReceivedAll(accepts, rest, chunks[1..]);
    }
  }

  // ----- byte by byte

  function Singles(b: Bytes): seq<Bytes> {
    if b == [] then [] else [[b[0]]] + Singles(b[1..])
  }

  lemma {:induction false} FlattenSingles(b: Bytes)
    ensures Flatten(Singles(b)) == b
  {
    if b != [] {
      FlattenSingles(b[1..]);
      assert Singles(b)[1..] == Singles(b[1..]);
    }
  }

  /** One more byte completes one frame at most, and then too little is left for another size. */
  lemma OneFrameAtMost(b: Bytes, c: Byte)
    requires !HasFrame(b)
    ensures AllFrames(b + [c]) == ([], b + [c]) || (|AllFrames(b + [c]).0| == 1 && !HasFrame(AllFrames(b + [c]).1))
  {
    var t := b + [c];
    if HasFrame(t) && !CountsBack(t) {
      if |b| >= 4 { SizeStays(b, [c]); }
      assert |RestOf(t)| < 4;
      assert AllFrames(RestOf(t)) == ([], RestOf(t));
    }
  }

  /** Byte by byte, every frame is handed over, whatever the handler refuses, if the process outlives it. */
  lemma {:induction false} BytewiseAll(accepts: Bytes -> bool, buffered: Bytes, b: Bytes)
    requires ReadsHeader(accepts) && !HasFrame(buffered) && !HasFrame(AllFrames(buffered + b).1)
    ensures var d := Received(accepts, buffered, Singles(b)); (d.frames, d.rest) == AllFrames(buffered + b)
    decreases |b|
  {
    if b == [] {
      assert buffered + b == buffered;
    } else {
      var a, c := buffered + [b[0]], b[1..];
      assert buffered + b == a + c;
      FramesInParts(a, c);
      PartCountsBack(a, c);
      OneFrameAtMost(buffered, b[0]);
      TurnHandsOver(accepts, a);
      BytewiseAll(accepts, AllFrames(a).1, c);
      assert Singles(b)[0] == [b[0]] && Singles(b)[1..] == Singles(c);
    }
  }

  /** Every way to cut the stream hands over the same frames and leaves the same bytes. */
  ghost predicate ChunkFree(accepts: Bytes -> bool, b: Bytes)
    requires ReadsHeader(accepts)
  {
    forall chunks | Flatten(chunks) == b :: SameAsWhole(accepts, b, chunks)
  }

  ghost predicate SameAsWhole(accepts: Bytes -> bool, b: Bytes, chunks: seq<Bytes>)
    requires ReadsHeader(accepts)
  {
    var d := Received(accepts, [], chunks);
    d.frames == Decode(accepts, b).frames && d.rest == Decode(accepts, b).rest
  }

  lemma OrdinaryFreeIff(accepts: Bytes -> bool, b: Bytes)
    requires ReadsHeader(accepts) && !HasFrame(AllFrames(b).1)
    ensures ChunkFree(accepts, b) <==> AllButLastAccepted(accepts, AllFrames(b).0)
  {
    var fs := AllFrames(b).0;
    assert [] + b == b;
    if AllButLastAccepted(accepts, fs) {
      TurnHandsOver(accepts, b);
      forall chunks | Flatten(chunks) == b ensures SameAsWhole(accepts, b, chunks) { ReceivedAll(accepts, [], chunks); }
    } else {
      FlattenSingles(b);
      BytewiseAll(accepts, [], b);
      TurnEnds(accepts, b);
      UpToRefusedIff(accepts, fs);
      assert !SameAsWhole(accepts, b, Singles(b));
    }
  }

  // ----- a size that counts back

  /** What a size that counts back leaves of its own four bytes, when they are all that is buffered. */
  lemma CountsBackAlone(accepts: Bytes -> bool, r: Bytes)
    requires ReadsHeader(accepts) && |r| == 4 && Size(r) <= -4
    ensures Decode(accepts, r) == Decoded([[]], RestOf(r), true)
    ensures RestOf(r) == if -7 <= Size(r) <= -5 then r[8 + Size(r)..] else r
  {
    assert !accepts([]);
  }

  lemma ReceivedOne(accepts: Bytes -> bool, buffered: Bytes, chunk: Bytes)
    requires ReadsHeader(accepts)
    ensures Received(accepts, buffered, [chunk]) == Decode(accepts, buffered + chunk)
  {
    var d := Decode(accepts, buffered + chunk);
    assert [chunk][1..] == [];
    assert Received(accepts, d.rest, []) == Decoded([], d.rest, false);
    assert d.frames + [] == d.frames;
  }

  lemma ReceivedTwo(accepts: Bytes -> bool, first: Bytes, second: Bytes)
    requires ReadsHeader(accepts)
    ensures var d, r := Decode(accepts, first), Received(accepts, [], [first, second]);
            var e := Decode(accepts, d.rest + second);
            r.frames == d.frames + e.frames && r.rest == e.rest
  {
    assert [] + first == first && [first, second][1..] == [second];
    ReceivedOne(accepts, Decode(accepts, first).rest, second);
  }

  lemma FlattenTwo(first: Bytes, second: Bytes)
    ensures Flatten([first, second]) == first + second
  {
    assert [first, second][1..] == [second] && [second][1..] == [];
    assert Flatten([second]) == second + [] == second;
  }

  /** Its four bytes alone, and then the rest: not what the whole gives. */
  lemma CutAfterSize(accepts: Bytes -> bool, r: Bytes)
    requires ReadsHeader(accepts) && |r| > 4 && Size(r) <= -4
    ensures var d, e := Decode(accepts, r), Decode(accepts, Decode(accepts, r[..4]).rest + r[4..]);
            d.frames != [[]] + e.frames || d.rest != e.rest
  {
    var head, tail := r[..4], r[4..];
    assert r == head + tail;
    SizeStays(head, tail);
    CountsBackAlone(accepts, head);
    var left := RestOf(head) + tail;
    var d, e := Decode(accepts, r), Decode(accepts, left);
    if FrameOf(r) != [] {
      assert d.frames[0] == FrameOf(r);
    } else if -7 <= Size(r) <= -5 {
      assert !accepts([]) && d.rest == RestOf(r) && |d.rest| < |left|;
      assert HasFrame(left) ==> |e.frames| > 0;
    } else {
      assert left == r;
      assert !accepts([]) && d.frames == [[]] && e.frames == [[]];
    }
  }

  lemma HeadFrame(b: Bytes)
    requires HasFrame(b) && Size(b) >= 0
    ensures var head := b[..4 + Size(b)];
            && b == head + RestOf(b)
            && HasFrame(head) && !CountsBack(head) && FrameOf(head) == FrameOf(b) && RestOf(head) == []
  {
    var n := 4 + Size(b);
    SizeStays(b[..n], b[n..]);
    assert b == b[..n] + b[n..] && RestOf(b) == b[n..];
    assert b[..n][4..n] == b[4..n];
  }

  lemma AcceptedHasSize(accepts: Bytes -> bool, b: Bytes)
    requires ReadsHeader(accepts) && HasFrame(b) && !CountsBack(b) && accepts(FrameOf(b))
    ensures Size(b) >= 0
  {
  }

  lemma FirstStandsApart(b: Bytes, more: Bytes)
    requires HasFrame(b) && Size(b) >= 0
    ensures AllFrames(b[..4 + Size(b)] + more) == ([FrameOf(b)] + AllFrames(more).0, AllFrames(more).1)
  {
    HeadFrame(b);
    FrameStays(b[..4 + Size(b)], more);
    assert [] + more == more;
  }

  /** Accepted frames take up a part of the stream of their own. */
  lemma {:induction false} FramesStandApart(accepts: Bytes -> bool, b: Bytes) returns (p: Bytes)
    requires ReadsHeader(accepts) && AllAccepted(accepts, AllFrames(b).0)
    ensures b == p + AllFrames(b).1 && AllFrames(p) == (AllFrames(b).0, [])
    decreases |b|
  {
    p := [];
    if HasFrame(b) && !CountsBack(b) {
      AcceptedSplit(accepts, FrameOf(b), AllFrames(RestOf(b)).0);
      AcceptedHasSize(accepts, b);
      HeadFrame(b);
      var head := b[..4 + Size(b)];
      var more := FramesStandApart(accepts, RestOf(b));
      p := head + more;
      FirstStandsApart(b, more);
      Group(head, more, AllFrames(b).1);
    }
  }

  lemma FramesThenSize(p: Bytes, fs: seq<Bytes>, size: Bytes)
    requires AllFrames(p) == (fs, []) && CountsBack(size)
    ensures AllFrames(p + size) == (fs, size)
  {
    FramesInParts(p, size);
    assert [] + size == size && fs + [] == fs;
  }

  /** Cut right after a size that counts back, the stream hands over the frames before it and an empty one. */
  lemma CutThere(accepts: Bytes -> bool, b: Bytes) returns (first: Bytes, second: Bytes)
    requires ReadsHeader(accepts) && AllAccepted(accepts, AllFrames(b).0) && CountsBack(AllFrames(b).1)
    ensures var (fs, r) := AllFrames(b);
            && first + second == b && second == r[4..]
            && Decode(accepts, first) == Decoded(fs + [[]], Decode(accepts, r[..4]).rest, true)
  {
    var (fs, r) := AllFrames(b);
    var p := FramesStandApart(accepts, b);
    var size := r[..4];
    first, second := p + size, r[4..];
    assert r == size + second;
    Group(p, size, second);
    SizeStays(size, second);
    FramesThenSize(p, fs, size);
    TurnGoesOn(accepts, first);
    CountsBackAlone(accepts, size);
  }

  /** With a refused frame before it, byte by byte more is handed over than there are frames before it. */
  lemma {:induction false} BytewiseMore(accepts: Bytes -> bool, buffered: Bytes, b: Bytes)
    requires ReadsHeader(accepts) && !HasFrame(buffered) && HasFrame(AllFrames(buffered + b).1)
    ensures |Received(accepts, buffered, Singles(b)).frames| > |AllFrames(buffered + b).0|
    decreases |b|
  {
    assert b == [] ==> buffered + b == buffered;
    if b != [] {
      var a, c := buffered + [b[0]], b[1..];
      assert buffered + b == a + c;
      assert Singles(b)[0] == [b[0]] && Singles(b)[1..] == Singles(c);
      FramesInParts(a, c);
      PartCountsBack(a, c);
      OneFrameAtMost(buffered, b[0]);
      if !HasFrame(AllFrames(a).1) {
        TurnHandsOver(accepts, a);
        BytewiseMore(accepts, AllFrames(a).1, c);
      }
    }
  }

  /** A size that counts back within its own four bytes, as the last of a stream, is met alone however it is cut. */
  ghost predicate EndsAlone(r: Bytes) {
    |r| == 4 && -7 <= Size(r) <= -5
  }

  lemma {:induction false} ReceivedEmpty(accepts: Bytes -> bool, buffered: Bytes, chunks: seq<Bytes>)
    requires ReadsHeader(accepts) && !HasFrame(buffered) && Flatten(chunks) == []
    ensures var d := Received(accepts, buffered, chunks); d.frames == [] && d.rest == buffered
    decreases |chunks|
  {
    if chunks != [] {
      assert chunks[0] == [] && Flatten(chunks[1..]) == [];
      assert buffered + chunks[0] == buffered;
      ReceivedEmpty(accepts, buffered, chunks[1..]);
    }
  }

  lemma {:induction false} ReceivedAlone(accepts: Bytes -> bool, buffered: Bytes, chunks: seq<Bytes>)
    requires ReadsHeader(accepts) && !HasFrame(buffered) && EndsAlone(AllFrames(buffered + Flatten(chunks)).1)
    requires AllAccepted(accepts, AllFrames(buffered + Flatten(chunks)).0)
    ensures var (fs, r) := AllFrames(buffered + Flatten(chunks));
            var d := Received(accepts, buffered, chunks);
            d.frames == fs + [[]] && d.rest == RestOf(r)
    decreases |chunks|
  {
    var whole := buffered + Flatten(chunks);
    assert chunks == [] ==> whole == buffered;
    if chunks != [] {
      var a, c := buffered + chunks[0], Flatten(chunks[1..]);
      assert whole == a + c;
      FramesInParts(a, c);
      PartCountsBack(a, c);
      var (fs, rest) := AllFrames(a);
      var more := AllFrames(rest + c).0;
      AcceptedParts(accepts, fs, more);
      TurnGoesOn(accepts, a);
      if HasFrame(rest) {
        assert rest + c == rest && c == [];
        CountsBackAlone(accepts, rest);
        ReceivedEmpty(accepts, RestOf(rest), chunks[1..]);
        assert fs + [[]] + [] == fs + [[]];
      } else {
        ReceivedAlone(accepts, rest, chunks[1..]);
        Group(fs, more, [[]]);
        assert fs + [] == fs;
      }
    }
  }

  lemma AcceptedParts(accepts: Bytes -> bool, a: seq<Bytes>, b: seq<Bytes>)
    ensures AllAccepted(accepts, a + b) <==> AllAccepted(accepts, a) && AllAccepted(accepts, b)
  {
    var all := a + b;
    if AllAccepted(accepts, all) {
      forall i | 0 <= i < |a| ensures accepts(a[i]) { assert all[i] == a[i]; }
      forall i | 0 <= i < |b| ensures accepts(b[i]) { assert all[|a| + i] == b[i]; }
    }
  }

  lemma CutReceived(accepts: Bytes -> bool, b: Bytes) returns (chunks: seq<Bytes>)
    requires ReadsHeader(accepts) && AllAccepted(accepts, AllFrames(b).0) && CountsBack(AllFrames(b).1)
    ensures var (fs, r) := AllFrames(b);
            var e, d := Decode(accepts, Decode(accepts, r[..4]).rest + r[4..]), Received(accepts, [], chunks);
            Flatten(chunks) == b && d.frames == fs + ([[]] + e.frames) && d.rest == e.rest
  {
    var (fs, r) := AllFrames(b);
    var first, second := CutThere(accepts, b);
    chunks := [first, second];
    FlattenTwo(first, second);
    ReceivedTwo(accepts, first, second);
    Group(fs, [[]], Decode(accepts, Decode(accepts, r[..4]).rest + second).frames);
  }

  /** Whole, the frames before such a size and what one turn makes of the rest; cut, something else. */
  lemma CountsBackCut(accepts: Bytes -> bool, b: Bytes)
    requires ReadsHeader(accepts) && AllAccepted(accepts, AllFrames(b).0) && CountsBack(AllFrames(b).1)
    requires |AllFrames(b).1| > 4
    ensures !ChunkFree(accepts, b)
  {
    var (fs, r) := AllFrames(b);
    var chunks := CutReceived(accepts, b);
    TurnGoesOn(accepts, b);
    CutAfterSize(accepts, r);
    var d, e := Decode(accepts, r), Decode(accepts, Decode(accepts, r[..4]).rest + r[4..]);
    SameEnds(fs, d.frames, [[]] + e.frames);
    assert !SameAsWhole(accepts, b, chunks);
  }

  lemma SameEnds(a: seq<Bytes>, b: seq<Bytes>, c: seq<Bytes>)
    ensures a + b == a + c <==> b == c
  {
    assert (a + b)[|a|..] == b && (a + c)[|a|..] == c;
  }

  /** A size that leaves its own four bytes where they are is met again with the next chunk, though it be empty. */
  lemma CountsBackStuck(accepts: Bytes -> bool, b: Bytes)
    requires ReadsHeader(accepts) && AllAccepted(accepts, AllFrames(b).0) && CountsBack(AllFrames(b).1)
    requires |AllFrames(b).1| == 4 && !EndsAlone(AllFrames(b).1)
    ensures !ChunkFree(accepts, b)
  {
    var (fs, r) := AllFrames(b);
    TurnGoesOn(accepts, b);
    CountsBackAlone(accepts, r);
    FlattenTwo(b, []);
    assert b + [] == b && r + [] == r;
    ReceivedTwo(accepts, b, []);
    assert |Received(accepts, [], [b, []]).frames| == |fs| + 2;
    assert !SameAsWhole(accepts, b, [b, []]);
  }

  lemma CountsBackFreeIff(accepts: Bytes -> bool, b: Bytes)
    requires ReadsHeader(accepts) && CountsBack(AllFrames(b).1)
    ensures ChunkFree(accepts, b) <==> AllAccepted(accepts, AllFrames(b).0) && EndsAlone(AllFrames(b).1)
  {
    var (fs, r) := AllFrames(b);
    assert [] + b == b;
    if !AllAccepted(accepts, fs) {
      TurnEnds(accepts, b);
      UpToRefusedIff(accepts, fs);
      FlattenSingles(b);
      BytewiseMore(accepts, [], b);
      assert !SameAsWhole(accepts, b, Singles(b));
    } else if |r| > 4 {
      CountsBackCut(accepts, b);
    } else if !EndsAlone(r) {
      CountsBackStuck(accepts, b);
    } else {
      TurnGoesOn(accepts, b);
      CountsBackAlone(accepts, r);
      forall chunks | Flatten(chunks) == b ensures SameAsWhole(accepts, b, chunks) {
        ReceivedAlone(accepts, [], chunks);
      }
    }
  }

  /**
   * How a stream is cut does not matter, in a process that outlives a refused frame, exactly when the
   * handler accepts all its frames but perhaps the last; and, where a size that counts back is
   * met, all of them, and the four bytes of that size end the stream and are not left as they are.
   */
  lemma ChunksDoNotMatterIff(accepts: Bytes -> bool, b: Bytes)
    requires ReadsHeader(accepts)
    ensures var (fs, rest) := AllFrames(b);
            ChunkFree(accepts, b) <==>
            if CountsBack(rest) then AllAccepted(accepts, fs) && EndsAlone(rest) else AllButLastAccepted(accepts, fs)
  {
    LeftOver(b);
    if CountsBack(AllFrames(b).1) { CountsBackFreeIff(accepts, b); } else { OrdinaryFreeIff(accepts, b); }
  }

  // ----- a process that a refused frame ends

  /** The frames handed over until the first that is refused: by default its exception ends the process. */
  function UntilThrow(accepts: Bytes -> bool, buffered: Bytes, chunks: seq<Bytes>): seq<Bytes>
    requires ReadsHeader(accepts)
    decreases |chunks|
  {
    if chunks == [] then []
    else
      var d := Decode(accepts, buffered + chunks[0]);
      if d.threw then d.frames else d.frames + UntilThrow(accepts, d.rest, chunks[1..])
  }

  /** However the stream is cut, the same frames reach the handler before the process ends. */
  ghost predicate EndsAlike(accepts: Bytes -> bool, b: Bytes)
    requires ReadsHeader(accepts)
  {
    forall chunks | Flatten(chunks) == b :: UntilThrow(accepts, [], chunks) == Decode(accepts, b).frames
  }

  /**
   * A frame is refused before a size that counts back is met, or that size gives an empty frame in the whole
   * stream.
   */
  ghost predicate RefusedAlike(accepts: Bytes -> bool, b: Bytes) {
    var (fs, rest) := AllFrames(b);
    !AllAccepted(accepts, fs) || !HasFrame(rest) || FrameOf(rest) == []
  }

  /** The frames that reach the handler then. */
  ghost function Reaching(accepts: Bytes -> bool, b: Bytes): seq<Bytes> {
    var (fs, rest) := AllFrames(b);
    if AllAccepted(accepts, fs) then (if HasFrame(rest) then fs + [[]] else fs) else UpToRefused(accepts, fs)
  }

  lemma {:induction false} UpToRefusedParts(accepts: Bytes -> bool, a: seq<Bytes>, b: seq<Bytes>)
    ensures UpToRefused(accepts, a + b) ==
            if AllAccepted(accepts, a) then a + UpToRefused(accepts, b) else UpToRefused(accepts, a)
  {
    if a == [] {
      assert a + b == b;
    } else {
      var first, more := a[0], a[1..];
      UpToRefusedParts(accepts, more, b);
      assert a == [first] + more && (a + b)[1..] == more + b && (a + b)[0] == first;
      AcceptedSplit(accepts, first, more);
      Group([first], more, UpToRefused(accepts, b));
    }
  }

  /** What counts back to nothing from the whole counts back to nothing from less. */
  lemma EmptyFromLess(r: Bytes, c: Bytes)
    requires CountsBack(r) && FrameOf(r + c) == []
    ensures FrameOf(r) == []
  {
    SizeStays(r, c);
  }

  lemma ReachingParts(accepts: Bytes -> bool, a: Bytes, c: Bytes)
    requires AllAccepted(accepts, AllFrames(a).0) && !HasFrame(AllFrames(a).1)
    ensures Reaching(accepts, a + c) == AllFrames(a).0 + Reaching(accepts, AllFrames(a).1 + c)
    ensures RefusedAlike(accepts, a + c) <==> RefusedAlike(accepts, AllFrames(a).1 + c)
  {
    FramesInParts(a, c);
    var (fs, rest) := AllFrames(a);
    var (more, last) := AllFrames(rest + c);
    AcceptedParts(accepts, fs, more);
    UpToRefusedParts(accepts, fs, more);
    Group(fs, more, [[]]);
  }

  /** Once all frames of a part are accepted, a turn over it hands them over, and an empty one if a size counts back. */
  lemma AcceptedTurnReaches(accepts: Bytes -> bool, a: Bytes, c: Bytes)
    requires ReadsHeader(accepts) && RefusedAlike(accepts, a + c) && AllAccepted(accepts, AllFrames(a).0)
    ensures var (d, (fs, rest)) := (Decode(accepts, a), AllFrames(a));
            if HasFrame(rest) then d.threw && d.frames == fs + [[]] == Reaching(accepts, a + c)
            else !d.threw && d.frames == fs && d.rest == rest
  {
    var (fs, rest) := AllFrames(a);
    TurnGoesOn(accepts, a);
    PartCountsBack(a, c);
    LeftOver(a);
    if HasFrame(rest) {
      EmptyFromLess(rest, c);
      assert !accepts([]);
    } else {
      assert fs + [] == fs;
    }
  }

  lemma RefusedTurnReaches(accepts: Bytes -> bool, a: Bytes, c: Bytes)
    requires ReadsHeader(accepts) && !AllAccepted(accepts, AllFrames(a).0)
    ensures Decode(accepts, a).threw && Decode(accepts, a).frames == Reaching(accepts, a + c)
  {
    var (fs, rest) := AllFrames(a);
    FramesInParts(a, c);
    var more := AllFrames(rest + c).0;
    AcceptedParts(accepts, fs, more);
    UpToRefusedParts(accepts, fs, more);
    TurnEnds(accepts, a);
  }

  /** One turn that is not the last of the process hands over accepted frames alone. */
  lemma TurnReaches(accepts: Bytes -> bool, a: Bytes, c: Bytes)
    requires ReadsHeader(accepts) && RefusedAlike(accepts, a + c)
    ensures var d := Decode(accepts, a);
            if d.threw then d.frames == Reaching(accepts, a + c)
            else AllAccepted(accepts, AllFrames(a).0) && (d.frames, d.rest) == AllFrames(a) && !HasFrame(d.rest)
  {
    if AllAccepted(accepts, AllFrames(a).0) {
      AcceptedTurnReaches(accepts, a, c);
    } else {
      RefusedTurnReaches(accepts, a, c);
    }
  }

  lemma {:induction false} UntilThrowReaches(accepts: Bytes -> bool, buffered: Bytes, chunks: seq<Bytes>)
    requires ReadsHeader(accepts) && !HasFrame(buffered) && RefusedAlike(accepts, buffered + Flatten(chunks))
    ensures UntilThrow(accepts, buffered, chunks) == Reaching(accepts, buffered + Flatten(chunks))
    decreases |chunks|
  {
    if chunks == [] {
      assert buffered + [] == buffered;
    } else {
      var a, c := buffered + chunks[0], Flatten(chunks[1..]);
      assert buffered + Flatten(chunks) == a + c;
      TurnReaches(accepts, a, c);
      var d := Decode(accepts, a);
      if !d.threw {
        ReachingParts(accepts, a, c);
        UntilThrowReaches(accepts, d.rest, chunks[1..]);
      }
    }
  }

  lemma WholeReaches(accepts: Bytes -> bool, b: Bytes)
    requires ReadsHeader(accepts) && RefusedAlike(accepts, b)
    ensures Decode(accepts, b).frames == Reaching(accepts, b)
  {
    assert b + [] == b;
    TurnReaches(accepts, b, []);
  }

  /** Where a size counts back to a frame that is not empty, the handler gets another if the stream is cut after it. */
  lemma ReachesAnother(accepts: Bytes -> bool, b: Bytes)
    requires ReadsHeader(accepts) && !RefusedAlike(accepts, b)
    ensures !EndsAlike(accepts, b)
  {
    var (fs, r) := AllFrames(b);
    LeftOver(b);
    var first, second := CutThere(accepts, b);
    FlattenTwo(first, second);
    assert [] + first == first;
    assert UntilThrow(accepts, [], [first, second]) == fs + [[]];
    TurnGoesOn(accepts, b);
    assert Decode(accepts, b).frames[|fs|] == FrameOf(r);
  }

  /**
   * In a process that ends with the first refused frame, how a stream is cut does not matter to the frames handed
   * over, exactly unless a size that counts back is met before it and gives a frame that is not empty.
   */
  lemma EndsAlikeIff(accepts: Bytes -> bool, b: Bytes)
    requires ReadsHeader(accepts)
    ensures EndsAlike(accepts, b) <==> RefusedAlike(accepts, b)
  {
    if RefusedAlike(accepts, b) {
      WholeReaches(accepts, b);
      assert [] + b == b;
      forall chunks | Flatten(chunks) == b ensures UntilThrow(accepts, [], chunks) == Decode(accepts, b).frames {
        UntilThrowReaches(accepts, [], chunks);
      }
    } else {
      ReachesAnother(accepts, b);
    }
  }

  // ----- sizes of -4 and less

  /** A size of -4 takes no byte: the empty frame is refused, and again with a chunk that follows. */
  lemma MinusFourRepeats(accepts: Bytes -> bool, head: Bytes, more: Bytes)
    requires ReadsHeader(accepts) && |head| >= 4 && Size(head) == -4
    ensures Received(accepts, [], [head + more]).frames == [[]]
            && Received(accepts, [], [head, more]).frames == [[], []]
  {
    SizeStays(head, more);
    MinusFourTurn(accepts, head);
    MinusFourTurn(accepts, head + more);
    ReceivedOne(accepts, [], head + more);
    assert [] + (head + more) == head + more;
    ReceivedTwo(accepts, head, more);
  }

  lemma MinusFourTurn(accepts: Bytes -> bool, b: Bytes)
    requires ReadsHeader(accepts) && |b| >= 4 && Size(b) == -4
    ensures Decode(accepts, b) == Decoded([[]], b, true)
  {
    assert FrameOf(b) == [] && RestOf(b) == b[0..] == b;
    assert !accepts([]);
  }

  /** Any stream that opens with a size of -4 or less and goes on: cut after that size, it is not what it is whole. */
  lemma SizesBackChunksMatter(accepts: Bytes -> bool, r: Bytes)
    requires ReadsHeader(accepts) && |r| > 4 && Size(r) <= -4
    ensures var d, e := Received(accepts, [], [r]), Received(accepts, [], [r[..4], r[4..]]);
            d.frames != e.frames || d.rest != e.rest
  {
    var head, tail := r[..4], r[4..];
    assert r == head + tail && [] + r == r;
    SizeStays(head, tail);
    CountsBackAlone(accepts, head);
    ReceivedOne(accepts, [], r);
    ReceivedTwo(accepts, head, tail);
    CutAfterSize(accepts, r);
  }

  /** A size of -5 at the end of a stream: handed over once and left as its last byte, however it is cut. */
  lemma MinusFiveAlone(accepts: Bytes -> bool, r: Bytes)
    requires ReadsHeader(accepts) && r == [0xff, 0xff, 0xff, 0xfb]
    ensures ChunkFree(accepts, r) && Decode(accepts, r) == Decoded([[]], [0xfb], true)
  {
    assert Size(r) == -5;
    CountsBackAlone(accepts, r);
    assert r[3..] == [0xfb];
    ChunksDoNotMatterIff(accepts, r);
  }
}
