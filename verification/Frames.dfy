/**
 * Length-framed requests on a connection: bytes arrive in chunks of any size, and each frame is
 * handed over once its length and all of it are there. The handler throws on a frame it cannot read,
 * which ends the turn: `accepts` says which frames it can.
 */
module Frames {
  import opened Texts
  import opened LengthPrefix

  /** `readInt32BE(0)`: two's complement. */
  function Size(b: Bytes): int
    requires |b| >= 4
  {
    var b0: int, b1: int, b2: int, b3: int := b[0], b[1], b[2], b[3];
    var n := 0x100_0000 * b0 + 0x1_0000 * b1 + 0x100 * b2 + b3;
    if n < 0x8000_0000 then n else n - 0x1_0000_0000
  }

  /** An index of `subarray`: a negative one counts from the end. */
  function Clamped(i: int, n: nat): nat {
    if i < 0 then (if n + i < 0 then 0 else n + i) else if i > n then n else i
  }

  function Subarray(b: Bytes, start: int, end: int): Bytes {
    var s, e := Clamped(start, |b|), Clamped(end, |b|);
    if s <= e then b[s..e] else []
  }

  /** The loop's test: a length is there, and as many bytes as it says. */
  predicate HasFrame(b: Bytes) {
    |b| >= 4 && |b| >= 4 + Size(b)
  }

  function FrameOf(b: Bytes): Bytes
    requires HasFrame(b)
  {
    Subarray(b, 4, 4 + Size(b))
  }

  function RestOf(b: Bytes): Bytes
    requires HasFrame(b)
  {
    Subarray(b, 4 + Size(b), |b|)
  }

  /** The handler reads two 16-bit numbers, a 32-bit one and a string's length before anything else. */
  ghost predicate ReadsHeader(accepts: Bytes -> bool) {
    forall f | accepts(f) :: |f| >= 10
  }

  /** A frame that is not empty takes bytes with it. */
  lemma FrameTakesBytes(b: Bytes)
    requires HasFrame(b) && FrameOf(b) != []
    ensures |RestOf(b)| < |b|
  {
  }

  /** Frames handed over, in order, what is left, and whether the last of them was refused. */
  datatype Decoded = Decoded(frames: seq<Bytes>, rest: Bytes, threw: bool)

  /** One turn of the loop until no frame is left or the handler throws. */
  function Decode(accepts: Bytes -> bool, b: Bytes): Decoded
    requires ReadsHeader(accepts)
    decreases |b|
  {
    if !HasFrame(b) then Decoded([], b, false)
    else if !accepts(FrameOf(b)) then Decoded([FrameOf(b)], RestOf(b), true)
    else
      FrameTakesBytes(b);
      var more := Decode(accepts, RestOf(b));
      more.(frames := [FrameOf(b)] + more.frames)
  }

  /** One connection: the bytes not handed over yet, and the frames that were. */
  class Connection {
    var buffered: Bytes
    var handled: seq<Bytes>

    constructor ()
      ensures buffered == [] && handled == []
    {
      buffered, handled := [], [];
    }

    /** A chunk arrives. The frame is taken off the buffer before the handler, which may throw, gets it. */
    method Data(accepts: Bytes -> bool, chunk: Bytes) returns (threw: bool)
      requires ReadsHeader(accepts)
      modifies this
      ensures var d := Decode(accepts, old(buffered) + chunk);
              handled == old(handled) + d.frames && buffered == d.rest && threw == d.threw
    {
      buffered := buffered + chunk;
      ghost var all := buffered;
      threw := false;
      while HasFrame(buffered)
        invariant old(handled) + Decode(accepts, all).frames == handled + Decode(accepts, buffered).frames
        invariant Decode(accepts, all).rest == Decode(accepts, buffered).rest
        invariant Decode(accepts, all).threw == Decode(accepts, buffered).threw
        decreases |buffered|
      {
        var frame := FrameOf(buffered);
        if accepts(frame) {
          FrameTakesBytes(buffered);
          Group(handled, [frame], Decode(accepts, RestOf(buffered)).frames);
        }
        buffered := RestOf(buffered);
        handled := handled + [frame];
        if !accepts(frame) {
          return true;
        }
      }
    }
  }

  // ----- the frames of a stream, whatever the handler makes of them

  /** A size of -4 or less: it counts back from the end of what is buffered, so what it takes depends on that. */
  predicate CountsBack(b: Bytes) {
    |b| >= 4 && Size(b) <= -4
  }

  /** The frames of a stream up to a size that counts back, and what is left. */
  ghost function AllFrames(b: Bytes): (seq<Bytes>, Bytes)
    decreases |b|
  {
    if !HasFrame(b) || CountsBack(b) then ([], b)
    else
      var more := AllFrames(RestOf(b));
      ([FrameOf(b)] + more.0, more.1)
  }

  lemma SizeStays(a: Bytes, c: Bytes)
    requires |a| >= 4
    ensures Size(a + c) == Size(a)
  {
    var t := a + c;
    assert t[0] == a[0] && t[1] == a[1] && t[2] == a[2] && t[3] == a[3];
  }

  lemma FrameStays(a: Bytes, c: Bytes)
    requires HasFrame(a) && !CountsBack(a)
    ensures HasFrame(a + c) && !CountsBack(a + c)
    ensures FrameOf(a + c) == FrameOf(a) && RestOf(a + c) == RestOf(a) + c && |RestOf(a)| < |a|
  {
    var t := a + c;
    SizeStays(a, c);
    var n := 4 + Size(a);
    assert RestOf(a) == a[n..] && RestOf(t) == t[n..];
    if n >= 4 { assert FrameOf(a) == a[4..n] && FrameOf(t) == t[4..n]; }
  }

  /** What is left has no frame, or a size that counts back. */
  lemma {:induction false} LeftOver(b: Bytes)
    ensures HasFrame(AllFrames(b).1) <==> CountsBack(AllFrames(b).1)
    decreases |b|
  {
    if HasFrame(b) && !CountsBack(b) { LeftOver(RestOf(b)); }
  }

  lemma CountsBackStays(a: Bytes, c: Bytes)
    requires CountsBack(a)
    ensures CountsBack(a + c) && AllFrames(a + c) == ([], a + c)
  {
    SizeStays(a, c);
  }

  /** The frames of the first part, and then those of what is left of it with the second. */
  lemma {:induction false} FramesInParts(a: Bytes, c: Bytes)
    ensures var (fs, rest) := AllFrames(a);
            AllFrames(a + c) == (fs + AllFrames(rest + c).0, AllFrames(rest + c).1)
    decreases |a|
  {
    if HasFrame(a) && !CountsBack(a) {
      FrameStays(a, c);
      FramesInParts(RestOf(a), c);
      var (fs, rest) := AllFrames(RestOf(a));
      Group([FrameOf(a)], fs, AllFrames(rest + c).0);
    } else {
      assert [] + AllFrames(a + c).0 == AllFrames(a + c).0;
    }
  }

  // ----- one turn hands over the frames up to the first that is refused

  ghost function UpToRefused(accepts: Bytes -> bool, frames: seq<Bytes>): seq<Bytes> {
    if frames == [] then []
    else if !accepts(frames[0]) then [frames[0]]
    else [frames[0]] + UpToRefused(accepts, frames[1..])
  }

  ghost predicate AllAccepted(accepts: Bytes -> bool, frames: seq<Bytes>) {
    forall i | 0 <= i < |frames| :: accepts(frames[i])
  }

  /** Only the last frame, if any, is refused. */
  ghost predicate AllButLastAccepted(accepts: Bytes -> bool, frames: seq<Bytes>) {
    forall i | 0 <= i < |frames| - 1 :: accepts(frames[i])
  }

  lemma AcceptedSplit(accepts: Bytes -> bool, first: Bytes, more: seq<Bytes>)
    ensures AllAccepted(accepts, [first] + more) <==> accepts(first) && AllAccepted(accepts, more)
  {
    var all := [first] + more;
    if AllAccepted(accepts, all) {
      assert accepts(all[0]);
      forall i | 0 <= i < |more| ensures accepts(more[i]) { assert all[i + 1] == more[i]; }
    }
  }

  /** A turn over frames that are all accepted goes on with what is left. */
  lemma {:induction false} TurnGoesOn(accepts: Bytes -> bool, b: Bytes)
    requires ReadsHeader(accepts) && AllAccepted(accepts, AllFrames(b).0)
    ensures var (fs, rest) := AllFrames(b);
            var d := Decode(accepts, rest);
            Decode(accepts, b) == d.(frames := fs + d.frames)
    decreases |b|
  {
    if HasFrame(b) && !CountsBack(b) {
      var (fs, rest) := AllFrames(RestOf(b));
      AcceptedSplit(accepts, FrameOf(b), fs);
      TurnGoesOn(accepts, RestOf(b));
      Group([FrameOf(b)], fs, Decode(accepts, rest).frames);
    } else {
      assert [] + Decode(accepts, b).frames == Decode(accepts, b).frames;
    }
  }

  /** A turn over frames of which one is refused ends there. */
  lemma {:induction false} TurnEnds(accepts: Bytes -> bool, b: Bytes)
    requires ReadsHeader(accepts) && !AllAccepted(accepts, AllFrames(b).0)
    ensures Decode(accepts, b).threw && Decode(accepts, b).frames == UpToRefused(accepts, AllFrames(b).0)
    decreases |b|
  {
    var (fs, rest) := AllFrames(RestOf(b));
    var all := AllFrames(b).0;
    AcceptedSplit(accepts, FrameOf(b), fs);
    assert all[0] == FrameOf(b) && all[1..] == fs;
    if accepts(FrameOf(b)) { TurnEnds(accepts, RestOf(b)); }
  }

  lemma TailAccepted(accepts: Bytes -> bool, frames: seq<Bytes>)
    requires frames != [] && AllButLastAccepted(accepts, frames)
    ensures AllButLastAccepted(accepts, frames[1..])
  {
    forall i | 0 <= i < |frames[1..]| - 1 ensures accepts(frames[1..][i]) { assert frames[1..][i] == frames[i + 1]; }
  }

  /** Where only the last frame of a stream may be refused, one turn hands over all and leaves what is left. */
  lemma {:induction false} TurnHandsOver(accepts: Bytes -> bool, b: Bytes)
    requires ReadsHeader(accepts) && !HasFrame(AllFrames(b).1) && AllButLastAccepted(accepts, AllFrames(b).0)
    ensures (Decode(accepts, b).frames, Decode(accepts, b).rest) == AllFrames(b)
    decreases |b|
  {
    if HasFrame(b) {
      var more := AllFrames(RestOf(b)).0;
      var all := AllFrames(b).0;
      assert all[0] == FrameOf(b) && all[1..] == more;
      TailAccepted(accepts, all);
      TurnHandsOver(accepts, RestOf(b));
      if accepts(FrameOf(b)) {
        assert Decode(accepts, b).frames == all;
      } else {
        assert |all| <= 1;
        assert AllFrames(RestOf(b)) == ([], RestOf(b));
        assert all == [FrameOf(b)];
      }
    }
  }

  lemma {:induction false} UpToRefusedIff(accepts: Bytes -> bool, frames: seq<Bytes>)
    ensures UpToRefused(accepts, frames) == frames <==> AllButLastAccepted(accepts, frames)
    ensures |UpToRefused(accepts, frames)| <= |frames|
  {
    if frames != [] {
      var rest := frames[1..];
      UpToRefusedIff(accepts, rest);
      assert frames == [frames[0]] + rest;
      if AllButLastAccepted(accepts, frames) { TailAccepted(accepts, frames); }
      if AllButLastAccepted(accepts, rest) && accepts(frames[0]) {
        forall i | 0 <= i < |frames| - 1 ensures accepts(frames[i]) { assert i > 0 ==> frames[i] == rest[i - 1]; }
      }
      if accepts(frames[0]) {
        assert UpToRefused(accepts, frames)[1..] == UpToRefused(accepts, rest);
      }
    }
  }

  // ----- what was framed comes out

  ghost predicate Framable(frames: seq<Bytes>) {
    forall i | 0 <= i < |frames| :: |frames[i]| < 0x8000_0000
  }

  function Framed(frames: seq<Bytes>): Bytes
    requires Framable(frames)
  {
    if frames == [] then [] else Encode(frames[0]) + Framed(frames[1..])
  }

  lemma SizeOfFramed(frame: Bytes, rest: Bytes)
    requires |frame| < 0x8000_0000
    ensures var b := Encode(frame) + rest;
            HasFrame(b) && Size(b) == |frame| && FrameOf(b) == frame && RestOf(b) == rest
  {
    var b := Encode(frame) + rest;
    var n := LengthBytes(|frame|);
    assert b[0] == n[0] && b[1] == n[1] && b[2] == n[2] && b[3] == n[3];
    Base256(|frame|);
    assert b[4..4 + |frame|] == frame && b[4 + |frame|..] == rest;
  }

  /** The frames of a stream of written frames are those frames, with nothing left. */
  lemma {:induction false} FramedRoundTrip(frames: seq<Bytes>)
    requires Framable(frames)
    ensures AllFrames(Framed(frames)) == (frames, [])
  {
    if frames != [] {
      forall i | 0 <= i < |frames[1..]| ensures |frames[1..][i]| < 0x8000_0000 {
        assert frames[1..][i] == frames[i + 1];
      }
      FramedRoundTrip(frames[1..]);
      SizeOfFramed(frames[0], Framed(frames[1..]));
      assert [frames[0]] + frames[1..] == frames;
    }
  }
}
