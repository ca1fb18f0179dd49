/** What is kept of a stack: all of it, line by line, but for what lies past the limits. */
module StackParts {
  import opened Texts
  import opened ErrorSerializer

  // ----- lines

  ghost predicate HasNewline(t: Text) {
    exists i :: 0 <= i < |t| && t[i] == NEWLINE
  }

  lemma {:induction false} FirstNewlineFound(t: Text)
    ensures !HasNewline(t[..FirstNewline(t)])
    ensures FirstNewline(t) < |t| ==> t[FirstNewline(t)] == NEWLINE
  {
    if t != [] && t[0] != NEWLINE {
      FirstNewlineFound(t[1..]);
      var n := FirstNewline(t);
      assert forall i | 0 < i < n :: t[..n][i] == t[1..][..n - 1][i - 1];
    }
  }

  /** A text is split at its line ends, and joined again is what it was. */
  lemma {:induction false} LinesJoin(t: Text)
    ensures Unlines(Lines(t)) == t
    ensures forall i | 0 <= i < |Lines(t)| :: !HasNewline(Lines(t)[i])
    decreases |t|
  {
    var n := FirstNewline(t);
    FirstNewlineFound(t);
    if n == |t| {
      assert t[..n] == t;
    } else {
      LinesJoin(t[n + 1..]);
      assert t == t[..n] + [NEWLINE] + t[n + 1..];
      assert Lines(t)[1..] == Lines(t[n + 1..]);
    }
  }

  lemma {:induction false} UnlinesSplit(a: seq<Text>, b: seq<Text>)
    requires a != [] && b != []
    ensures Unlines(a + b) == Unlines(a) + [NEWLINE] + Unlines(b)
  {
    if |a| == 1 {
      assert (a + b)[1..] == b;
    } else {
      assert (a + b)[1..] == a[1..] + b;
      UnlinesSplit(a[1..], b);
      GroupFour(a[0] + [NEWLINE], Unlines(a[1..]), [NEWLINE], Unlines(b));
    }
  }

  // ----- frames

  /** White space, at least some of it, and `at ` right after it. */
  ghost predicate LooksLikeFrame(line: Text) {
    exists n :: FrameMarkAt(line, n)
  }

  ghost predicate FrameMarkAt(line: Text, n: nat) {
    && 0 < n && n + 3 <= |line| && (forall i | 0 <= i < n :: IsWhitespace(line[i]))
    && line[n] == 0x61 && line[n + 1] == 0x74 && line[n + 2] == SPACE
  }

  lemma {:induction false} IndentIs(line: Text)
    ensures forall i | 0 <= i < Indent(line) :: IsWhitespace(line[i])
    ensures Indent(line) < |line| ==> !IsWhitespace(line[Indent(line)])
  {
    if line != [] && IsWhitespace(line[0]) { IndentIs(line[1..]); }
  }

  lemma IsFrameIff(line: Text)
    ensures IsFrame(line) <==> LooksLikeFrame(line)
  {
    var n := Indent(line);
    IndentIs(line);
    if IsFrame(line) {
      var mark := line[n..n + 3];
      assert mark[0] == line[n] && mark[1] == line[n + 1] && mark[2] == line[n + 2];
      assert FrameMarkAt(line, n);
    }
    if k: nat :| FrameMarkAt(line, k) {
      assert !IsWhitespace(line[k]) && n == k;
      assert line[n..n + 3] == [0x61, 0x74, 0x20];
    }
  }

  /** The first `n` lines are no frames, and the one after them is, if there is one. */
  ghost predicate FramesFrom(lines: seq<Text>, n: nat) {
    && n <= |lines| && (forall i | 0 <= i < n :: !LooksLikeFrame(lines[i]))
    && (n < |lines| ==> LooksLikeFrame(lines[n]))
  }

  lemma {:induction false} FirstFrameIs(lines: seq<Text>)
    ensures FramesFrom(lines, FirstFrame(lines))
  {
    if lines != [] {
      IsFrameIff(lines[0]);
      if !IsFrame(lines[0]) {
        FirstFrameIs(lines[1..]);
        forall i | 1 <= i < FirstFrame(lines) ensures !LooksLikeFrame(lines[i]) {
          assert lines[i] == lines[1..][i - 1];
        }
      }
    }
  }

  // ----- a stack

  /** What of a stack is looked at: all of it, or the whole lines of its scanned part with the marker after them. */
  ghost predicate Scanned(stack: Text, text: Text) {
    if |stack| <= MAX_STACK_SCAN then text == stack
    else exists end: nat :: CutAt(stack, end) && text == stack[..end] + LogScrub.TRUNCATED_MESSAGE
  }

  /** The scanned part's last line begins here. */
  ghost predicate CutAt(stack: Text, end: nat) {
    && end <= MAX_STACK_SCAN < |stack| && (end > 0 ==> stack[end - 1] == NEWLINE)
    && forall i | end <= i < MAX_STACK_SCAN :: stack[i] != NEWLINE
  }

  /** The lines before the last, each with its line end. */
  ghost function BeforeLast(lines: seq<Text>): Text
    requires lines != []
  {
    if |lines| == 1 then [] else Unlines(lines[..|lines| - 1]) + [NEWLINE]
  }

  lemma LastOf(lines: seq<Text>)
    requires lines != []
    ensures Unlines(lines) == BeforeLast(lines) + lines[|lines| - 1]
  {
    var n := |lines| - 1;
    if n > 0 {
      assert lines == lines[..n] + [lines[n]];
      UnlinesSplit(lines[..n], [lines[n]]);
    }
  }

  lemma CutLines(stack: Text)
    requires |stack| > MAX_STACK_SCAN
    ensures Scanned(stack, Unlines(ScannedLines(stack)))
  {
    var lines := Lines(stack[..MAX_STACK_SCAN]);
    var n := |lines| - 1;
    LinesJoin(stack[..MAX_STACK_SCAN]);
    LastOf(lines);
    LastOf(ScannedLines(stack));
    assert ScannedLines(stack)[..n] == lines[..n];
    CutAfter(stack, BeforeLast(lines), lines[n]);
  }

  lemma CutAfter(stack: Text, kept: Text, last: Text)
    requires |stack| > MAX_STACK_SCAN && stack[..MAX_STACK_SCAN] == kept + last && !HasNewline(last)
    requires kept != [] ==> kept[|kept| - 1] == NEWLINE
    ensures CutAt(stack, |kept|) && stack[..|kept|] == kept
  {
    NoNewlineAfter(stack, kept, last);
    assert stack[..|kept|] == (kept + last)[..|kept|];
    assert kept != [] ==> stack[|kept| - 1] == (kept + last)[|kept| - 1];
  }

  lemma NoNewlineAfter(stack: Text, kept: Text, last: Text)
    requires |stack| > MAX_STACK_SCAN && stack[..MAX_STACK_SCAN] == kept + last && !HasNewline(last)
    ensures forall i | |kept| <= i < MAX_STACK_SCAN :: stack[i] != NEWLINE
  {
    forall i | |kept| <= i < MAX_STACK_SCAN ensures stack[i] != NEWLINE {
      assert stack[i] == (kept + last)[i] == last[i - |kept|];
    }
  }

  /** A text's lines up to `first` are its head, those from there to `end` its frames, and the rest is dropped. */
  ghost predicate Divided(text: Text, lines: seq<Text>, first: nat, end: nat, head: Text, frames: Option<Text>) {
    && first <= end <= |lines| && Unlines(lines) == text && (forall i | 0 <= i < |lines| :: !HasNewline(lines[i]))
    && FramesFrom(lines, first)
    && end - first <= MAX_STACK_FRAMES && (end < |lines| ==> end - first == MAX_STACK_FRAMES)
    && head == Unlines(lines[..first])
    && frames == (if first == end then None else Some(Unlines(lines[first..end])))
  }

  lemma ScannedIs(stack: Text)
    ensures Scanned(stack, Unlines(ScannedLines(stack)))
    ensures forall i | 0 <= i < |ScannedLines(stack)| :: !HasNewline(ScannedLines(stack)[i])
  {
    if |stack| > MAX_STACK_SCAN {
      CutLines(stack);
      LinesJoin(stack[..MAX_STACK_SCAN]);
    } else {
      LinesJoin(stack);
    }
  }

  /**
   * A stack is its head, all before the first line that looks like a frame, and at most fifty lines
   * from there on; only lines past those are dropped, and what lies past the scanned part.
   */
  lemma StackInParts(stack: Text) returns (text: Text, lines: seq<Text>, first: nat, end: nat)
    ensures Scanned(stack, text) && Divided(text, lines, first, end, RawHead(stack), RawFrames(stack))
  {
    ScannedIs(stack);
    lines := ScannedLines(stack);
    text := Unlines(lines);
    first := FirstFrame(lines);
    end := if |lines| - first > MAX_STACK_FRAMES then first + MAX_STACK_FRAMES else |lines|;
    FirstFrameIs(lines);
  }

  /** A stack within the limits is kept whole: its head, a line end where there are frames after it, and those. */
  lemma ShortStackWhole(stack: Text)
    requires |stack| <= MAX_STACK_SCAN && |Lines(stack)| <= MAX_STACK_FRAMES
    ensures match RawFrames(stack)
            case None => RawHead(stack) == stack
            case Some(frames) => stack == if FirstFrame(Lines(stack)) == 0 then frames
                                          else RawHead(stack) + [NEWLINE] + frames
  {
    var lines := Lines(stack);
    var first := FirstFrame(lines);
    LinesJoin(stack);
    assert lines == lines[..first] + lines[first..] && lines[first..|lines|] == lines[first..];
    if 0 < first < |lines| {
      UnlinesSplit(lines[..first], lines[first..]);
    } else if first == 0 {
      assert lines[0..] == lines;
    } else {
      assert lines[..first] == lines;
    }
  }
}
