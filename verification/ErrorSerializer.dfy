/**
 * Errors as they are logged: a graph of objects, perhaps with cycles, written as a tree of bounded
 * depth and width, every text in it scrubbed. `scrub` stands for `scrubMessage`.
 */
module ErrorSerializer {
  import opened Texts
  import Ranges
  import opened LogScrub
  import opened LogScrubProofs
  import opened LogMessages

  const SCRUB_MESSAGE_MAX := 4096
  const MAX_ERROR_CAUSE_DEPTH: nat := 3
  const MAX_AGGREGATE_ERRORS: nat := 10
  const MAX_STACK_FRAMES: nat := 50
  const MAX_STACK_SCAN: nat := 64 * 1024

  // ----- stacks

  function FirstNewline(t: Text): (n: nat)
    ensures n <= |t|
  {
    if t == [] || t[0] == NEWLINE then 0 else 1 + FirstNewline(t[1..])
  }

  /** `text.split('\n')`. */
  function Lines(t: Text): (lines: seq<Text>)
    ensures lines != []
    decreases |t|
  {
    var n := FirstNewline(t);
    if n == |t| then [t] else [t[..n]] + Lines(t[n + 1..])
  }

  function Unlines(lines: seq<Text>): Text {
    if lines == [] then [] else if |lines| == 1 then lines[0] else lines[0] + [NEWLINE] + Unlines(lines[1..])
  }

  function Indent(t: Text): (n: nat)
    ensures n <= |t|
  {
    if t == [] || !IsWhitespace(t[0]) then 0 else 1 + Indent(t[1..])
  }

  /** `/^\s+at /`: what follows the leading whitespace is `at `. */
  predicate IsFrame(line: Text) {
    var n := Indent(line);
    n > 0 && StartsAt(line, [0x61, 0x74, 0x20], n)
  }

  function FirstFrame(lines: seq<Text>): (n: nat)
    ensures n <= |lines|
  {
    if lines == [] || IsFrame(lines[0]) then 0 else 1 + FirstFrame(lines[1..])
  }

  /** The lines looked at: all of them, or those of the scanned part with the cut one replaced by the marker. */
  function ScannedLines(stack: Text): seq<Text> {
    if |stack| > MAX_STACK_SCAN then
      var lines := Lines(stack[..MAX_STACK_SCAN]);
      lines[|lines| - 1 := TRUNCATED_MESSAGE]
    else Lines(stack)
  }

  /** What comes before the first frame. */
  function RawHead(stack: Text): Text {
    var lines := ScannedLines(stack);
    Unlines(lines[..FirstFrame(lines)])
  }

  /** At most so many lines from the first frame on; nothing where there is no frame. */
  function RawFrames(stack: Text): Option<Text> {
    var lines := ScannedLines(stack);
    var first := FirstFrame(lines);
    var end := if |lines| - first > MAX_STACK_FRAMES then first + MAX_STACK_FRAMES else |lines|;
    if end == first then None else Some(Unlines(lines[first..end]))
  }

  function StackHead(scrub: Text -> Text, stack: Text): Text {
    scrub(RawHead(stack))
  }

  function StackFrames(scrub: Text -> Text, stack: Text): Option<Text> {
    var frames := RawFrames(stack);
    if frames.None? then None else Some(scrub(frames.value))
  }

  /** `scrubStack`. */
  function ScrubStack(scrub: Text -> Text, stack: Text): Text {
    var head, frames := StackHead(scrub, stack), StackFrames(scrub, stack);
    if frames.None? then head else head + [NEWLINE] + frames.value
  }

  // ----- errors

  /** A value: text, another primitive, nothing, or an object of the graph. */
  datatype Value = String(text: Text) | Primitive | Nothing | Object(id: nat)

  /** What is read of an object, each property once; a getter that throws reads as nothing. */
  datatype Node = Node(
    typeName: Text, message: Value, stack: Value, allowed: seq<Value>, cause: Value, errors: Option<seq<Value>>)

  datatype Serialized =
    | Written(text: Text)
    | Kept
    | Error(typeName: Text, message: Option<Text>, stack: Option<Text>, properties: seq<Option<Text>>,
            cause: Option<Serialized>, members: seq<Serialized>)

  function ScrubbedText(scrub: Text -> Text, v: Value): Option<Text> {
    if v.String? then Some(scrub(v.text)) else None
  }

  function ScrubbedTexts(scrub: Text -> Text, vs: seq<Value>): (r: seq<Option<Text>>)
    ensures |r| == |vs|
  {
    if vs == [] then [] else [ScrubbedText(scrub, vs[0])] + ScrubbedTexts(scrub, vs[1..])
  }

  /** The message, with the cause's after it where both are texts. */
  function WithCause(message: Option<Text>, cause: Option<Serialized>): Option<Text> {
    if message.Some? && cause.Some? && cause.value.Error? && cause.value.message.Some?
    then Some(message.value + [COLON, SPACE] + cause.value.message.value) else message
  }

  function FirstTen(members: seq<Value>): seq<Value> {
    if |members| > MAX_AGGREGATE_ERRORS then members[..MAX_AGGREGATE_ERRORS] else members
  }

  /** `serialize`: whatever the graph, the depth bounds it. */
  function Serialize(scrub: Text -> Text, graph: nat -> Node, v: Value, depth: nat): Serialized
    requires depth <= MAX_ERROR_CAUSE_DEPTH
    decreases MAX_ERROR_CAUSE_DEPTH - depth, 1, 0
  {
    match v
    case String(t) => Written(scrub(t))
    case Primitive => Kept
    case Nothing => Kept
    case Object(id) =>
      var node := graph(id);
      var cause :=
        if depth < MAX_ERROR_CAUSE_DEPTH && !node.cause.Nothing?
            then Some(Serialize(scrub, graph, node.cause, depth + 1)) else None;
      var members :=
        if depth < MAX_ERROR_CAUSE_DEPTH && node.errors.Some?
        then SerializeAll(scrub, graph, FirstTen(node.errors.value), depth + 1) else [];
      Error(scrub(node.typeName), WithCause(ScrubbedText(scrub, node.message), cause),
            if node.stack.String? then Some(ScrubStack(scrub, node.stack.text)) else None,
            ScrubbedTexts(scrub, node.allowed), cause, members)
  }

  function SerializeAll(scrub: Text -> Text, graph: nat -> Node, vs: seq<Value>, depth: nat): (r: seq<Serialized>)
    requires depth <= MAX_ERROR_CAUSE_DEPTH
    ensures |r| == |vs|
    decreases MAX_ERROR_CAUSE_DEPTH - depth, 2, |vs|
  {
    if vs == [] then [] else [Serialize(scrub, graph, vs[0], depth)] + SerializeAll(scrub, graph, vs[1..], depth)
  }

  // ----- how much is written

  function Nodes(s: Serialized): nat {
    match s
    case Error(_, _, _, _, cause, members) =>
      1 + (if cause.Some? then Nodes(cause.value) else 0) + NodesOf(members)
    case _ => 1
  }

  function NodesOf(ss: seq<Serialized>): nat {
    if ss == [] then 0 else Nodes(ss[0]) + NodesOf(ss[1..])
  }

  /** The most nodes a value at a depth becomes: itself, its cause and ten members. */
  function MostNodes(depth: nat): nat
    requires depth <= MAX_ERROR_CAUSE_DEPTH
    decreases MAX_ERROR_CAUSE_DEPTH - depth
  {
    if depth == MAX_ERROR_CAUSE_DEPTH then 1 else 1 + 11 * MostNodes(depth + 1)
  }

  lemma {:induction false} NodesBound(scrub: Text -> Text, graph: nat -> Node, v: Value, depth: nat)
    requires depth <= MAX_ERROR_CAUSE_DEPTH
    ensures Nodes(Serialize(scrub, graph, v, depth)) <= MostNodes(depth)
    decreases MAX_ERROR_CAUSE_DEPTH - depth, 1, 0
  {
    if v.Object? && depth < MAX_ERROR_CAUSE_DEPTH {
      var node, s := graph(v.id), Serialize(scrub, graph, v, depth);
      NodesBound(scrub, graph, node.cause, depth + 1);
      if node.errors.Some? { AllNodesBound(scrub, graph, FirstTen(node.errors.value), depth + 1); }
      ErrorNodes(s, MostNodes(depth + 1));
    }
  }

  lemma ErrorNodes(s: Serialized, most: nat)
    requires s.Error? && (s.cause.Some? ==> Nodes(s.cause.value) <= most) && NodesOf(s.members) <= 10 * most
    ensures Nodes(s) <= 1 + 11 * most
  {
  }

  lemma {:induction false} AllNodesBound(scrub: Text -> Text, graph: nat -> Node, vs: seq<Value>, depth: nat)
    requires depth <= MAX_ERROR_CAUSE_DEPTH && |vs| <= 10
    ensures NodesOf(SerializeAll(scrub, graph, vs, depth)) <= |vs| * MostNodes(depth) <= 10 * MostNodes(depth)
    decreases MAX_ERROR_CAUSE_DEPTH - depth, 2, |vs|
  {
    if vs != [] {
      NodesBound(scrub, graph, vs[0], depth);
      AllNodesBound(scrub, graph, vs[1..], depth);
      var rest := SerializeAll(scrub, graph, vs[1..], depth);
      assert SerializeAll(scrub, graph, vs, depth)[1..] == rest;
      OneMore(|vs| - 1, MostNodes(depth));
    }
  }

  lemma OneMore(n: nat, most: nat)
    requires n < 10
    ensures (n + 1) * most == n * most + most <= 10 * most
  {
  }

  /** Whatever is thrown, cycles included, no more than this many nodes are written. */
  lemma AtMost1464Nodes(scrub: Text -> Text, graph: nat -> Node, v: Value)
    ensures Nodes(Serialize(scrub, graph, v, 0)) <= 1464
  {
    NodesBound(scrub, graph, v, 0);
    assert MostNodes(3) == 1 && MostNodes(2) == 12 && MostNodes(1) == 133;
  }

  // ----- what is written

  /** A text that passed through the scrubbing of one message. */
  ghost predicate Tame(t: Text) {
    Scrubbed(t) && |t| <= 4108
  }

  ghost predicate ScrubsErrors(scrub: Text -> Text) {
    forall t :: scrub(t) == Message(t, SCRUB_MESSAGE_MAX)
  }

  ghost predicate TamesAll(scrub: Text -> Text) {
    forall t :: Tame(scrub(t))
  }

  lemma ScrubbingTames(scrub: Text -> Text)
    requires ScrubsErrors(scrub)
    ensures TamesAll(scrub)
  {
    forall t ensures Tame(scrub(t)) { MessageScrubbed(t, SCRUB_MESSAGE_MAX); }
  }

  /** A stack: one tame text, or two on either side of a line end. */
  ghost predicate TameStack(t: Text) {
    Tame(t) || exists a, b :: Tame(a) && Tame(b) && t == a + [NEWLINE] + b
  }

  /** The longest a message can be at a depth: its own text, and its cause's after a colon and a space. */
  function MostMessage(depth: nat): nat
    requires depth <= MAX_ERROR_CAUSE_DEPTH
    decreases MAX_ERROR_CAUSE_DEPTH - depth
  {
    if depth == MAX_ERROR_CAUSE_DEPTH then 4108 else 4108 + 2 + MostMessage(depth + 1)
  }

  /** Every text of the tree is scrubbed and bounded. */
  ghost predicate AllTame(s: Serialized, depth: nat)
    requires depth <= MAX_ERROR_CAUSE_DEPTH
    decreases s
  {
    match s
    case Written(t) => Tame(t)
    case Kept => true
    case Error(typeName, message, stack, properties, cause, members) =>
      && Tame(typeName)
      && (message.Some? ==> Scrubbed(message.value) && |message.value| <= MostMessage(depth))
      && (stack.Some? ==> TameStack(stack.value))
      && (forall i | 0 <= i < |properties| && properties[i].Some? :: Tame(properties[i].value))
      && (cause.Some? ==> depth < MAX_ERROR_CAUSE_DEPTH && AllTame(cause.value, depth + 1))
      && |members| <= MAX_AGGREGATE_ERRORS
      && (forall i | 0 <= i < |members| :: depth < MAX_ERROR_CAUSE_DEPTH && AllTame(members[i], depth + 1))
  }

  // ----- a message and its cause's

  /** `a`, a colon and a space, and `b`. */
  ghost predicate Continued(t: Text, a: Text, b: Text) {
    Agree(t, a, |a|) && |t| >= |a| + 2 && t[|a|] == COLON && t[|a| + 1] == SPACE && Follows(t, |a| + 2, b)
  }

  lemma ContinuedSettled(t: Text, a: Text, b: Text)
    requires Continued(t, a, b) && Settled(a) && Settled(b)
    ensures Settled(t)
  {
    forall n | IsConn(t, n) ensures t[n.colon + 1..n.at] == Ranges.REDACTED_TEXT {
      NoWhitespaceIn(t, n, |a| + 1);
      if n.at < |a| {
        PasswordShared(t, a, |a|, n);
      } else {
        PasswordMoves(t, |a| + 2, b, n);
      }
    }
  }

  lemma AuthBeforeColon(t: Text, n: Auth, k: nat)
    requires IsAuth(t, n) && n.at < k < |t| && t[k] == COLON
    ensures n.token < k || k < n.at
  {
    if k < n.space { SchemeLetter(t, n.at, k - n.at); }
  }

  lemma ContinuedNoAuth(t: Text, a: Text, b: Text)
    requires Continued(t, a, b) && NoAuth(a) && NoAuth(b)
    ensures NoAuth(t)
  {
    var k := |a|;
    forall n ensures !IsAuth(t, n) {
      if IsAuth(t, n) {
        SchemeStart(t, n.at);
        if n.at < k {
          AuthBeforeColon(t, n, k);
          AuthShared(t, a, k, n);
        } else {
          AuthInRest(t, k + 2, b, n);
        }
      }
    }
  }

  /** A message with its cause's after it has nothing to scrub if neither has. */
  lemma ContinuedScrubbed(a: Text, b: Text)
    requires Scrubbed(a) && Scrubbed(b)
    ensures Scrubbed(a + [COLON, SPACE] + b)
  {
    var t := a + [COLON, SPACE] + b;
    assert Continued(t, a, b);
    ContinuedSettled(t, a, b);
    ContinuedNoAuth(t, a, b);
  }

  // ----- a stack's head and its frames

  /** `a`, a line end, and `b`. */
  ghost predicate TwoLines(t: Text, a: Text, b: Text) {
    Agree(t, a, |a|) && |t| == |a| + 1 + |b| && t[|a|] == NEWLINE && Follows(t, |a| + 1, b)
  }

  /** A scheme on a word boundary with nothing but whitespace after it. */
  ghost predicate SchemeHangsAt(a: Text, at: nat) {
    && at < |a| && SchemeLength(a, at) > 0 && (at > 0 ==> !IsWordChar(a[at - 1]))
    && forall i | at + SchemeLength(a, at) <= i < |a| :: IsWhitespace(a[i])
  }

  ghost predicate SchemeHangs(a: Text) {
    exists at :: SchemeHangsAt(a, at)
  }

  /** A character of a token with nothing but whitespace before it. */
  ghost predicate TokenOpensAt(b: Text, at: nat) {
    at < |b| && IsTokenChar(b[at]) && forall i | 0 <= i < at :: IsWhitespace(b[i])
  }

  ghost predicate TokenOpens(b: Text) {
    exists at :: TokenOpensAt(b, at)
  }

  lemma TwoLinesSettled(t: Text, a: Text, b: Text)
    requires TwoLines(t, a, b) && Settled(a) && Settled(b)
    ensures Settled(t)
  {
    forall n | IsConn(t, n) ensures t[n.colon + 1..n.at] == Ranges.REDACTED_TEXT {
      NoWhitespaceIn(t, n, |a|);
      if n.at < |a| {
        PasswordShared(t, a, |a|, n);
      } else {
        PasswordMoves(t, |a| + 1, b, n);
      }
    }
  }

  /** A token found in the whole and in neither line starts in the first and is in the second. */
  lemma AuthRunsAcross(t: Text, a: Text, b: Text, n: Auth)
    requires TwoLines(t, a, b) && NoAuth(a) && NoAuth(b) && IsAuth(t, n)
    ensures n.space <= |a| < n.token
  {
    SchemeStart(t, n.at);
    if n.at > |a| { AuthInRest(t, |a| + 1, b, n); }
    SchemeEndsBefore(t, n, |a|);
    if n.token < |a| { AuthShared(t, a, |a|, n); }
  }

  lemma SchemeOfFirst(t: Text, a: Text, n: Auth)
    requires Agree(t, a, |a|) && IsAuth(t, n) && n.space <= |a| < n.token
    ensures SchemeHangsAt(a, n.at)
  {
    SchemeMoves(t, a, n.at, 0, n.space - n.at);
    forall i | n.space <= i < |a| ensures IsWhitespace(a[i]) { assert t[i] == a[i]; }
  }

  lemma TokenOfSecond(t: Text, k: nat, b: Text, n: Auth)
    requires Follows(t, k, b) && IsAuth(t, n) && n.space < k <= n.token
    ensures TokenOpensAt(b, n.token - k)
  {
    forall i | 0 <= i < n.token - k ensures IsWhitespace(b[i]) { assert t[k + i] == b[i]; }
    assert t[n.token] == b[n.token - k];
  }

  lemma AuthAcrossLines(t: Text, a: Text, b: Text, n: Auth)
    requires TwoLines(t, a, b) && NoAuth(a) && NoAuth(b) && IsAuth(t, n)
    ensures SchemeHangsAt(a, n.at) && n.token > |a| && TokenOpensAt(b, n.token - |a| - 1)
  {
    AuthRunsAcross(t, a, b, n);
    SchemeOfFirst(t, a, n);
    TokenOfSecond(t, |a| + 1, b, n);
  }

  lemma AuthOfLines(t: Text, a: Text, b: Text, at: nat, token: nat)
    requires TwoLines(t, a, b) && SchemeHangsAt(a, at) && TokenOpensAt(b, token)
    ensures IsAuth(t, Auth(at, at + SchemeLength(a, at), |a| + 1 + token))
  {
    var n := SchemeLength(a, at);
    assert at + n <= |a|;
    SchemeMoves(a, t, at, 0, n);
    forall i | at + n <= i < |a| + 1 + token ensures IsWhitespace(t[i]) {
      if i > |a| { assert t[(|a| + 1) + (i - |a| - 1)] == b[i - |a| - 1]; }
    }
    assert t[|a| + 1 + token] == b[token];
  }

  /**
   * Two scrubbed texts on either side of a line end are scrubbed as one text, exactly unless a
   * scheme hangs at the end of the first and a token's character opens the second.
   */
  lemma TwoLinesScrubbedIff(a: Text, b: Text)
    requires Scrubbed(a) && Scrubbed(b)
    ensures Scrubbed(a + [NEWLINE] + b) <==> !(SchemeHangs(a) && TokenOpens(b))
  {
    var t := a + [NEWLINE] + b;
    assert TwoLines(t, a, b);
    TwoLinesSettled(t, a, b);
    if SchemeHangs(a) && TokenOpens(b) {
      var at :| SchemeHangsAt(a, at);
      var token :| TokenOpensAt(b, token);
      AuthOfLines(t, a, b, at, token);
    } else {
      forall n ensures !IsAuth(t, n) {
        if IsAuth(t, n) { AuthAcrossLines(t, a, b, n); }
      }
    }
  }

  /** A stack is written with nothing left to scrub, exactly unless its scrubbed halves make a token. */
  lemma HalvesScrubbedIff(scrub: Text -> Text, stack: Text)
    requires TamesAll(scrub)
    ensures Scrubbed(ScrubStack(scrub, stack)) <==>
            var frames := StackFrames(scrub, stack);
            frames.None? || !SchemeHangs(StackHead(scrub, stack)) || !TokenOpens(frames.value)
  {
    var head, frames := StackHead(scrub, stack), StackFrames(scrub, stack);
    assert Tame(head) && (frames.Some? ==> Tame(frames.value));
    if frames.Some? { TwoLinesScrubbedIff(head, frames.value); }
  }

  const FRAME_LINE: Text := [SPACE, 0x61, 0x74, SPACE]

  lemma HangingScheme()
    ensures Scrubbed(BEARER) && Scrubbed(FRAME_LINE) && !Scrubbed(BEARER + [NEWLINE] + FRAME_LINE)
  {
    assert forall i | 0 <= i < 6 :: Lower(BEARER[i]) == BEARER[i];
    assert SchemeHangsAt(BEARER, 0);
    assert TokenOpensAt(FRAME_LINE, 1);
    TwoLinesScrubbedIff(BEARER, FRAME_LINE);
  }

  lemma {:induction false} LineEndsAt(a: Text, b: Text)
    requires NEWLINE !in a
    ensures FirstNewline(a) == |a| && FirstNewline(a + [NEWLINE] + b) == |a|
  {
    if a != [] {
      LineEndsAt(a[1..], b);
      assert (a + [NEWLINE] + b)[1..] == a[1..] + [NEWLINE] + b;
    }
  }

  lemma TwoLinesSplit(a: Text, b: Text)
    requires NEWLINE !in a && NEWLINE !in b
    ensures Lines(a + [NEWLINE] + b) == [a, b]
  {
    var t := a + [NEWLINE] + b;
    LineEndsAt(a, b);
    LineEndsAt(b, []);
    assert t[..|a|] == a && t[|a| + 1..] == b;
  }

  lemma ShortScrubbedStays(scrub: Text -> Text, t: Text)
    requires ScrubsErrors(scrub) && Scrubbed(t) && |t| <= SCRUB_MESSAGE_MAX
    ensures scrub(t) == t
  {
    ScrubFixesIff(t);
    assert scrub(t) == Message(t, SCRUB_MESSAGE_MAX);
  }

  lemma FrameAfterBearer()
    ensures FirstFrame([BEARER, FRAME_LINE]) == 1
  {
    var lines := [BEARER, FRAME_LINE];
    assert lines[1..] == [FRAME_LINE];
    assert FRAME_LINE[1..][0] == 0x61;
    assert Indent(FRAME_LINE[1..]) == 0 && Indent(FRAME_LINE) == 1;
    assert FRAME_LINE[1..4] == [0x61, 0x74, 0x20];
    assert IsFrame(FRAME_LINE) && !IsFrame(BEARER);
  }

  lemma TwoLineStack(scrub: Text -> Text, stack: Text, a: Text, b: Text)
    requires ScannedLines(stack) == [a, b] && FirstFrame([a, b]) == 1 && scrub(a) == a && scrub(b) == b
    ensures ScrubStack(scrub, stack) == a + [NEWLINE] + b
  {
    var lines := [a, b];
    assert lines[..1] == [a] && lines[1..] == [b];
  }

  /** Such a stack: the word `bearer` and one frame are written as they are, and read again lose the frame. */
  lemma HangingStack(scrub: Text -> Text)
    requires ScrubsErrors(scrub)
    ensures var stack := BEARER + [NEWLINE] + FRAME_LINE; ScrubStack(scrub, stack) == stack && !Scrubbed(stack)
  {
    HangingScheme();
    TwoLinesSplit(BEARER, FRAME_LINE);
    FrameAfterBearer();
    ShortScrubbedStays(scrub, BEARER);
    ShortScrubbedStays(scrub, FRAME_LINE);
    TwoLineStack(scrub, BEARER + [NEWLINE] + FRAME_LINE, BEARER, FRAME_LINE);
  }

  // ----- the whole tree

  lemma StackTamed(scrub: Text -> Text, stack: Text)
    requires TamesAll(scrub)
    ensures TameStack(ScrubStack(scrub, stack))
  {
  }

  lemma {:induction false} TextsTamed(scrub: Text -> Text, vs: seq<Value>)
    requires TamesAll(scrub)
    ensures forall i | 0 <= i < |vs| && ScrubbedTexts(scrub, vs)[i].Some? :: Tame(ScrubbedTexts(scrub, vs)[i].value)
  {
    if vs != [] {
      TextsTamed(scrub, vs[1..]);
      var all, rest := ScrubbedTexts(scrub, vs), ScrubbedTexts(scrub, vs[1..]);
      forall i | 0 <= i < |vs| && all[i].Some? ensures Tame(all[i].value) {
        if i > 0 { assert all[i] == rest[i - 1]; }
      }
    }
  }

  lemma MessageTamed(own: Option<Text>, cause: Option<Serialized>, depth: nat)
    requires depth <= MAX_ERROR_CAUSE_DEPTH && (own.Some? ==> Tame(own.value))
    requires cause.Some? ==> depth < MAX_ERROR_CAUSE_DEPTH && AllTame(cause.value, depth + 1)
    ensures var m := WithCause(own, cause); m.Some? ==> Scrubbed(m.value) && |m.value| <= MostMessage(depth)
  {
    var m := WithCause(own, cause);
    if m != own {
      ContinuedScrubbed(own.value, cause.value.message.value);
    }
  }

  /** Every text of what is written for an error is scrubbed and bounded, joined messages included. */
  lemma {:induction false} SerializedTame(scrub: Text -> Text, graph: nat -> Node, v: Value, depth: nat)
    requires TamesAll(scrub) && depth <= MAX_ERROR_CAUSE_DEPTH
    ensures AllTame(Serialize(scrub, graph, v, depth), depth)
    decreases MAX_ERROR_CAUSE_DEPTH - depth, 1, 0
  {
    if v.Object? {
      var node, s := graph(v.id), Serialize(scrub, graph, v, depth);
      if s.cause.Some? { SerializedTame(scrub, graph, node.cause, depth + 1); }
      if depth < MAX_ERROR_CAUSE_DEPTH && node.errors.Some? {
        AllSerializedTame(scrub, graph, FirstTen(node.errors.value), depth + 1);
      }
      MessageTamed(ScrubbedText(scrub, node.message), s.cause, depth);
      if node.stack.String? { StackTamed(scrub, node.stack.text); }
      TextsTamed(scrub, node.allowed);
    }
  }

  lemma {:induction false} AllSerializedTame(scrub: Text -> Text, graph: nat -> Node, vs: seq<Value>, depth: nat)
    requires TamesAll(scrub) && depth <= MAX_ERROR_CAUSE_DEPTH
    ensures forall i | 0 <= i < |vs| :: AllTame(SerializeAll(scrub, graph, vs, depth)[i], depth)
    decreases MAX_ERROR_CAUSE_DEPTH - depth, 2, |vs|
  {
    if vs != [] {
      SerializedTame(scrub, graph, vs[0], depth);
      AllSerializedTame(scrub, graph, vs[1..], depth);
      var all, rest := SerializeAll(scrub, graph, vs, depth), SerializeAll(scrub, graph, vs[1..], depth);
      forall i | 0 <= i < |vs| ensures AllTame(all[i], depth) {
        if i > 0 { assert all[i] == rest[i - 1]; }
      }
    }
  }

  /**
   * Whatever is thrown, cycles included: at most 1464 nodes, every text in them with nothing left
   * to scrub, and the message with all its causes' at most 16438 code units.
   */
  lemma ErrorsBounded(scrub: Text -> Text, graph: nat -> Node, v: Value)
    requires ScrubsErrors(scrub)
    ensures var s := Serialize(scrub, graph, v, 0);
            && Nodes(s) <= 1464 && AllTame(s, 0)
            && (s.Error? && s.message.Some? ==> |s.message.value| <= 16438)
  {
    AtMost1464Nodes(scrub, graph, v);
    ScrubbingTames(scrub);
    SerializedTame(scrub, graph, v, 0);
    assert MostMessage(3) == 4108 && MostMessage(2) == 8218 && MostMessage(1) == 12328 && MostMessage(0) == 16438;
  }

  // ----- the recursion with its loops

  lemma {:induction false} TextsNext(scrub: Text -> Text, vs: seq<Value>, v: Value)
    ensures ScrubbedTexts(scrub, vs + [v]) == ScrubbedTexts(scrub, vs) + [ScrubbedText(scrub, v)]
  {
    if vs == [] {
      assert vs + [v] == [v] && [v][1..] == [];
    } else {
      TextsNext(scrub, vs[1..], v);
      assert (vs + [v])[1..] == vs[1..] + [v];
    }
  }

  lemma {:induction false} AllNext(scrub: Text -> Text, graph: nat -> Node, vs: seq<Value>, v: Value, depth: nat)
    requires depth <= MAX_ERROR_CAUSE_DEPTH
    ensures SerializeAll(scrub, graph, vs + [v], depth)
            == SerializeAll(scrub, graph, vs, depth) + [Serialize(scrub, graph, v, depth)]
    decreases |vs|
  {
    if vs == [] {
      assert vs + [v] == [v] && [v][1..] == [];
    } else {
      AllNext(scrub, graph, vs[1..], v, depth);
      assert (vs + [v])[1..] == vs[1..] + [v];
    }
  }

  /** The loop over the properties that are logged. */
  method Properties(scrub: Text -> Text, allowed: seq<Value>) returns (r: seq<Option<Text>>)
    ensures r == ScrubbedTexts(scrub, allowed)
  {
    r := [];
    for i := 0 to |allowed|
      invariant r == ScrubbedTexts(scrub, allowed[..i])
    {
      TextsNext(scrub, allowed[..i], allowed[i]);
      assert allowed[..i + 1] == allowed[..i] + [allowed[i]];
      r := r + [ScrubbedText(scrub, allowed[i])];
    }
    assert allowed[..|allowed|] == allowed;
  }

  method SerializeError(scrub: Text -> Text, graph: nat -> Node, v: Value, depth: nat) returns (r: Serialized)
    requires depth <= MAX_ERROR_CAUSE_DEPTH
    ensures r == Serialize(scrub, graph, v, depth)
    decreases MAX_ERROR_CAUSE_DEPTH - depth, 1
  {
    if v.String? {
      return Written(scrub(v.text));
    }
    if !v.Object? {
      return Kept;
    }
    var node := graph(v.id);
    var message := ScrubbedText(scrub, node.message);
    var stack := if node.stack.String? then Some(ScrubStack(scrub, node.stack.text)) else None;
    var properties := Properties(scrub, node.allowed);
    var cause: Option<Serialized> := None;
    var members: seq<Serialized> := [];
    if depth < MAX_ERROR_CAUSE_DEPTH {
      if !node.cause.Nothing? {
        var serialized := SerializeError(scrub, graph, node.cause, depth + 1);
        cause := Some(serialized);
        message := WithCause(message, cause);
      }
      if node.errors.Some? {
        members := SerializeMembers(scrub, graph, FirstTen(node.errors.value), depth + 1);
      }
    }
    r := Error(scrub(node.typeName), message, stack, properties, cause, members);
  }

  method SerializeMembers(scrub: Text -> Text, graph: nat -> Node, vs: seq<Value>,
                          depth: nat) returns (r: seq<Serialized>)
    requires depth <= MAX_ERROR_CAUSE_DEPTH
    ensures r == SerializeAll(scrub, graph, vs, depth)
    decreases MAX_ERROR_CAUSE_DEPTH - depth, 2
  {
    r := [];
    for i := 0 to |vs|
      invariant r == SerializeAll(scrub, graph, vs[..i], depth)
    {
      AllNext(scrub, graph, vs[..i], vs[i], depth);
      assert vs[..i + 1] == vs[..i] + [vs[i]];
      var serialized := SerializeError(scrub, graph, vs[i], depth);
      r := r + [serialized];
    }
    assert vs[..|vs|] == vs;
  }
}
