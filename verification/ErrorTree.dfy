/** What a logged error holds: the graph below it, place by place, down to the depth limit. */
module ErrorTree {
  import opened Texts
  import opened ErrorSerializer

  /** One step down: to the cause, or to a member of an aggregate. */
  datatype Hop = ToCause | ToMember(i: nat)

  /** The value a hop leads to in the graph: a cause that is there, or one of the first ten members. */
  ghost function Below(graph: nat -> Node, v: Value, hop: Hop): Option<Value> {
    if !v.Object? then None
    else match hop
      case ToCause => if graph(v.id).cause.Nothing? then None else Some(graph(v.id).cause)
      case ToMember(i) =>
        var errors := graph(v.id).errors;
        if errors.Some? && i < |errors.value| && i < MAX_AGGREGATE_ERRORS then Some(errors.value[i]) else None
  }

  ghost function Reached(graph: nat -> Node, v: Value, path: seq<Hop>): Option<Value>
    decreases |path|
  {
    if path == [] then Some(v)
    else
      var below := Below(graph, v, path[0]);
      if below.None? then None else Reached(graph, below.value, path[1..])
  }

  /** What a hop leads to in what was written. */
  ghost function WrittenBelow(s: Serialized, hop: Hop): Option<Serialized> {
    if !s.Error? then None
    else match hop
      case ToCause => s.cause
      case ToMember(i) => if i < |s.members| then Some(s.members[i]) else None
  }

  ghost function Found(s: Serialized, path: seq<Hop>): Option<Serialized> {
    if path == [] then Some(s)
    else
      var below := WrittenBelow(s, path[0]);
      if below.None? then None else Found(below.value, path[1..])
  }

  // ----- messages

  /** The messages from a value on, cause after cause, as long as each is a text and the depth allows. */
  ghost function MessageChain(graph: nat -> Node, v: Value, left: nat): seq<Text>
    decreases left
  {
    if !v.Object? || !graph(v.id).message.String? then []
    else
      [graph(v.id).message.text] + if left == 0 then [] else MessageChain(graph, graph(v.id).cause, left - 1)
  }

  /** The texts, each scrubbed, with a colon and a space between each two. */
  ghost function ScrubbedChain(scrub: Text -> Text, texts: seq<Text>): Text
    requires texts != []
  {
    if |texts| == 1 then scrub(texts[0]) else scrub(texts[0]) + [COLON, SPACE] + ScrubbedChain(scrub, texts[1..])
  }

  /** The message written for a value: the chain of messages from it on. */
  ghost predicate SaysChain(scrub: Text -> Text, message: Option<Text>, texts: seq<Text>) {
    if texts == [] then message.None? else message == Some(ScrubbedChain(scrub, texts))
  }

  ghost function MessageOf(s: Serialized): Option<Text> {
    if s.Error? then s.message else None
  }

  lemma {:induction false} ChainSaid(scrub: Text -> Text, graph: nat -> Node, v: Value, depth: nat)
    requires depth <= MAX_ERROR_CAUSE_DEPTH
    ensures SaysChain(scrub, MessageOf(Serialize(scrub, graph, v, depth)),
                      MessageChain(graph, v, MAX_ERROR_CAUSE_DEPTH - depth))
    decreases MAX_ERROR_CAUSE_DEPTH - depth
  {
    if v.Object? && graph(v.id).message.String? && depth < MAX_ERROR_CAUSE_DEPTH {
      var own, left := graph(v.id).message.text, MAX_ERROR_CAUSE_DEPTH - depth;
      var rest := MessageChain(graph, graph(v.id).cause, left - 1);
      ChainSaid(scrub, graph, graph(v.id).cause, depth + 1);
      assert MessageChain(graph, v, left) == [own] + rest;
      assert ([own] + rest)[1..] == rest;
    }
  }

  // ----- one value

  ghost predicate ShowsProperties(scrub: Text -> Text, shown: seq<Option<Text>>, values: seq<Value>) {
    && |shown| == |values|
    && forall i | 0 <= i < |values| ::
         shown[i] == if values[i].String? then Some(scrub(values[i].text)) else None
  }

  lemma {:induction false} PropertiesShown(scrub: Text -> Text, values: seq<Value>)
    ensures ShowsProperties(scrub, ScrubbedTexts(scrub, values), values)
  {
    if values != [] { PropertiesShown(scrub, values[1..]); }
  }

  /** What is written for a value itself, at a depth. */
  ghost predicate Shows(scrub: Text -> Text, graph: nat -> Node, s: Serialized, v: Value, depth: nat)
    requires depth <= MAX_ERROR_CAUSE_DEPTH
  {
    match v
    case String(t) => s == Written(scrub(t))
    case Primitive => s.Kept?
    case Nothing => s.Kept?
    case Object(id) =>
      && s.Error? && s.typeName == scrub(graph(id).typeName)
      && SaysChain(scrub, s.message, MessageChain(graph, v, MAX_ERROR_CAUSE_DEPTH - depth))
      && s.stack == (if graph(id).stack.String? then Some(ScrubStack(scrub, graph(id).stack.text)) else None)
      && ShowsProperties(scrub, s.properties, graph(id).allowed)
  }

  lemma ValueShown(scrub: Text -> Text, graph: nat -> Node, v: Value, depth: nat)
    requires depth <= MAX_ERROR_CAUSE_DEPTH
    ensures Shows(scrub, graph, Serialize(scrub, graph, v, depth), v, depth)
  {
    ChainSaid(scrub, graph, v, depth);
    if v.Object? { PropertiesShown(scrub, graph(v.id).allowed); }
  }

  // ----- the tree

  lemma {:induction false} AllSerialized(scrub: Text -> Text, graph: nat -> Node, vs: seq<Value>, depth: nat, i: nat)
    requires depth <= MAX_ERROR_CAUSE_DEPTH && i < |vs|
    ensures SerializeAll(scrub, graph, vs, depth)[i] == Serialize(scrub, graph, vs[i], depth)
    decreases i
  {
    if i > 0 { AllSerialized(scrub, graph, vs[1..], depth, i - 1); }
  }

  /** One step down from what was written is what was written for one step down, where the depth allows it. */
  lemma HopWritten(scrub: Text -> Text, graph: nat -> Node, v: Value, depth: nat, hop: Hop)
    requires depth <= MAX_ERROR_CAUSE_DEPTH
    ensures WrittenBelow(Serialize(scrub, graph, v, depth), hop) ==
            if depth == MAX_ERROR_CAUSE_DEPTH || Below(graph, v, hop).None? then None
            else Some(Serialize(scrub, graph, Below(graph, v, hop).value, depth + 1))
  {
    if v.Object? && depth < MAX_ERROR_CAUSE_DEPTH && hop.ToMember? && graph(v.id).errors.Some? {
      var members := FirstTen(graph(v.id).errors.value);
      if hop.i < |members| { AllSerialized(scrub, graph, members, depth + 1, hop.i); }
    }
  }

  lemma {:induction false} PathWritten(scrub: Text -> Text, graph: nat -> Node, v: Value, depth: nat, path: seq<Hop>)
    requires depth <= MAX_ERROR_CAUSE_DEPTH
    ensures Found(Serialize(scrub, graph, v, depth), path) ==
            if Reached(graph, v, path).None? || depth + |path| > MAX_ERROR_CAUSE_DEPTH then None
            else Some(Serialize(scrub, graph, Reached(graph, v, path).value, depth + |path|))
    decreases |path|
  {
    if path != [] {
      HopWritten(scrub, graph, v, depth, path[0]);
      var below := Below(graph, v, path[0]);
      if depth < MAX_ERROR_CAUSE_DEPTH && below.Some? {
        PathWritten(scrub, graph, below.value, depth + 1, path[1..]);
      }
    }
  }

  /**
   * The tree holds exactly the places of the graph that at most three steps lead to, each step to a cause or to
   * one of the first ten members, in order; at each place stands that value, its message followed by its causes'.
   */
  lemma TreeHolds(scrub: Text -> Text, graph: nat -> Node, v: Value, path: seq<Hop>)
    ensures var found, reached := Found(Serialize(scrub, graph, v, 0), path), Reached(graph, v, path);
            if reached.None? || |path| > MAX_ERROR_CAUSE_DEPTH then found.None?
            else found.Some? && Shows(scrub, graph, found.value, reached.value, |path|)
  {
    PathWritten(scrub, graph, v, 0, path);
    var reached := Reached(graph, v, path);
    if reached.Some? && |path| <= MAX_ERROR_CAUSE_DEPTH { ValueShown(scrub, graph, reached.value, |path|); }
  }
}
