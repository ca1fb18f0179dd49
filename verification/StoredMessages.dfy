/**
 * The walk over a stored message: every key, every leaf, and the whole shape. The walk appends a
 * problem for each thing it finds; what an empty list of problems means is stated apart from it,
 * by the places a message has and the shape designated for each.
 */
module StoredMessages {
  import opened Texts
  import opened Decimals

  // ----- messages and shapes

  /** A value of a stored message. A number is the text the program prints for it. */
  datatype Value =
    | Null
    | Boolean(b: bool)
    | Number(finite: bool, text: Text)
    | String(text: Text)
    | Array(items: seq<Value>)
    | Object(members: seq<Member>)
    | Other
  datatype Member = Member(key: Text, value: Value)

  datatype Leaf = StringLeaf | NumberLeaf | BooleanLeaf | NullLeaf | InstantLeaf

  /** A leaf's exact value, or a pattern its whole text must match. */
  datatype Pin = Exactly(value: Value) | Wholly(matches: Text -> bool)

  datatype Shape = Leaves(allowed: seq<Leaf>) | Pinned(pin: Pin) | ArrayOf(item: Shape) | ObjectOf(fields: seq<Field>)
  datatype Field = Field(key: Text, shape: Shape, optional: bool)

  /**
   * What must not be in a message. `lower` is the program's lower-casing of a text, and `near`
   * says of a decimal word whether its approximate value is near a forbidden one.
   */
  datatype Rules = Rules(
    anywhere: seq<Text>, inKeys: seq<Text>, numbers: seq<Text>, near: Text -> bool, nearValues: nat,
    topLevelKeys: Option<seq<Text>>, shape: Option<Shape>, lower: Text -> Text)

  // ----- leaves

  predicate DigitsAt(t: Text, from: nat, n: nat) {
    from + n <= |t| && forall i | from <= i < from + n :: IsDigit(t[i])
  }

  /** A strict UTC instant: `dddd-dd-ddTdd:dd:dd`, perhaps a point and one to six digits, and `Z`. */
  predicate IsInstant(t: Text) {
    && 20 <= |t| <= 27 && |t| != 21
    && DigitsAt(t, 0, 4) && t[4] == 0x2d && DigitsAt(t, 5, 2) && t[7] == 0x2d && DigitsAt(t, 8, 2) && t[10] == 0x54
    && DigitsAt(t, 11, 2) && t[13] == 0x3a && DigitsAt(t, 14, 2) && t[16] == 0x3a && DigitsAt(t, 17, 2)
    && (|t| > 20 ==> t[19] == 0x2e && DigitsAt(t, 20, |t| - 21))
    && t[|t| - 1] == 0x5a
  }

  predicate IsLeaf(v: Value) {
    !v.Array? && !v.Object?
  }

  function LeafKind(v: Value): Option<Leaf> {
    match v
    case Null => Some(NullLeaf)
    case String(t) => Some(if IsInstant(t) then InstantLeaf else StringLeaf)
    case Number(finite, _) => if finite then Some(NumberLeaf) else None
    case Boolean(_) => Some(BooleanLeaf)
    case _ => None
  }

  /** A leaf of some kind is allowed: its own kind is, or it is a string and strings are. */
  predicate Fits(allowed: seq<Leaf>, v: Value) {
    var kind := LeafKind(v);
    kind.Some? && (kind.value in allowed || (kind.value == InstantLeaf && StringLeaf in allowed))
  }

  const NAN_TEXT: Text := [0x4e, 0x61, 0x4e]

  predicate Accepts(pin: Pin, v: Value) {
    match pin
    case Exactly(expected) =>
      match (expected, v) {
        case (String(s), String(t)) => s == t
        case (Boolean(a), Boolean(b)) => a == b
        case (Number(_, s), Number(_, t)) => s == t && s != NAN_TEXT
        case _ => false
      }
    case Wholly(matches) => v.String? && matches(v.text)
  }

  /** A designated instant is not searched. */
  predicate Exempt(v: Value, s: Option<Shape>) {
    v.String? && IsInstant(v.text) && s.Some? && s.value.Leaves? && InstantLeaf in s.value.allowed
  }

  // ----- searching a text

  /** `text.includes(part)`. */
  predicate Contains(text: Text, part: Text) {
    exists at | 0 <= at <= |text| - |part| :: StartsAt(text, part, at)
  }

  predicate EndsWord(c: CodeUnit) {
    IsWhitespace(c) || c == 0x3d || c == 0x2c || c == 0x3b || c == 0x28 || c == 0x29 || c == 0x5b || c == 0x5d
    || c == 0x7b || c == 0x7d || c == 0x22 || c == 0x27
  }

  /** The length of the word a text opens with. */
  function WordLength(t: Text): (n: nat)
    ensures n <= |t|
  {
    if t == [] || EndsWord(t[0]) then 0 else 1 + WordLength(t[1..])
  }

  /** The words of a text, between whatever separates them. */
  function Words(t: Text): seq<Text>
    decreases |t|
  {
    if t == [] then []
    else if WordLength(t) == 0 then Words(t[1..])
    else [t[..WordLength(t)]] + Words(t[WordLength(t)..])
  }

  function CanonicalOf(t: Text): Option<Text> {
    if Read(t).None? then None else Some(Canonical(Read(t).value))
  }

  datatype Problem =
    | NotDecimal(marker: Text)
    | NoMarkers
    | NotAnObject
    | TopLevelKey(key: Text)
    | ArrayHere(at: seq<nat>)
    | ObjectHere(at: seq<nat>)
    | MissingKey(key: Text, at: seq<nat>)
    | UnknownKey(key: Text, at: seq<nat>)
    | TextFound(text: Text, marker: Text, at: seq<nat>)
    | NumberFound(word: Text, marker: Text, at: seq<nat>)
    | NearFound(word: Text, at: seq<nat>)
    | NotPinned(at: seq<nat>)
    | NotAllowed(at: seq<nat>)
    | NoLeaves

  /** `searchText`: a problem for each marker in the text. */
  function TextProblems(rules: Rules, text: Text, markers: seq<Text>, at: seq<nat>): seq<Problem> {
    if markers == [] then []
    else (if Contains(rules.lower(text), rules.lower(markers[0])) then [TextFound(text, markers[0], at)] else [])
         + TextProblems(rules, text, markers[1..], at)
  }

  /** A problem for each numeric marker the word equals. */
  function NumberProblems(word: Text, numbers: seq<Text>, at: seq<nat>): seq<Problem> {
    if numbers == [] then []
    else (if CanonicalOf(numbers[0]) == CanonicalOf(word) then [NumberFound(word, numbers[0], at)] else [])
         + NumberProblems(word, numbers[1..], at)
  }

  /** `searchDecimals`, over the words of a text. */
  function WordProblems(rules: Rules, words: seq<Text>, at: seq<nat>): seq<Problem> {
    if words == [] then []
    else (if CanonicalOf(words[0]).None? then []
          else NumberProblems(words[0], rules.numbers, at) + if rules.near(words[0]) then [NearFound(words[0], at)]
              else [])
         + WordProblems(rules, words[1..], at)
  }

  // ----- the walk

  function ItemShape(s: Option<Shape>): Option<Shape> {
    if s.Some? && s.value.ArrayOf? then Some(s.value.item) else None
  }

  function FieldOf(fields: seq<Field>, key: Text): Option<Field> {
    if fields == [] then None
    else if fields[0].key == key then Some(fields[0]) else FieldOf(fields[1..], key)
  }

  function Named(s: Option<Shape>): Option<seq<Field>> {
    if s.Some? && s.value.ObjectOf? then Some(s.value.fields) else None
  }

  function FieldShape(s: Option<Shape>, key: Text): Option<Shape> {
    var named := Named(s);
    if named.None? then None
    else
      var field := FieldOf(named.value, key);
      if field.None? then None else Some(field.value.shape)
  }

  predicate HasKey(ms: seq<Member>, key: Text) {
    exists i | 0 <= i < |ms| :: ms[i].key == key
  }

  function MissingProblems(fields: seq<Field>, ms: seq<Member>, at: seq<nat>): seq<Problem> {
    if fields == [] then []
    else (if !HasKey(ms, fields[0].key) && !fields[0].optional then [MissingKey(fields[0].key, at)] else [])
         + MissingProblems(fields[1..], ms, at)
  }

  function KeyProblems(rules: Rules, key: Text, s: Option<Shape>, at: seq<nat>): seq<Problem> {
    TextProblems(rules, key, rules.anywhere + rules.inKeys, at)
    + WordProblems(rules, Words(key), at)
    + (if Named(s).Some? && FieldOf(Named(s).value, key).None? then [UnknownKey(key, at)] else [])
  }

  function LeafProblems(rules: Rules, v: Value, s: Option<Shape>, at: seq<nat>): seq<Problem> {
    (if s.Some? && s.value.Pinned? && !Accepts(s.value.pin, v) then [NotPinned(at)] else [])
    + (if s.Some? && !s.value.Pinned? && !(s.value.Leaves? && Fits(s.value.allowed, v)) then [NotAllowed(at)] else [])
    + if Exempt(v, s) then []
      else match v
        case String(t) => TextProblems(rules, t, rules.anywhere, at) + WordProblems(rules, Words(t), at)
        case Number(_, t) => TextProblems(rules, t, rules.anywhere, at) + WordProblems(rules, [t], at)
        case _ => []
  }

  /** What is wrong with a container itself. */
  function ContainerProblems(v: Value, s: Option<Shape>, at: seq<nat>): seq<Problem> {
    match v
    case Array(_) => if s.Some? && !s.value.ArrayOf? then [ArrayHere(at)] else []
    case Object(ms) =>
      if Named(s).Some? then MissingProblems(Named(s).value, ms, at)
      else if s.Some? then [ObjectHere(at)] else []
    case _ => []
  }

  function Children(v: Value): nat {
    match v
    case Array(items) => |items|
    case Object(ms) => |ms|
    case _ => 0
  }

  function Child(v: Value, i: nat): Value
    requires i < Children(v)
  {
    if v.Array? then v.items[i] else v.members[i].value
  }

  /** Every problem below a place, in the order they are found. */
  function Problems(rules: Rules, v: Value, s: Option<Shape>, at: seq<nat>): seq<Problem>
    decreases v, Children(v) + 1
  {
    match v
    case Array(items) => ContainerProblems(v, s, at) + ItemProblems(rules, v, s, at, 0)
    case Object(ms) => ContainerProblems(v, s, at) + MemberProblems(rules, v, s, at, 0)
    case _ => LeafProblems(rules, v, s, at)
  }

  function ItemProblems(rules: Rules, v: Value, s: Option<Shape>, at: seq<nat>, i: nat): seq<Problem>
    requires v.Array? && i <= |v.items|
    decreases v, Children(v) - i
  {
    if i == |v.items| then []
    else
      Problems(rules, v.items[i], ItemShape(s), at + [i]) + ItemProblems(rules, v, s, at, i + 1)
  }

  function MemberProblems(rules: Rules, v: Value, s: Option<Shape>, at: seq<nat>, i: nat): seq<Problem>
    requires v.Object? && i <= |v.members|
    decreases v, Children(v) - i
  {
    if i == |v.members| then []
    else
      var m := v.members[i];
      KeyProblems(rules, m.key, s, at) + Problems(rules, m.value, FieldShape(s, m.key), at + [i])
      + MemberProblems(rules, v, s, at, i + 1)
  }

  function LeafCount(v: Value): nat
    decreases v, Children(v) + 1
  {
    match v
    case Array(_) => LeafCountFrom(v, 0)
    case Object(_) => LeafCountFrom(v, 0)
    case _ => 1
  }

  function LeafCountFrom(v: Value, i: nat): nat
    requires i <= Children(v)
    decreases v, Children(v) - i
  {
    if i == Children(v) then 0 else LeafCount(Child(v, i)) + LeafCountFrom(v, i + 1)
  }

  /** What is wrong before the walk. */
  function MarkerProblems(numbers: seq<Text>): seq<Problem> {
    if numbers == [] then []
    else (if CanonicalOf(numbers[0]).None? then [NotDecimal(numbers[0])] else []) + MarkerProblems(numbers[1..])
  }

  function RuleProblems(rules: Rules): seq<Problem> {
    MarkerProblems(rules.numbers)
    + if |rules.anywhere| + |rules.inKeys| + |rules.numbers| + rules.nearValues == 0 then [NoMarkers] else []
  }

  /** `Object.keys`, from the `i`-th on: an array's are its indices. */
  function KeysFrom(v: Value, i: nat): seq<Text>
    requires i <= Children(v)
    decreases Children(v) - i
  {
    if i == Children(v) then []
    else [if v.Array? then NatText(i) else v.members[i].key] + KeysFrom(v, i + 1)
  }

  function TopLevelProblems(keys: seq<Text>, expected: seq<Text>): seq<Problem> {
    if keys == [] then []
    else (if keys[0] in expected then [] else [TopLevelKey(keys[0])]) + TopLevelProblems(keys[1..], expected)
  }

  /** All that is wrong with a message, in the order of the walk. */
  function AllProblems(rules: Rules, message: Value): seq<Problem> {
    if IsLeaf(message) then RuleProblems(rules) + [NotAnObject]
    else
      ProblemsBefore(rules, message) + Problems(rules, message, rules.shape, [])
      + if LeafCount(message) == 0 then [NoLeaves] else []
  }

  /** A member's own problems, those below it, and then those of the members after it. */
  lemma MemberFirst(before: seq<Problem>, rules: Rules, v: Value, s: Option<Shape>, at: seq<nat>, i: nat)
    requires v.Object? && i < |v.members|
    ensures var m := v.members[i];
            before + MemberProblems(rules, v, s, at, i)
            == before + KeyProblems(rules, m.key, s, at) + Problems(rules, m.value, FieldShape(s, m.key), at + [i])
               + MemberProblems(rules, v, s, at, i + 1)
  {
    var m := v.members[i];
    GroupFour(before, KeyProblems(rules, m.key, s, at), Problems(rules, m.value, FieldShape(s, m.key), at + [i]),
              MemberProblems(rules, v, s, at, i + 1));
  }

  /** The walk itself: the problems found so far, and how many leaves were seen. */
  class Walker {
    var problems: seq<Problem>
    var leaves: nat

    constructor (before: seq<Problem>)
      ensures problems == before && leaves == 0
    {
      problems, leaves := before, 0;
    }

    /** `visit`. */
    method Visit(rules: Rules, v: Value, s: Option<Shape>, at: seq<nat>)
      modifies this
      ensures problems == old(problems) + Problems(rules, v, s, at)
      ensures leaves == old(leaves) + LeafCount(v)
      decreases v, 1
    {
      if IsLeaf(v) {
        leaves := leaves + 1;
        problems := problems + LeafProblems(rules, v, s, at);
        return;
      }
      ghost var before := problems;
      problems := problems + ContainerProblems(v, s, at);
      if v.Array? {
        VisitItems(rules, v, s, at);
        Group(before, ContainerProblems(v, s, at), ItemProblems(rules, v, s, at, 0));
      } else {
        VisitMembers(rules, v, s, at);
        Group(before, ContainerProblems(v, s, at), MemberProblems(rules, v, s, at, 0));
      }
    }

    method VisitItems(rules: Rules, v: Value, s: Option<Shape>, at: seq<nat>)
      requires v.Array?
      modifies this
      ensures problems == old(problems) + ItemProblems(rules, v, s, at, 0)
      ensures leaves == old(leaves) + LeafCountFrom(v, 0)
      decreases v, 0
    {
      for i := 0 to |v.items|
        invariant old(problems) + ItemProblems(rules, v, s, at, 0) == problems + ItemProblems(rules, v, s, at, i)
        invariant old(leaves) + LeafCountFrom(v, 0) == leaves + LeafCountFrom(v, i)
      {
        ghost var before := problems;
        Visit(rules, v.items[i], ItemShape(s), at + [i]);
        Group(before, Problems(rules, v.items[i], ItemShape(s), at + [i]), ItemProblems(rules, v, s, at, i + 1));
      }
    }

    method VisitMembers(rules: Rules, v: Value, s: Option<Shape>, at: seq<nat>)
      requires v.Object?
      modifies this
      ensures problems == old(problems) + MemberProblems(rules, v, s, at, 0)
      ensures leaves == old(leaves) + LeafCountFrom(v, 0)
      decreases v, 0
    {
      for i := 0 to |v.members|
        invariant old(problems) + MemberProblems(rules, v, s, at, 0) == problems + MemberProblems(rules, v, s, at, i)
        invariant old(leaves) + LeafCountFrom(v, 0) == leaves + LeafCountFrom(v, i)
      {
        var m := v.members[i];
        MemberFirst(problems, rules, v, s, at, i);
        problems := problems + KeyProblems(rules, m.key, s, at);
        Visit(rules, m.value, FieldShape(s, m.key), at + [i]);
      }
    }
  }

  /** What is found before the walk. */
  function ProblemsBefore(rules: Rules, message: Value): seq<Problem> {
    RuleProblems(rules)
    + if rules.topLevelKeys.None? then [] else TopLevelProblems(KeysFrom(message, 0), rules.topLevelKeys.value)
  }

  /** `storedMessageProblems`. */
  method StoredMessageProblems(rules: Rules, message: Value) returns (problems: seq<Problem>)
    ensures problems == AllProblems(rules, message)
  {
    if IsLeaf(message) {
      return RuleProblems(rules) + [NotAnObject];
    }
    var walker := new Walker(ProblemsBefore(rules, message));
    walker.Visit(rules, message, rules.shape, []);
    problems := walker.problems + if walker.leaves == 0 then [NoLeaves] else [];
  }
}
