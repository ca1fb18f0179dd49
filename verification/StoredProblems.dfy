/** What a listed problem says: each is in the list exactly when it is true of the place it names. */
module StoredProblems {
  import opened Texts
  import Decimals
  import DisclosureShapes
  import opened StoredMessages
  import opened StoredMessageProofs

  // ----- what each problem says

  /** A text of a place: one of its keys, or the text of its leaf where that is searched. */
  ghost predicate KeyOf(p: Place, text: Text) {
    p.value.Object? && HasKey(p.value.members, text)
  }

  ghost predicate LeafText(p: Place, text: Text) {
    (p.value.String? || p.value.Number?) && !Exempt(p.value, p.shape) && p.value.text == text
  }

  /** A word of a place: of a key or a string, or a number as a whole. */
  ghost predicate WordOf(p: Place, word: Text) {
    || (exists key :: KeyOf(p, key) && StandsIn(word, key))
    || (exists text :: LeafText(p, text) && if p.value.Number? then word == text else StandsIn(word, text))
  }

  ghost predicate Named(p: Place, key: Text) {
    p.shape.Some? && p.shape.value.ObjectOf? && exists f :: FieldNamed(p.shape.value.fields, f, key)
  }

  ghost predicate FieldNamed(fields: seq<Field>, f: int, key: Text) {
    0 <= f < |fields| && fields[f].key == key
  }

  /** The same number: some value both state. */
  ghost predicate SameNumber(a: Text, b: Text) {
    exists x :: States(a, x) && States(b, x)
  }

  /** The problem is true of a place. */
  ghost predicate TrueAt(rules: Rules, p: Place, problem: Problem) {
    match problem
    case ArrayHere(_) => p.value.Array? && p.shape.Some? && !p.shape.value.ArrayOf?
    case ObjectHere(_) => p.value.Object? && p.shape.Some? && !p.shape.value.ObjectOf?
    case MissingKey(key, _) =>
      && p.value.Object? && p.shape.Some? && p.shape.value.ObjectOf? && !HasKey(p.value.members, key)
      && exists f :: FieldNamed(p.shape.value.fields, f, key) && !p.shape.value.fields[f].optional
    case UnknownKey(key, _) => KeyOf(p, key) && p.shape.Some? && p.shape.value.ObjectOf? && !Named(p, key)
    case TextFound(text, marker, _) =>
      && (if p.value.Object? then KeyOf(p, text) && (marker in rules.anywhere || marker in rules.inKeys)
          else LeafText(p, text) && marker in rules.anywhere)
      && Contains(rules.lower(text), rules.lower(marker))
    case NumberFound(word, marker, _) => WordOf(p, word) && marker in rules.numbers && SameNumber(word, marker)
    case NearFound(word, _) => WordOf(p, word) && Decimals.Read(word).Some? && rules.near(word)
    case NotPinned(_) =>
      IsLeaf(p.value) && p.shape.Some? && p.shape.value.Pinned? && !Accepts(p.shape.value.pin, p.value)
    case NotAllowed(_) =>
      && IsLeaf(p.value) && p.shape.Some? && !p.shape.value.Pinned?
      && !(p.shape.value.Leaves? && Fits(p.shape.value.allowed, p.value))
    case _ => false
  }

  /** Where a problem is said to be. */
  ghost function PlaceOf(problem: Problem): Option<seq<nat>> {
    match problem
    case ArrayHere(at) => Some(at)
    case ObjectHere(at) => Some(at)
    case MissingKey(_, at) => Some(at)
    case UnknownKey(_, at) => Some(at)
    case TextFound(_, _, at) => Some(at)
    case NumberFound(_, _, at) => Some(at)
    case NearFound(_, at) => Some(at)
    case NotPinned(at) => Some(at)
    case NotAllowed(at) => Some(at)
    case _ => None
  }

  /** The problem is true of a message under its rules. */
  ghost predicate True(rules: Rules, message: Value, problem: Problem) {
    match problem
    case NotDecimal(marker) => marker in rules.numbers && Decimals.Read(marker).None?
    case NoMarkers => |rules.anywhere| == |rules.inKeys| == |rules.numbers| == rules.nearValues == 0
    case NotAnObject => IsLeaf(message)
    case TopLevelKey(key) =>
      !IsLeaf(message) && rules.topLevelKeys.Some? && key in KeysFrom(message, 0) && key !in rules.topLevelKeys.value
    case NoLeaves => !IsLeaf(message) && !HasLeaf(Place(message, rules.shape))
    case _ =>
      && !IsLeaf(message)
      && var place := At(Place(message, rules.shape), PlaceOf(problem).value);
         place.Some? && TrueAt(rules, place.value, problem)
  }

  // ----- the problems of one text

  lemma {:induction false} TextFoundIff(rules: Rules, text: Text, markers: seq<Text>, at: seq<nat>, p: Problem)
    ensures p in TextProblems(rules, text, markers, at) <==>
            && p.TextFound? && p.text == text && p.at == at && p.marker in markers
            && Contains(rules.lower(text), rules.lower(p.marker))
  {
    if markers != [] {
      SplitHead(markers);
      TextFoundIff(rules, text, markers[1..], at, p);
    }
  }

  lemma {:induction false} NumberFoundIff(word: Text, numbers: seq<Text>, at: seq<nat>, p: Problem)
    requires Decimals.Read(word).Some?
    ensures p in NumberProblems(word, numbers, at) <==>
            p.NumberFound? && p.word == word && p.at == at && p.marker in numbers && SameNumber(word, p.marker)
  {
    if numbers != [] {
      SplitHead(numbers);
      NumberFoundIff(word, numbers[1..], at, p);
      SameNumberIff(word, numbers[0]);
    }
  }

  /** A problem with one of the words, at a place. */
  ghost predicate WordProblem(rules: Rules, words: seq<Text>, at: seq<nat>, p: Problem) {
    match p
    case NumberFound(word, marker, a) => a == at && word in words && marker in rules.numbers && SameNumber(word, marker)
    case NearFound(word, a) => a == at && word in words && Decimals.Read(word).Some? && rules.near(word)
    case _ => false
  }

  lemma {:induction false} WordProblemIff(rules: Rules, words: seq<Text>, at: seq<nat>, p: Problem)
    ensures p in WordProblems(rules, words, at) <==> WordProblem(rules, words, at, p)
  {
    if words != [] {
      SplitHead(words);
      WordProblemIff(rules, words[1..], at, p);
      OneWordIff(rules, words[0], at, p);
      assert WordProblems(rules, words, at) == OneWord(rules, words[0], at) + WordProblems(rules, words[1..], at);
    }
  }

  lemma OneWordIff(rules: Rules, word: Text, at: seq<nat>, p: Problem)
    ensures p in OneWord(rules, word, at) <==> WordProblem(rules, [word], at, p)
  {
    if Decimals.Read(word).Some? { NumberFoundIff(word, rules.numbers, at, p); }
  }

  // ----- the problems of one place

  lemma {:induction false} MissingKeyIff(fields: seq<Field>, ms: seq<Member>, at: seq<nat>, p: Problem)
    ensures p in MissingProblems(fields, ms, at) <==>
            && p.MissingKey? && p.at == at && !HasKey(ms, p.key)
            && exists f :: FieldNamed(fields, f, p.key) && !fields[f].optional
  {
    if fields != [] {
      MissingKeyIff(fields[1..], ms, at, p);
      if p.MissingKey? { RequiredSplit(fields, p.key); }
    }
  }

  lemma RequiredSplit(fields: seq<Field>, key: Text)
    requires fields != []
    ensures (exists f :: FieldNamed(fields, f, key) && !fields[f].optional) <==>
            || (fields[0].key == key && !fields[0].optional)
            || (exists f :: FieldNamed(fields[1..], f, key) && !fields[1..][f].optional)
  {
    if f :| FieldNamed(fields, f, key) && !fields[f].optional {
      if f > 0 { assert FieldNamed(fields[1..], f - 1, key); }
    }
    if f :| FieldNamed(fields[1..], f, key) && !fields[1..][f].optional {
      assert FieldNamed(fields, f + 1, key) && !fields[f + 1].optional;
    }
    if fields[0].key == key && !fields[0].optional { assert FieldNamed(fields, 0, key); }
  }

  lemma {:induction false} FieldOfIff(fields: seq<Field>, key: Text)
    ensures FieldOf(fields, key).Some? <==> exists f :: FieldNamed(fields, f, key)
  {
    if fields != [] {
      FieldOfIff(fields[1..], key);
      if fields[0].key == key { assert FieldNamed(fields, 0, key); }
      if f :| FieldNamed(fields[1..], f, key) { assert FieldNamed(fields, f + 1, key); }
      if f :| FieldNamed(fields, f, key) {
        if f > 0 { assert FieldNamed(fields[1..], f - 1, key); }
      }
    }
  }

  lemma ContainerProblemIff(rules: Rules, place: Place, at: seq<nat>, p: Problem)
    ensures p in ContainerProblems(place.value, place.shape, at) <==>
            (p.ArrayHere? || p.ObjectHere? || p.MissingKey?) && PlaceOf(p) == Some(at) && TrueAt(rules, place, p)
  {
    if place.value.Object? && place.shape.Some? && place.shape.value.ObjectOf? {
      MissingKeyIff(place.shape.value.fields, place.value.members, at, p);
    }
  }

  /** A problem with a key of a place. */
  ghost predicate KeyProblem(rules: Rules, place: Place, key: Text, at: seq<nat>, p: Problem) {
    && PlaceOf(p) == Some(at)
    && match p
       case TextFound(text, marker, _) =>
         && text == key && (marker in rules.anywhere || marker in rules.inKeys)
         && Contains(rules.lower(text), rules.lower(marker))
       case NumberFound(word, marker, _) => StandsIn(word, key) && marker in rules.numbers && SameNumber(word, marker)
       case NearFound(word, _) => StandsIn(word, key) && Decimals.Read(word).Some? && rules.near(word)
       case UnknownKey(k, _) => k == key && place.shape.Some? && place.shape.value.ObjectOf? && !Named(place, key)
       case _ => false
  }

  lemma KeyProblemIff(rules: Rules, place: Place, key: Text, at: seq<nat>, p: Problem)
    ensures p in KeyProblems(rules, key, place.shape, at) <==> KeyProblem(rules, place, key, at, p)
  {
    TextFoundIff(rules, key, rules.anywhere + rules.inKeys, at, p);
    WordProblemIff(rules, Words(key), at, p);
    if p.NumberFound? || p.NearFound? { WordsAreRuns(key, p.word); }
    if place.shape.Some? && place.shape.value.ObjectOf? { FieldOfIff(place.shape.value.fields, key); }
  }

  /** A problem with what a leaf holds. */
  ghost predicate SearchProblem(rules: Rules, v: Value, at: seq<nat>, p: Problem) {
    && (v.String? || v.Number?) && PlaceOf(p) == Some(at)
    && match p
       case TextFound(text, marker, _) =>
         text == v.text && marker in rules.anywhere && Contains(rules.lower(text), rules.lower(marker))
       case NumberFound(word, marker, _) =>
         (if v.Number? then word == v.text else StandsIn(word, v.text))
         && marker in rules.numbers && SameNumber(word, marker)
       case NearFound(word, _) =>
         (if v.Number? then word == v.text else StandsIn(word, v.text)) && Decimals.Read(word).Some? && rules.near(word)
       case _ => false
  }

  /** What the search of a leaf's text finds. */
  ghost function Searched(rules: Rules, v: Value, at: seq<nat>): seq<Problem> {
    match v
    case String(t) => TextProblems(rules, t, rules.anywhere, at) + WordProblems(rules, Words(t), at)
    case Number(_, t) => TextProblems(rules, t, rules.anywhere, at) + WordProblems(rules, [t], at)
    case _ => []
  }

  lemma SearchedIff(rules: Rules, v: Value, at: seq<nat>, p: Problem)
    ensures p in Searched(rules, v, at) <==> SearchProblem(rules, v, at, p)
  {
    if v.String? || v.Number? {
      TextFoundIff(rules, v.text, rules.anywhere, at, p);
      LeafWordsIff(rules, v, at, p);
    }
  }

  lemma LeafWordsIff(rules: Rules, v: Value, at: seq<nat>, p: Problem)
    requires v.String? || v.Number?
    ensures p in WordProblems(rules, if v.String? then Words(v.text) else [v.text], at) <==>
            !p.TextFound? && SearchProblem(rules, v, at, p)
  {
    WordProblemIff(rules, if v.String? then Words(v.text) else [v.text], at, p);
    if p.NumberFound? || p.NearFound? { WordsAreRuns(v.text, p.word); }
  }

  lemma LeafSearchIff(rules: Rules, place: Place, at: seq<nat>, p: Problem)
    requires IsLeaf(place.value) && (p.TextFound? || p.NumberFound? || p.NearFound?) && PlaceOf(p) == Some(at)
    ensures TrueAt(rules, place, p) <==> !Exempt(place.value, place.shape) && SearchProblem(rules, place.value, at, p)
  {
    if place.value.String? || place.value.Number? {
      assert !Exempt(place.value, place.shape) ==> LeafText(place, place.value.text);
    }
  }

  lemma LeafProblemIff(rules: Rules, place: Place, at: seq<nat>, p: Problem)
    requires IsLeaf(place.value)
    ensures p in LeafProblems(rules, place.value, place.shape, at) <==>
            PlaceOf(p) == Some(at) && TrueAt(rules, place, p)
  {
    SearchedIff(rules, place.value, at, p);
    if (p.TextFound? || p.NumberFound? || p.NearFound?) && PlaceOf(p) == Some(at) {
      LeafSearchIff(rules, place, at, p);
    }
  }

  /** A problem that the walk lists for a place itself: with what it is, or with one of its keys. */
  ghost predicate OwnProblem(rules: Rules, place: Place, at: seq<nat>, p: Problem) {
    if IsLeaf(place.value) then p in LeafProblems(rules, place.value, place.shape, at)
    else
      || p in ContainerProblems(place.value, place.shape, at)
      || (place.value.Object?
          && exists i :: 0 <= i < |place.value.members|
               && p in KeyProblems(rules, place.value.members[i].key, place.shape, at))
  }

  lemma WordKeyOf(rules: Rules, place: Place, at: seq<nat>, p: Problem)
    requires place.value.Object? && (p.NumberFound? || p.NearFound?)
    requires PlaceOf(p) == Some(at) && TrueAt(rules, place, p)
    ensures exists key :: KeyOf(place, key) && KeyProblem(rules, place, key, at, p)
  {
    var key :| KeyOf(place, key) && StandsIn(p.word, key);
    assert KeyProblem(rules, place, key, at, p);
  }

  lemma KeysOfPlace(rules: Rules, place: Place, at: seq<nat>, p: Problem)
    requires place.value.Object? && !p.ObjectHere? && !p.MissingKey?
    ensures (exists key :: KeyOf(place, key) && KeyProblem(rules, place, key, at, p)) <==>
            PlaceOf(p) == Some(at) && TrueAt(rules, place, p)
  {
    if PlaceOf(p) == Some(at) && TrueAt(rules, place, p) {
      match p
      case TextFound(text, _, _) => assert KeyOf(place, text) && KeyProblem(rules, place, text, at, p);
      case UnknownKey(key, _) => assert KeyOf(place, key) && KeyProblem(rules, place, key, at, p);
      case _ => WordKeyOf(rules, place, at, p);
    }
  }

  lemma OwnProblemIff(rules: Rules, place: Place, at: seq<nat>, p: Problem)
    ensures OwnProblem(rules, place, at, p) <==> PlaceOf(p) == Some(at) && TrueAt(rules, place, p)
  {
    if IsLeaf(place.value) {
      LeafProblemIff(rules, place, at, p);
    } else {
      ContainerProblemIff(rules, place, at, p);
      if place.value.Object? {
        MemberKeysIff(rules, place, at, p);
        if !p.ObjectHere? && !p.MissingKey? { KeysOfPlace(rules, place, at, p); }
      }
    }
  }

  lemma MemberKeysIff(rules: Rules, place: Place, at: seq<nat>, p: Problem)
    requires place.value.Object?
    ensures (exists i :: 0 <= i < |place.value.members|
               && p in KeyProblems(rules, place.value.members[i].key, place.shape, at)) <==>
            exists key :: KeyOf(place, key) && KeyProblem(rules, place, key, at, p)
  {
    var ms := place.value.members;
    forall key ensures p in KeyProblems(rules, key, place.shape, at) <==> KeyProblem(rules, place, key, at, p) {
      KeyProblemIff(rules, place, key, at, p);
    }
    if i :| 0 <= i < |ms| && p in KeyProblems(rules, ms[i].key, place.shape, at) {
      assert KeyOf(place, ms[i].key);
    }
    if key :| KeyOf(place, key) && KeyProblem(rules, place, key, at, p) {
      var i :| 0 <= i < |ms| && ms[i].key == key;
      assert p in KeyProblems(rules, ms[i].key, place.shape, at);
    }
  }

  // ----- the walk

  /** A place at or below another lists the problem, at its own path. */
  ghost predicate ListedAt(rules: Rules, place: Place, at: seq<nat>, path: seq<nat>, p: Problem) {
    At(place, path).Some? && OwnProblem(rules, At(place, path).value, at + path, p)
  }

  ghost predicate Listed(rules: Rules, place: Place, at: seq<nat>, p: Problem) {
    exists path :: ListedAt(rules, place, at, path, p)
  }

  ghost predicate ListedBelow(rules: Rules, place: Place, at: seq<nat>, k: nat, p: Problem)
    requires k < Children(place.value)
  {
    Listed(rules, Place(Child(place.value, k), ShapeBelow(place.value, place.shape, k)), at + [k], p)
  }

  lemma ListedDown(rules: Rules, place: Place, at: seq<nat>, k: nat, path: seq<nat>, p: Problem)
    requires k < Children(place.value)
    ensures ListedAt(rules, place, at, [k] + path, p) <==>
            ListedAt(rules, Place(Child(place.value, k), ShapeBelow(place.value, place.shape, k)), at + [k], path, p)
  {
    assert ([k] + path)[1..] == path;
    assert at + ([k] + path) == at + [k] + path;
  }

  lemma ListedUp(rules: Rules, place: Place, at: seq<nat>, k: nat, p: Problem)
    requires k < Children(place.value) && ListedBelow(rules, place, at, k, p)
    ensures Listed(rules, place, at, p)
  {
    var child := Place(Child(place.value, k), ShapeBelow(place.value, place.shape, k));
    var path :| ListedAt(rules, child, at + [k], path, p);
    ListedDown(rules, place, at, k, path, p);
  }

  lemma ListedHere(rules: Rules, place: Place, at: seq<nat>, p: Problem)
    ensures ListedAt(rules, place, at, [], p) <==> OwnProblem(rules, place, at, p)
  {
    assert at + [] == at;
  }

  lemma ListedFurther(rules: Rules, place: Place, at: seq<nat>, path: seq<nat>, p: Problem)
    requires path != [] && ListedAt(rules, place, at, path, p)
    ensures path[0] < Children(place.value) && ListedBelow(rules, place, at, path[0], p)
  {
    assert path == [path[0]] + path[1..];
    ListedDown(rules, place, at, path[0], path[1..], p);
  }

  /** What is listed is a place's own, or listed below it. */
  lemma ListedSplit(rules: Rules, place: Place, at: seq<nat>, p: Problem)
    ensures Listed(rules, place, at, p) <==>
            || OwnProblem(rules, place, at, p)
            || exists k: nat :: k < Children(place.value) && ListedBelow(rules, place, at, k, p)
  {
    ListedHere(rules, place, at, p);
    if k: nat :| k < Children(place.value) && ListedBelow(rules, place, at, k, p) { ListedUp(rules, place, at, k, p); }
    if path :| ListedAt(rules, place, at, path, p) {
      if path != [] { ListedFurther(rules, place, at, path, p); }
    }
  }

  lemma {:induction false} ListedIff(rules: Rules, place: Place, at: seq<nat>, p: Problem)
    ensures p in Problems(rules, place.value, place.shape, at) <==> Listed(rules, place, at, p)
    decreases place.value, Children(place.value) + 1
  {
    var v, s := place.value, place.shape;
    ListedSplit(rules, place, at, p);
    if !IsLeaf(v) {
      BelowListed(rules, place, at, 0, p);
      assert p in Problems(rules, v, s, at) <==>
             p in ContainerProblems(v, s, at) || p in Below(rules, v, s, at, 0);
      OwnOrBelow(rules, place, at, p);
    }
  }

  /** A key of the place's `k`-th member, or something below it. */
  ghost predicate OneListed(rules: Rules, place: Place, at: seq<nat>, k: nat, p: Problem)
    requires k < Children(place.value)
  {
    || (place.value.Object? && p in KeyProblems(rules, place.value.members[k].key, place.shape, at))
    || ListedBelow(rules, place, at, k, p)
  }

  ghost predicate ListedFrom(rules: Rules, place: Place, at: seq<nat>, i: nat, p: Problem) {
    exists k: nat :: i <= k < Children(place.value) && OneListed(rules, place, at, k, p)
  }

  lemma ListedFromNext(rules: Rules, place: Place, at: seq<nat>, i: nat, p: Problem)
    requires i < Children(place.value)
    ensures ListedFrom(rules, place, at, i, p) <==>
            OneListed(rules, place, at, i, p) || ListedFrom(rules, place, at, i + 1, p)
  {
  }

  lemma OwnOrBelow(rules: Rules, place: Place, at: seq<nat>, p: Problem)
    requires !IsLeaf(place.value)
    ensures (p in ContainerProblems(place.value, place.shape, at)
             || ListedFrom(rules, place, at, 0, p)) <==>
            || OwnProblem(rules, place, at, p)
            || exists k: nat :: k < Children(place.value) && ListedBelow(rules, place, at, k, p)
  {
    if k: nat :| k < Children(place.value) && ListedBelow(rules, place, at, k, p) {
      assert OneListed(rules, place, at, k, p);
    }
    if OwnProblem(rules, place, at, p) && p !in ContainerProblems(place.value, place.shape, at) {
      var i :| 0 <= i < |place.value.members|
        && p in KeyProblems(rules, place.value.members[i].key, place.shape, at);
      assert OneListed(rules, place, at, i, p);
    }
  }

  lemma {:induction false} BelowListed(rules: Rules, place: Place, at: seq<nat>, i: nat, p: Problem)
    requires !IsLeaf(place.value) && i <= Children(place.value)
    ensures p in Below(rules, place.value, place.shape, at, i) <==>
            ListedFrom(rules, place, at, i, p)
    decreases place.value, Children(place.value) - i
  {
    var v, s := place.value, place.shape;
    if i < Children(v) {
      ListedIff(rules, Place(Child(v, i), ShapeBelow(v, s, i)), at + [i], p);
      BelowListed(rules, place, at, i + 1, p);
      OneListedIff(rules, place, at, i, p);
      ListedFromNext(rules, place, at, i, p);
      BelowStep(rules, place, at, i, p);
    } else {
      NothingBelow(rules, place, at, i, p);
    }
  }

  lemma BelowStep(rules: Rules, place: Place, at: seq<nat>, i: nat, p: Problem)
    requires !IsLeaf(place.value) && i < Children(place.value)
    ensures p in Below(rules, place.value, place.shape, at, i) <==>
            || p in OneBelow(rules, place.value, place.shape, at, i)
            || p in Below(rules, place.value, place.shape, at, i + 1)
  {
    BelowNext(rules, place.value, place.shape, at, i);
  }

  lemma NothingBelow(rules: Rules, place: Place, at: seq<nat>, i: nat, p: Problem)
    requires !IsLeaf(place.value) && i == Children(place.value)
    ensures p !in Below(rules, place.value, place.shape, at, i) && !ListedFrom(rules, place, at, i, p)
  {
  }

  lemma OneListedIff(rules: Rules, place: Place, at: seq<nat>, i: nat, p: Problem)
    requires !IsLeaf(place.value) && i < Children(place.value)
    requires var v, s := place.value, place.shape;
             p in Problems(rules, Child(v, i), ShapeBelow(v, s, i), at + [i]) <==> ListedBelow(rules, place, at, i, p)
    ensures p in OneBelow(rules, place.value, place.shape, at, i) <==> OneListed(rules, place, at, i, p)
  {
  }

  // ----- the whole list

  lemma {:induction false} MarkerProblemIff(numbers: seq<Text>, p: Problem)
    ensures p in MarkerProblems(numbers) <==>
            p.NotDecimal? && p.marker in numbers && Decimals.Read(p.marker).None?
  {
    if numbers != [] {
      SplitHead(numbers);
      MarkerProblemIff(numbers[1..], p);
    }
  }

  lemma {:induction false} TopLevelKeyIff(keys: seq<Text>, expected: seq<Text>, p: Problem)
    ensures p in TopLevelProblems(keys, expected) <==> p.TopLevelKey? && p.key in keys && p.key !in expected
  {
    if keys != [] {
      SplitHead(keys);
      TopLevelKeyIff(keys[1..], expected, p);
    }
  }

  lemma ProblemBeforeIff(rules: Rules, message: Value, p: Problem)
    requires !IsLeaf(message)
    ensures p in ProblemsBefore(rules, message) <==>
            (p.NotDecimal? || p.NoMarkers? || p.TopLevelKey?) && True(rules, message, p)
  {
    MarkerProblemIff(rules.numbers, p);
    if rules.topLevelKeys.Some? { TopLevelKeyIff(KeysFrom(message, 0), rules.topLevelKeys.value, p); }
  }

  lemma WalkedIff(rules: Rules, message: Value, p: Problem)
    requires !IsLeaf(message)
    ensures p in Problems(rules, message, rules.shape, []) <==> PlaceOf(p).Some? && True(rules, message, p)
  {
    var place := Place(message, rules.shape);
    ListedIff(rules, place, [], p);
    forall path | At(place, path).Some?
      ensures ListedAt(rules, place, [], path, p) <==>
              PlaceOf(p) == Some(path) && TrueAt(rules, At(place, path).value, p)
    {
      assert [] + path == path;
      OwnProblemIff(rules, At(place, path).value, path, p);
    }
    if PlaceOf(p).Some? && True(rules, message, p) { assert ListedAt(rules, place, [], PlaceOf(p).value, p); }
  }

  /** A problem is in the list exactly when it is true: of the rules, of the message, or of the place it names. */
  lemma ProblemListedIff(rules: Rules, message: Value, p: Problem)
    ensures p in AllProblems(rules, message) <==> True(rules, message, p)
  {
    if IsLeaf(message) {
      MarkerProblemIff(rules.numbers, p);
    } else {
      ProblemBeforeIff(rules, message, p);
      WalkedIff(rules, message, p);
      LeafCountIff(Place(message, rules.shape));
    }
  }

  // ----- a pinned value

  const INFINITY_TEXT: Text := [0x49, 0x6e, 0x66, 0x69, 0x6e, 0x69, 0x74, 0x79]

  /** A number is finite exactly unless it prints as one of the three that are not. */
  ghost predicate Printed(v: Value) {
    v.Number? ==> (v.finite <==> v.text != NAN_TEXT && v.text != INFINITY_TEXT && v.text != [DASH] + INFINITY_TEXT)
  }

  /** A pin to a value accepts that very value and no other; no value at all where the pin is not a number, and
   *  none but a string, a number or a truth value ever. */
  lemma PinnedIff(expected: Value, v: Value)
    requires Printed(expected) && Printed(v)
    ensures Accepts(Exactly(expected), v) <==>
            v == expected && (v.String? || v.Boolean? || (v.Number? && v.text != NAN_TEXT))
  {
  }

  // ----- a strict instant

  /** With seconds, a fraction of so many digits, and `Z`. */
  ghost predicate StrictlyShaped(t: Text, fraction: nat) {
    && fraction <= 6 && DisclosureShapes.InstantShape(t, true, fraction)
    && |t| == DisclosureShapes.ZoneStart(true, fraction) + 1 && t[|t| - 1] == 0x5a
  }

  /** A strict instant is an instant as any text may hold one, with seconds, at most six digits after them, in UTC. */
  lemma StrictInstantIff(t: Text)
    ensures IsInstant(t) <==> exists fraction :: StrictlyShaped(t, fraction)
  {
    if IsInstant(t) {
      var fraction: nat := if |t| == 20 then 0 else |t| - 21;
      assert StrictlyShaped(t, fraction);
    }
    if fraction :| StrictlyShaped(t, fraction) {
      assert DigitsAt(t, 0, 4) && DigitsAt(t, 5, 2) && DigitsAt(t, 8, 2) && DigitsAt(t, 11, 2);
      assert DigitsAt(t, 14, 2) && DigitsAt(t, 17, 2);
      assert fraction > 0 ==> DigitsAt(t, 20, |t| - 21);
    }
  }

  // ----- a designated leaf

  /** What may stand where a kind of leaf is designated. */
  ghost predicate IsA(v: Value, leaf: Leaf) {
    match leaf
    case NullLeaf => v.Null?
    case BooleanLeaf => v.Boolean?
    case NumberLeaf => v.Number? && v.finite
    case StringLeaf => v.String?
    case InstantLeaf => v.String? && IsInstant(v.text)
  }

  /** A value fits exactly when it may stand where some designated kind may: an instant where strings are, too. */
  lemma FitsIff(allowed: seq<Leaf>, v: Value)
    ensures Fits(allowed, v) <==> exists leaf :: leaf in allowed && IsA(v, leaf)
  {
    if Fits(allowed, v) {
      var kind := LeafKind(v).value;
      assert kind !in allowed ==> StringLeaf in allowed && IsA(v, StringLeaf);
      assert IsA(v, kind);
    }
  }

  /** A leaf is left unsearched exactly when it is an instant where instants are designated. */
  lemma ExemptIff(v: Value, s: Option<Shape>)
    ensures Exempt(v, s) <==>
              IsA(v, InstantLeaf) && exists allowed :: s == Some(Leaves(allowed)) && InstantLeaf in allowed
  {
    if Exempt(v, s) { assert s == Some(Leaves(s.value.allowed)); }
  }
}
