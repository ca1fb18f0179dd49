/** What an empty list of problems means, place by place. */
module StoredMessageProofs {
  import opened Texts
  import Decimals
  import opened StoredMessages

  // ----- what a clean message is

  /** A message conforms to a shape at every depth: no key more or less, and every leaf as its shape has it. */
  ghost predicate Conforms(v: Value, s: Shape)
    decreases v
  {
    match v
    case Array(items) => s.ArrayOf? && forall i | 0 <= i < |items| :: Conforms(items[i], s.item)
    case Object(ms) =>
      && s.ObjectOf?
      && (forall f | 0 <= f < |s.fields| && !s.fields[f].optional :: HasKey(ms, s.fields[f].key))
      && (forall i | 0 <= i < |ms| ::
            FieldOf(s.fields, ms[i].key).Some? && Conforms(ms[i].value, FieldOf(s.fields, ms[i].key).value.shape))
    case _ => if s.Pinned? then Accepts(s.pin, v) else s.Leaves? && Fits(s.allowed, v)
  }

  /** A value in a message, and the shape designated for it, if any. */
  datatype Place = Place(value: Value, shape: Option<Shape>)

  ghost function ShapeBelow(v: Value, s: Option<Shape>, i: nat): Option<Shape>
    requires i < Children(v)
  {
    if v.Array? then ItemShape(s) else FieldShape(s, v.members[i].key)
  }

  /** What stands at a path: which child to take, one level after another. */
  ghost function At(p: Place, path: seq<nat>): Option<Place>
    decreases |path|
  {
    if path == [] then Some(p)
    else if path[0] >= Children(p.value) then None
    else At(Place(Child(p.value, path[0]), ShapeBelow(p.value, p.shape, path[0])), path[1..])
  }

  ghost predicate NoText(rules: Rules, text: Text, markers: seq<Text>) {
    forall m | m in markers :: !Contains(rules.lower(text), rules.lower(m))
  }

  /** A word states a number: the exact value of the decimal literal it is. */
  ghost predicate States(word: Text, x: real) {
    Decimals.Read(word).Some? && Decimals.Value(Decimals.Read(word).value) == x
  }

  /** No word states the number a marker states, or one near a forbidden value. */
  ghost predicate NoNumber(rules: Rules, words: seq<Text>) {
    forall w | w in words ::
      && (forall m, x | m in rules.numbers && States(m, x) :: !States(w, x))
      && (Decimals.Read(w).Some? ==> !rules.near(w))
  }

  ghost predicate KeyClean(rules: Rules, key: Text) {
    NoText(rules, key, rules.anywhere + rules.inKeys) && NoNumber(rules, Words(key))
  }

  /** A place carries no marker: not in a key, and not in a leaf unless it is an instant designated as one. */
  ghost predicate PlaceClean(rules: Rules, p: Place) {
    match p.value
    case Object(ms) => forall i | 0 <= i < |ms| :: KeyClean(rules, ms[i].key)
    case String(t) => Exempt(p.value, p.shape) || (NoText(rules, t, rules.anywhere) && NoNumber(rules, Words(t)))
    case Number(_, t) => NoText(rules, t, rules.anywhere) && NoNumber(rules, [t])
    case _ => true
  }

  ghost predicate AllClean(rules: Rules, p: Place) {
    forall path | At(p, path).Some? :: PlaceClean(rules, At(p, path).value)
  }

  // ----- one text

  lemma NoneOfBoth(a: seq<Problem>, b: seq<Problem>)
    ensures a + b == [] <==> a == [] && b == []
  {
    if a + b == [] { assert |a + b| == |a| + |b|; }
  }

  lemma SplitHead(xs: seq<Text>)
    requires xs != []
    ensures forall x :: x in xs <==> x == xs[0] || x in xs[1..]
  {
    assert xs == [xs[0]] + xs[1..];
  }

  lemma {:induction false} NoTextIff(rules: Rules, text: Text, markers: seq<Text>, at: seq<nat>)
    ensures TextProblems(rules, text, markers, at) == [] <==> NoText(rules, text, markers)
  {
    if markers != [] {
      SplitHead(markers);
      NoTextIff(rules, text, markers[1..], at);
    }
  }

  /** The texts of two literals are the same exactly when they state the same number. */
  lemma SameNumberIff(w: Text, m: Text)
    requires Decimals.Read(w).Some?
    ensures CanonicalOf(m) == CanonicalOf(w) <==> exists x :: States(m, x) && States(w, x)
  {
    if Decimals.Read(m).Some? {
      Decimals.SameCanonicalIffSameValue(Decimals.Read(w).value, Decimals.Read(m).value);
      if CanonicalOf(m) == CanonicalOf(w) { assert States(m, Decimals.Value(Decimals.Read(w).value)); }
    }
  }

  ghost predicate NotStated(w: Text, numbers: seq<Text>) {
    forall m, x | m in numbers && States(m, x) :: !States(w, x)
  }

  lemma {:induction false} NotStatedIff(w: Text, numbers: seq<Text>, at: seq<nat>)
    requires Decimals.Read(w).Some?
    ensures NumberProblems(w, numbers, at) == [] <==> NotStated(w, numbers)
  {
    if numbers != [] {
      SplitHead(numbers);
      NotStatedIff(w, numbers[1..], at);
      SameNumberIff(w, numbers[0]);
    }
  }

  ghost predicate WordClean(rules: Rules, w: Text) {
    NotStated(w, rules.numbers) && (Decimals.Read(w).Some? ==> !rules.near(w))
  }

  lemma {:induction false} NoNumberIff(rules: Rules, words: seq<Text>, at: seq<nat>)
    ensures WordProblems(rules, words, at) == [] <==> forall w | w in words :: WordClean(rules, w)
  {
    if words != [] {
      SplitHead(words);
      NoNumberIff(rules, words[1..], at);
      WordIff(rules, words[0], at);
      NoneOfBoth(OneWord(rules, words[0], at), WordProblems(rules, words[1..], at));
    }
  }

  ghost function OneWord(rules: Rules, w: Text, at: seq<nat>): seq<Problem> {
    if CanonicalOf(w).None? then []
    else NumberProblems(w, rules.numbers, at) + if rules.near(w) then [NearFound(w, at)] else []
  }

  lemma WordIff(rules: Rules, w: Text, at: seq<nat>)
    ensures OneWord(rules, w, at) == [] <==> WordClean(rules, w)
  {
    if Decimals.Read(w).Some? {
      NotStatedIff(w, rules.numbers, at);
      NoneOfBoth(NumberProblems(w, rules.numbers, at), if rules.near(w) then [NearFound(w, at)] else []);
    }
  }

  lemma NoNumberIs(rules: Rules, words: seq<Text>)
    ensures NoNumber(rules, words) <==> forall w | w in words :: WordClean(rules, w)
  {
    if NoNumber(rules, words) {
      forall w | w in words ensures WordClean(rules, w) {}
    }
  }

  // ----- the words of a text

  /** A maximal run of characters that separate no words. */
  ghost predicate IsWord(t: Text, i: int, j: int) {
    && 0 <= i < j <= |t| && (forall k | i <= k < j :: !EndsWord(t[k]))
    && (i > 0 ==> EndsWord(t[i - 1])) && (j < |t| ==> EndsWord(t[j]))
  }

  lemma {:induction false} WordLengthIs(t: Text)
    ensures forall k | 0 <= k < WordLength(t) :: !EndsWord(t[k])
    ensures WordLength(t) < |t| ==> EndsWord(t[WordLength(t)])
  {
    if t != [] && !EndsWord(t[0]) {
      WordLengthIs(t[1..]);
      var n := WordLength(t[1..]);
      forall k | 0 <= k < n + 1 ensures !EndsWord(t[k]) { assert k > 0 ==> t[k] == t[1..][k - 1]; }
      assert n < |t| - 1 ==> t[1..][n] == t[n + 1];
    }
  }

  /** A word of what follows is a word of the whole, where what follows starts at a separator or after one. */
  lemma WordOfRest(t: Text, m: nat, i: int, j: int)
    requires m <= |t| && (0 < m < |t| ==> EndsWord(t[m]) || EndsWord(t[m - 1]))
    ensures IsWord(t[m..], i, j) ==> IsWord(t, i + m, j + m) && t[i + m..j + m] == t[m..][i..j]
    ensures IsWord(t, i, j) && i >= m ==> IsWord(t[m..], i - m, j - m) && t[m..][i - m..j - m] == t[i..j]
  {
    var rest := t[m..];
    forall k | 0 <= k < |rest| ensures rest[k] == t[m + k] {}
    if IsWord(rest, i, j) {
      forall k | i + m <= k < j + m ensures !EndsWord(t[k]) { assert rest[k - m] == t[k]; }
    }
  }

  lemma FirstWord(t: Text, i: int, j: int)
    requires WordLength(t) > 0
    ensures IsWord(t, 0, WordLength(t))
    ensures IsWord(t, i, j) ==> (i == 0 && j == WordLength(t)) || i >= WordLength(t)
  {
    WordLengthIs(t);
    var n := WordLength(t);
    assert 0 < i <= n ==> !EndsWord(t[i - 1]);
    assert 0 <= j < n ==> !EndsWord(t[j]);
  }

  ghost predicate StandsIn(w: Text, t: Text) {
    exists i, j :: IsWord(t, i, j) && t[i..j] == w
  }

  /** The words searched are the maximal runs between separators, all of them and nothing else. */
  lemma {:induction false} WordsAreRuns(t: Text, w: Text)
    ensures w in Words(t) <==> StandsIn(w, t)
    decreases |t|
  {
    if t != [] {
      var n := WordLength(t);
      WordLengthIs(t);
      var m := if n == 0 then 1 else n;
      WordsAreRuns(t[m..], w);
      if StandsIn(w, t[m..]) {
        var i, j :| IsWord(t[m..], i, j) && t[m..][i..j] == w;
        WordOfRest(t, m, i, j);
      }
      if StandsIn(w, t) {
        var i, j :| IsWord(t, i, j) && t[i..j] == w;
        WordOfRest(t, m, i, j);
        if n > 0 { FirstWord(t, i, j); }
      }
      if n > 0 { FirstWord(t, 0, n); }
    }
  }

  // ----- one place

  lemma {:induction false} MissingIff(fields: seq<Field>, ms: seq<Member>, at: seq<nat>)
    ensures MissingProblems(fields, ms, at) == [] <==>
            forall f | 0 <= f < |fields| && !fields[f].optional :: HasKey(ms, fields[f].key)
  {
    if fields != [] {
      MissingIff(fields[1..], ms, at);
      if forall f | 0 <= f < |fields| && !fields[f].optional :: HasKey(ms, fields[f].key) {
        forall f | 0 <= f < |fields[1..]| && !fields[1..][f].optional ensures HasKey(ms, fields[1..][f].key) {
          assert fields[1..][f] == fields[f + 1];
        }
      }
      if MissingProblems(fields, ms, at) == [] {
        forall f | 0 <= f < |fields| && !fields[f].optional ensures HasKey(ms, fields[f].key) {
          if f > 0 { assert fields[f] == fields[1..][f - 1]; }
        }
      }
    }
  }

  lemma KeyIff(rules: Rules, key: Text, s: Option<Shape>, at: seq<nat>)
    ensures KeyProblems(rules, key, s, at) == [] <==>
            KeyClean(rules, key) && (Named(s).Some? ==> FieldOf(Named(s).value, key).Some?)
  {
    NoTextIff(rules, key, rules.anywhere + rules.inKeys, at);
    NoNumberIff(rules, Words(key), at);
    NoNumberIs(rules, Words(key));
  }

  lemma LeafIff(rules: Rules, v: Value, s: Option<Shape>, at: seq<nat>)
    requires IsLeaf(v)
    ensures LeafProblems(rules, v, s, at) == []
            <==> PlaceClean(rules, Place(v, s)) && (s.Some? ==> Conforms(v, s.value))
  {
    if v.String? || v.Number? {
      var words := if v.String? then Words(v.text) else [v.text];
      NoTextIff(rules, v.text, rules.anywhere, at);
      NoNumberIff(rules, words, at);
      NoNumberIs(rules, words);
    }
  }

  // ----- the whole walk

  /** A member's key carries no marker and is named where the shape names keys. */
  ghost predicate KeyGood(rules: Rules, v: Value, s: Option<Shape>, i: nat)
    requires i < Children(v)
  {
    v.Object? ==>
      KeyClean(rules, v.members[i].key) && (Named(s).Some? ==> FieldOf(Named(s).value, v.members[i].key).Some?)
  }

  ghost predicate ContainerGood(v: Value, s: Option<Shape>) {
    match v
    case Array(_) => s.Some? ==> s.value.ArrayOf?
    case Object(ms) =>
      s.Some? ==> s.value.ObjectOf?
                  && forall f | 0 <= f < |s.value.fields| && !s.value.fields[f].optional ::
                       HasKey(ms, s.value.fields[f].key)
    case _ => true
  }

  /** Nothing wrong at a place or below it, level by level. */
  ghost predicate Good(rules: Rules, v: Value, s: Option<Shape>)
    decreases v
  {
    if IsLeaf(v) then PlaceClean(rules, Place(v, s)) && (s.Some? ==> Conforms(v, s.value))
    else
      && ContainerGood(v, s)
      && forall i | 0 <= i < Children(v) :: KeyGood(rules, v, s, i) && Good(rules, Child(v, i), ShapeBelow(v, s, i))
  }

  ghost predicate ChildGood(rules: Rules, v: Value, s: Option<Shape>, i: nat)
    requires i < Children(v)
  {
    KeyGood(rules, v, s, i) && Good(rules, Child(v, i), ShapeBelow(v, s, i))
  }

  lemma ContainerIff(v: Value, s: Option<Shape>, at: seq<nat>)
    ensures ContainerProblems(v, s, at) == [] <==> ContainerGood(v, s)
  {
    if v.Object? && Named(s).Some? { MissingIff(Named(s).value, v.members, at); }
  }

  ghost function Below(rules: Rules, v: Value, s: Option<Shape>, at: seq<nat>, i: nat): seq<Problem>
    requires !IsLeaf(v) && i <= Children(v)
  {
    if v.Array? then ItemProblems(rules, v, s, at, i) else MemberProblems(rules, v, s, at, i)
  }

  ghost function OneBelow(rules: Rules, v: Value, s: Option<Shape>, at: seq<nat>, i: nat): seq<Problem>
    requires !IsLeaf(v) && i < Children(v)
  {
    (if v.Array? then [] else KeyProblems(rules, v.members[i].key, s, at))
    + Problems(rules, Child(v, i), ShapeBelow(v, s, i), at + [i])
  }

  lemma BelowNext(rules: Rules, v: Value, s: Option<Shape>, at: seq<nat>, i: nat)
    requires !IsLeaf(v) && i < Children(v)
    ensures Below(rules, v, s, at, i) == OneBelow(rules, v, s, at, i) + Below(rules, v, s, at, i + 1)
  {
    if v.Array? {
      var below := Problems(rules, Child(v, i), ShapeBelow(v, s, i), at + [i]);
      assert [] + below == below;
    }
  }

  lemma OneBelowIff(rules: Rules, v: Value, s: Option<Shape>, at: seq<nat>, i: nat)
    requires !IsLeaf(v) && i < Children(v)
    requires Problems(rules, Child(v, i), ShapeBelow(v, s, i), at + [i]) == []
             <==> Good(rules, Child(v, i), ShapeBelow(v, s, i))
    ensures OneBelow(rules, v, s, at, i) == [] <==> ChildGood(rules, v, s, i)
  {
    var keys := if v.Array? then [] else KeyProblems(rules, v.members[i].key, s, at);
    if v.Object? { KeyIff(rules, v.members[i].key, s, at); }
    NoneOfBoth(keys, Problems(rules, Child(v, i), ShapeBelow(v, s, i), at + [i]));
  }

  lemma {:induction false} ProblemsIff(rules: Rules, v: Value, s: Option<Shape>, at: seq<nat>)
    ensures Problems(rules, v, s, at) == [] <==> Good(rules, v, s)
    decreases v, Children(v) + 1
  {
    if IsLeaf(v) {
      LeafIff(rules, v, s, at);
    } else {
      ContainerIff(v, s, at);
      BelowIff(rules, v, s, at, 0);
      NoneOfBoth(ContainerProblems(v, s, at), Below(rules, v, s, at, 0));
      GoodIs(rules, v, s);
    }
  }

  lemma GoodIs(rules: Rules, v: Value, s: Option<Shape>)
    requires !IsLeaf(v)
    ensures Good(rules, v, s) <==> ContainerGood(v, s) && ChildrenGood(rules, v, s, 0)
  {
    if Good(rules, v, s) {
      forall i | 0 <= i < Children(v) ensures ChildGood(rules, v, s, i) {}
    }
    if ChildrenGood(rules, v, s, 0) {
      forall i | 0 <= i < Children(v) ensures KeyGood(rules, v, s, i) && Good(rules, Child(v, i), ShapeBelow(v, s, i)) {
        assert ChildGood(rules, v, s, i);
      }
    }
  }

  ghost predicate ChildrenGood(rules: Rules, v: Value, s: Option<Shape>, i: nat) {
    forall j | i <= j < Children(v) :: ChildGood(rules, v, s, j)
  }

  lemma {:induction false} BelowIff(rules: Rules, v: Value, s: Option<Shape>, at: seq<nat>, i: nat)
    requires !IsLeaf(v) && i <= Children(v)
    ensures Below(rules, v, s, at, i) == [] <==> ChildrenGood(rules, v, s, i)
    decreases v, Children(v) - i
  {
    if i < Children(v) {
      ProblemsIff(rules, Child(v, i), ShapeBelow(v, s, i), at + [i]);
      BelowIff(rules, v, s, at, i + 1);
      BelowIffNext(rules, v, s, at, i);
    }
  }

  lemma BelowIffNext(rules: Rules, v: Value, s: Option<Shape>, at: seq<nat>, i: nat)
    requires !IsLeaf(v) && i < Children(v)
    requires Problems(rules, Child(v, i), ShapeBelow(v, s, i), at + [i]) == []
             <==> Good(rules, Child(v, i), ShapeBelow(v, s, i))
    requires Below(rules, v, s, at, i + 1) == [] <==> ChildrenGood(rules, v, s, i + 1)
    ensures Below(rules, v, s, at, i) == [] <==> ChildrenGood(rules, v, s, i)
  {
    OneBelowIff(rules, v, s, at, i);
    BelowNext(rules, v, s, at, i);
    NoneOfBoth(OneBelow(rules, v, s, at, i), Below(rules, v, s, at, i + 1));
    ChildrenGoodNext(rules, v, s, i);
  }

  lemma ChildrenGoodNext(rules: Rules, v: Value, s: Option<Shape>, i: nat)
    requires i < Children(v)
    ensures ChildrenGood(rules, v, s, i) <==> ChildGood(rules, v, s, i) && ChildrenGood(rules, v, s, i + 1)
  {
  }

  // ----- level by level is everywhere

  lemma {:induction false} GoodConforms(rules: Rules, v: Value, s: Shape)
    requires Good(rules, v, Some(s))
    ensures Conforms(v, s)
    decreases v
  {
    if !IsLeaf(v) {
      forall i | 0 <= i < Children(v) && ShapeBelow(v, Some(s), i).Some?
        ensures Conforms(Child(v, i), ShapeBelow(v, Some(s), i).value)
      {
        GoodConforms(rules, Child(v, i), ShapeBelow(v, Some(s), i).value);
      }
      GoodIs(rules, v, Some(s));
      ConformsIs(rules, v, s);
    }
  }

  lemma ConformsIs(rules: Rules, v: Value, s: Shape)
    requires !IsLeaf(v) && ContainerGood(v, Some(s))
             && forall i | 0 <= i < Children(v) :: ChildGood(rules, v, Some(s), i)
    requires forall i | 0 <= i < Children(v) && ShapeBelow(v, Some(s), i).Some? ::
               Conforms(Child(v, i), ShapeBelow(v, Some(s), i).value)
    ensures Conforms(v, s)
  {
    if v.Array? {
      forall i | 0 <= i < |v.items| ensures Conforms(v.items[i], s.item) {
        assert Child(v, i) == v.items[i] && ShapeBelow(v, Some(s), i) == Some(s.item);
      }
    } else {
      forall i | 0 <= i < |v.members|
        ensures FieldOf(s.fields, v.members[i].key).Some?
                && Conforms(v.members[i].value, FieldOf(s.fields, v.members[i].key).value.shape)
      {
        assert ChildGood(rules, v, Some(s), i);
        assert Child(v, i) == v.members[i].value;
        assert ShapeBelow(v, Some(s), i) == Some(FieldOf(s.fields, v.members[i].key).value.shape);
      }
    }
  }

  lemma GoodIsClean(rules: Rules, p: Place)
    requires Good(rules, p.value, p.shape)
    ensures PlaceClean(rules, p)
  {
    if p.value.Object? {
      GoodIs(rules, p.value, p.shape);
      forall i | 0 <= i < |p.value.members| ensures KeyClean(rules, p.value.members[i].key) {
        assert ChildGood(rules, p.value, p.shape, i);
      }
    }
  }

  lemma {:induction false} GoodAt(rules: Rules, p: Place, path: seq<nat>)
    requires Good(rules, p.value, p.shape) && At(p, path).Some?
    ensures Good(rules, At(p, path).value.value, At(p, path).value.shape)
    decreases |path|
  {
    if path != [] {
      GoodIs(rules, p.value, p.shape);
      assert ChildGood(rules, p.value, p.shape, path[0]);
      GoodAt(rules, Place(Child(p.value, path[0]), ShapeBelow(p.value, p.shape, path[0])), path[1..]);
    }
  }

  lemma CleanBelow(rules: Rules, p: Place, i: nat)
    requires AllClean(rules, p) && i < Children(p.value)
    ensures AllClean(rules, Place(Child(p.value, i), ShapeBelow(p.value, p.shape, i)))
  {
    var q := Place(Child(p.value, i), ShapeBelow(p.value, p.shape, i));
    forall path | At(q, path).Some? ensures PlaceClean(rules, At(q, path).value) {
      assert ([i] + path)[1..] == path;
      assert At(p, [i] + path) == At(q, path);
    }
  }

  lemma KeyGoodOf(rules: Rules, v: Value, s: Option<Shape>, i: nat)
    requires i < Children(v) && PlaceClean(rules, Place(v, s)) && (s.Some? ==> Conforms(v, s.value))
    ensures KeyGood(rules, v, s, i)
  {
    if v.Object? { assert KeyClean(rules, v.members[i].key); }
  }

  lemma ConformsBelow(v: Value, s: Shape, i: nat)
    requires i < Children(v) && Conforms(v, s) && ShapeBelow(v, Some(s), i).Some?
    ensures Conforms(Child(v, i), ShapeBelow(v, Some(s), i).value)
  {
  }

  lemma {:induction false} CleanIsGood(rules: Rules, v: Value, s: Option<Shape>)
    requires AllClean(rules, Place(v, s)) && (s.Some? ==> Conforms(v, s.value))
    ensures Good(rules, v, s)
    decreases v
  {
    assert At(Place(v, s), []) == Some(Place(v, s));
    if !IsLeaf(v) {
      forall i | 0 <= i < Children(v) ensures ChildGood(rules, v, s, i) {
        KeyGoodOf(rules, v, s, i);
        CleanBelow(rules, Place(v, s), i);
        if ShapeBelow(v, s, i).Some? { ConformsBelow(v, s.value, i); }
        CleanIsGood(rules, Child(v, i), ShapeBelow(v, s, i));
      }
      GoodIs(rules, v, s);
    }
  }

  // ----- leaves

  ghost predicate HasLeaf(p: Place) {
    exists path :: At(p, path).Some? && IsLeaf(At(p, path).value.value)
  }

  lemma LeafBelow(p: Place, i: nat)
    requires i < Children(p.value) && HasLeaf(Place(Child(p.value, i), ShapeBelow(p.value, p.shape, i)))
    ensures HasLeaf(p)
  {
    var q := Place(Child(p.value, i), ShapeBelow(p.value, p.shape, i));
    var path :| At(q, path).Some? && IsLeaf(At(q, path).value.value);
    assert ([i] + path)[1..] == path;
    assert At(p, [i] + path) == At(q, path);
  }

  lemma {:induction false} LeafCountIff(p: Place)
    ensures LeafCount(p.value) > 0 <==> HasLeaf(p)
    decreases p.value, Children(p.value) + 1
  {
    if IsLeaf(p.value) {
      assert At(p, []) == Some(p);
    } else {
      LeafCountFromIff(p, 0);
      if HasLeaf(p) {
        var path :| At(p, path).Some? && IsLeaf(At(p, path).value.value);
        var q := Place(Child(p.value, path[0]), ShapeBelow(p.value, p.shape, path[0]));
        assert At(q, path[1..]) == At(p, path);
        assert HasLeaf(q);
      }
      if i: nat :| i < Children(p.value) && HasLeaf(Place(Child(p.value, i), ShapeBelow(p.value, p.shape, i))) {
        LeafBelow(p, i);
      }
    }
  }

  lemma {:induction false} LeafCountFromIff(p: Place, i: nat)
    requires i <= Children(p.value)
    ensures LeafCountFrom(p.value, i) > 0 <==>
            exists j: nat :: i <= j < Children(p.value)
                && HasLeaf(Place(Child(p.value, j), ShapeBelow(p.value, p.shape, j)))
    decreases p.value, Children(p.value) - i
  {
    if i < Children(p.value) {
      LeafCountIff(Place(Child(p.value, i), ShapeBelow(p.value, p.shape, i)));
      LeafCountFromIff(p, i + 1);
    }
  }

  // ----- the rules and the top level

  lemma {:induction false} MarkersIff(numbers: seq<Text>)
    ensures MarkerProblems(numbers) == [] <==> forall m | m in numbers :: Decimals.Read(m).Some?
  {
    if numbers != [] {
      SplitHead(numbers);
      MarkersIff(numbers[1..]);
    }
  }

  lemma {:induction false} TopLevelIff(keys: seq<Text>, expected: seq<Text>)
    ensures TopLevelProblems(keys, expected) == [] <==> forall k | k in keys :: k in expected
  {
    if keys != [] {
      SplitHead(keys);
      TopLevelIff(keys[1..], expected);
    }
  }

  ghost predicate RulesUsable(rules: Rules) {
    && (forall m | m in rules.numbers :: Decimals.Read(m).Some?)
    && |rules.anywhere| + |rules.inKeys| + |rules.numbers| + rules.nearValues > 0
  }

  ghost predicate TopLevelKnown(rules: Rules, message: Value) {
    rules.topLevelKeys.Some? ==> forall k | k in KeysFrom(message, 0) :: k in rules.topLevelKeys.value
  }

  lemma BeforeIff(rules: Rules, message: Value)
    ensures ProblemsBefore(rules, message) == [] <==> RulesUsable(rules) && TopLevelKnown(rules, message)
  {
    MarkersIff(rules.numbers);
    if rules.topLevelKeys.Some? { TopLevelIff(KeysFrom(message, 0), rules.topLevelKeys.value); }
  }

  /**
   * No problem is found exactly when the rules are usable, the message is an object with a leaf and
   * no unexpected top-level key, it conforms to its shape at every depth, and no place in it carries
   * a marker: no key, and no leaf but an instant where the shape designates one.
   */
  lemma NoProblemsIff(rules: Rules, message: Value)
    ensures AllProblems(rules, message) == [] <==>
            && RulesUsable(rules) && !IsLeaf(message) && TopLevelKnown(rules, message)
                && HasLeaf(Place(message, rules.shape))
            && (rules.shape.Some? ==> Conforms(message, rules.shape.value))
            && AllClean(rules, Place(message, rules.shape))
  {
    if !IsLeaf(message) {
      BeforeIff(rules, message);
      LeafCountIff(Place(message, rules.shape));
      WalkIff(rules, message);
      var end := if LeafCount(message) == 0 then [NoLeaves] else [];
      NoneOfBoth(ProblemsBefore(rules, message), Problems(rules, message, rules.shape, []));
      NoneOfBoth(ProblemsBefore(rules, message) + Problems(rules, message, rules.shape, []), end);
    }
  }

  lemma WalkIff(rules: Rules, message: Value)
    ensures Problems(rules, message, rules.shape, []) == [] <==>
            (rules.shape.Some? ==> Conforms(message, rules.shape.value)) && AllClean(rules, Place(message, rules.shape))
  {
    ProblemsIff(rules, message, rules.shape, []);
    var p := Place(message, rules.shape);
    if Good(rules, message, rules.shape) {
      if rules.shape.Some? { GoodConforms(rules, message, rules.shape.value); }
      forall path | At(p, path).Some? ensures PlaceClean(rules, At(p, path).value) {
        GoodAt(rules, p, path);
        GoodIsClean(rules, At(p, path).value);
      }
    }
    if (rules.shape.Some? ==> Conforms(message, rules.shape.value)) && AllClean(rules, p) {
      CleanIsGood(rules, message, rules.shape);
    }
  }
}
