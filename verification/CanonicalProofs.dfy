/** What the canonical text determines: a reader gets the data back, whatever order it was held in. */
module CanonicalProofs {
  import opened Texts
  import opened JsonStrings
  import opened Utf8Encoding
  import opened Canonical

  // ----- values, apart from the printer

  /** An object's own keys are distinct, at every level: what any JavaScript value satisfies. */
  ghost predicate Proper(v: Json) {
    match v
    case Arr(items) => forall i | 0 <= i < |items| :: Proper(items[i])
    case Obj(ms) => Distinct(Keys(ms)) && forall i | 0 <= i < |ms| :: Proper(ms[i].value)
    case _ => true
  }

  /** No array in it has an unassigned slot, at any level. */
  ghost predicate Dense(v: Json) {
    match v
    case Hole => false
    case Arr(items) => forall i | 0 <= i < |items| :: Dense(items[i])
    case Obj(ms) => forall i | 0 <= i < |ms| :: Dense(ms[i].value)
    case _ => true
  }

  /** Plain data that fits below a depth: no refused value, integers safe, not nested too deep. */
  ghost predicate Sealable(v: Json, depth: nat) {
    depth <= MAX_DEPTH &&
    match v
    case Num(n) => -MAX_SAFE_INTEGER <= n <= MAX_SAFE_INTEGER
    case Arr(items) => forall i | 0 <= i < |items| :: items[i].Hole? || Sealable(items[i], depth + 1)
    case Obj(ms) => forall i | 0 <= i < |ms| :: Sealable(ms[i].value, depth + 1)
    case Hole => false
    case Other => false
    case _ => true
  }

  /** The same data: arrays item by item, objects key by key in whatever order each holds them. */
  ghost predicate SameData(v: Json, w: Json) {
    match (v, w)
    case (Arr(a), Arr(b)) => |a| == |b| && forall i | 0 <= i < |a| :: SameData(a[i], b[i])
    case (Obj(a), Obj(b)) =>
      && (forall k :: k in Keys(a) <==> k in Keys(b))
      && (forall k | k in Keys(a) :: SameData(Lookup(a, k), Lookup(b, k)))
    case _ => v == w
  }

  /** What was read is the data a value holds, in whatever order the reader keeps an object's members. */
  ghost predicate ReadsBack(v: Json, read: Option<Json>) {
    read.Some? && SameData(v, read.value)
  }

  /** The value with every object's members in key order. */
  ghost function Normal(v: Json): Json
    decreases v
  {
    match v
    case Arr(items) => Arr(NormalItems(items))
    case Obj(ms) =>
      SortKeepsKeys(Keys(ms));
      Obj(NormalMembers(ms, Sort(Keys(ms))))
    case _ => v
  }

  ghost function NormalItems(items: seq<Json>): (r: seq<Json>)
    ensures |r| == |items| && forall i | 0 <= i < |items| :: r[i] == Normal(items[i])
    decreases items
  {
    if items == [] then [] else [Normal(items[0])] + NormalItems(items[1..])
  }

  ghost function NormalMembers(ms: seq<Member>, keys: seq<Text>): (r: seq<Member>)
    requires forall k | k in keys :: k in Keys(ms)
    ensures |r| == |keys|
    ensures forall i | 0 <= i < |keys| :: r[i] == Member(keys[i], Normal(Lookup(ms, keys[i])))
    decreases ms, |keys|
  {
    if keys == [] then []
    else [Member(keys[0], Normal(Lookup(ms, keys[0])))] + NormalMembers(ms, keys[1..])
  }

  // ----- which values are printed

  lemma {:induction false} LookupOf(ms: seq<Member>, i: nat)
    requires Distinct(Keys(ms)) && i < |ms|
    ensures ms[i].key in Keys(ms) && Lookup(ms, ms[i].key) == ms[i].value
  {
    var key := Keys(ms)[i];
    var v := Lookup(ms, key);
    var j :| 0 <= j < |ms| && ms[j] == Member(key, v);
    assert Keys(ms)[j] == key;
    assert i == j;
  }

  /** The printer refuses exactly the values that are not sealable at that depth. */
  lemma {:induction false} WriteIffSealable(v: Json, depth: nat)
    requires Proper(v)
    ensures Write(v, depth).Some? <==> Sealable(v, depth)
    decreases v
  {
    if depth <= MAX_DEPTH {
      match v
      case Arr(items) => WriteItemsIff(items, depth + 1);
      case Obj(ms) =>
        SortKeepsKeys(Keys(ms));
        WriteMembersIff(ms, Sort(Keys(ms)), depth + 1);
        forall i | 0 <= i < |ms|
          ensures ms[i].key in Sort(Keys(ms)) && Lookup(ms, ms[i].key) == ms[i].value
        {
          LookupOf(ms, i);
        }
      case _ =>
    }
  }

  lemma {:induction false} WriteItemsIff(items: seq<Json>, depth: nat)
    requires forall i | 0 <= i < |items| :: Proper(items[i])
    ensures WriteItems(items, depth).Some?
            <==> forall i | 0 <= i < |items| :: items[i].Hole? || Sealable(items[i], depth)
    decreases items
  {
    if items != [] {
      WriteIffSealable(items[0], depth);
      WriteItemsIff(items[1..], depth);
      assert items == [items[0]] + items[1..];
    }
  }

  ghost predicate SealableKeys(ms: seq<Member>, keys: seq<Text>, depth: nat)
    requires forall k | k in keys :: k in Keys(ms)
  {
    forall k | k in keys :: Sealable(Lookup(ms, k), depth)
  }

  lemma SealableKeysSplit(ms: seq<Member>, keys: seq<Text>, depth: nat)
    requires keys != [] && forall k | k in keys :: k in Keys(ms)
    ensures SealableKeys(ms, keys, depth)
            <==> Sealable(Lookup(ms, keys[0]), depth) && SealableKeys(ms, keys[1..], depth)
  {
    forall k | k in keys ensures k == keys[0] || k in keys[1..] {
      var i :| 0 <= i < |keys| && keys[i] == k;
      if i > 0 { assert keys[1..][i - 1] == k; }
    }
  }

  lemma {:induction false} WriteMembersIff(ms: seq<Member>, keys: seq<Text>, depth: nat)
    requires forall i | 0 <= i < |ms| :: Proper(ms[i].value)
    requires forall k | k in keys :: k in Keys(ms)
    ensures WriteMembers(ms, keys, depth).Some? <==> SealableKeys(ms, keys, depth)
    decreases ms, |keys|
  {
    if keys != [] {
      WriteIffSealable(Lookup(ms, keys[0]), depth);
      WriteMembersIff(ms, keys[1..], depth);
      SealableKeysSplit(ms, keys, depth);
    }
  }

  // ----- the normal form stands for the data

  lemma {:induction false} NormalOfSameData(v: Json, w: Json)
    requires Proper(v) && Proper(w) && SameData(v, w)
    ensures Normal(v) == Normal(w)
    decreases v
  {
    match (v, w)
    case (Arr(a), Arr(b)) =>
      forall i | 0 <= i < |a| ensures Normal(a[i]) == Normal(b[i]) {
        NormalOfSameData(a[i], b[i]);
      }
      assert NormalItems(a) == NormalItems(b);
    case (Obj(a), Obj(b)) =>
      var keys := Sort(Keys(a));
      SameKeysSortAlike(Keys(a), Keys(b));
      SortKeepsKeys(Keys(a));
      forall i | 0 <= i < |keys| ensures Normal(Lookup(a, keys[i])) == Normal(Lookup(b, keys[i])) {
        NormalOfSameData(Lookup(a, keys[i]), Lookup(b, keys[i]));
      }
      NormalMembersAlike(a, b, keys);
    case _ =>
  }

  lemma NormalMembersAlike(a: seq<Member>, b: seq<Member>, keys: seq<Text>)
    requires forall i | 0 <= i < |keys| :: keys[i] in Keys(a) && keys[i] in Keys(b)
    requires forall i | 0 <= i < |keys| :: Normal(Lookup(a, keys[i])) == Normal(Lookup(b, keys[i]))
    ensures NormalMembers(a, keys) == NormalMembers(b, keys)
  {
    var na, nb := NormalMembers(a, keys), NormalMembers(b, keys);
    forall i | 0 <= i < |keys| ensures na[i] == nb[i] {}
  }

  lemma SameKeysSortAlike(a: seq<Text>, b: seq<Text>)
    requires Distinct(a) && Distinct(b) && forall k :: k in a <==> k in b
    ensures Sort(a) == Sort(b)
  {
    SortSorts(a);
    SortSorts(b);
    SortKeepsKeys(a);
    SortKeepsKeys(b);
    SortedDetermined(Sort(a), Sort(b));
  }

  /** Objects with one normal form have the same sorted keys and, key by key, one normal form. */
  lemma NormalMembersAgree(a: seq<Member>, b: seq<Member>)
    requires Normal(Obj(a)) == Normal(Obj(b))
    ensures Sort(Keys(a)) == Sort(Keys(b))
    ensures forall k :: k in Keys(a) <==> k in Keys(b)
    ensures forall k | k in Keys(a) :: Normal(Lookup(a, k)) == Normal(Lookup(b, k))
  {
    SortKeepsKeys(Keys(a));
    SortKeepsKeys(Keys(b));
    var ka, kb := Sort(Keys(a)), Sort(Keys(b));
    NormalMembersParts(a, b, ka, kb);
    forall k | k in Keys(a) ensures Normal(Lookup(a, k)) == Normal(Lookup(b, k)) {
      var i :| 0 <= i < |ka| && ka[i] == k;
    }
  }

  lemma NormalMembersParts(a: seq<Member>, b: seq<Member>, ka: seq<Text>, kb: seq<Text>)
    requires forall k | k in ka :: k in Keys(a)
    requires forall k | k in kb :: k in Keys(b)
    requires NormalMembers(a, ka) == NormalMembers(b, kb)
    ensures ka == kb && forall i | 0 <= i < |ka| :: Normal(Lookup(a, ka[i])) == Normal(Lookup(b, kb[i]))
  {
    var na, nb := NormalMembers(a, ka), NormalMembers(b, kb);
    forall i | 0 <= i < |ka| ensures ka[i] == kb[i] && Normal(Lookup(a, ka[i])) == Normal(Lookup(b, kb[i])) {
      assert na[i] == nb[i];
    }
  }

  lemma {:induction false} SameDataOfNormal(v: Json, w: Json)
    requires Proper(v) && Proper(w) && Normal(v) == Normal(w)
    ensures SameData(v, w)
    decreases v
  {
    match v
    case Arr(a) =>
      var b := w.items;
      assert NormalItems(a) == NormalItems(b);
      forall i | 0 <= i < |a| ensures SameData(a[i], b[i]) {
        assert Normal(a[i]) == NormalItems(a)[i] == NormalItems(b)[i] == Normal(b[i]);
        SameDataOfNormal(a[i], b[i]);
      }
    case Obj(a) =>
      var b := w.members;
      NormalMembersAgree(a, b);
      forall k | k in Keys(a) ensures SameData(Lookup(a, k), Lookup(b, k)) {
        SameDataOfNormal(Lookup(a, k), Lookup(b, k));
      }
    case _ =>
  }

  // ----- the text depends on the normal form alone

  lemma {:induction false} WriteOfNormal(v: Json, w: Json, depth: nat)
    requires Normal(v) == Normal(w)
    ensures Write(v, depth) == Write(w, depth)
    decreases v
  {
    if depth <= MAX_DEPTH {
      match v
      case Arr(a) =>
        assert NormalItems(a) == NormalItems(w.items);
        WriteItemsOfNormal(a, w.items, depth + 1);
      case Obj(a) =>
        NormalMembersAgree(a, w.members);
        SortKeepsKeys(Keys(a));
        WriteMembersOfNormal(a, w.members, Sort(Keys(a)), depth + 1);
      case _ =>
    }
  }

  lemma {:induction false} WriteItemsOfNormal(a: seq<Json>, b: seq<Json>, depth: nat)
    requires NormalItems(a) == NormalItems(b)
    ensures WriteItems(a, depth) == WriteItems(b, depth)
    decreases a
  {
    assert |a| == |NormalItems(a)| == |b|;
    if a != [] {
      assert Normal(a[0]) == NormalItems(a)[0] == NormalItems(b)[0] == Normal(b[0]);
      WriteOfNormal(a[0], b[0], depth);
      assert NormalItems(a[1..]) == NormalItems(a)[1..] == NormalItems(b)[1..] == NormalItems(b[1..]);
      WriteItemsOfNormal(a[1..], b[1..], depth);
    }
  }

  lemma {:induction false} WriteMembersOfNormal(a: seq<Member>, b: seq<Member>, keys: seq<Text>, depth: nat)
    requires forall k | k in keys :: k in Keys(a) && k in Keys(b) && Normal(Lookup(a, k)) == Normal(Lookup(b, k))
    ensures WriteMembers(a, keys, depth) == WriteMembers(b, keys, depth)
    decreases a, |keys|
  {
    if keys != [] {
      WriteOfNormal(Lookup(a, keys[0]), Lookup(b, keys[0]), depth);
      WriteMembersOfNormal(a, b, keys[1..], depth);
    }
  }

  // ----- slots that print as nothing

  /** The value with every array that holds one unassigned slot and nothing else read as empty. */
  ghost function Folded(v: Json): Json {
    match v
    case Arr(items) => Arr(if items == [Hole] then [] else FoldedItems(items))
    case Obj(ms) => Obj(FoldedMembers(ms))
    case _ => v
  }

  ghost function FoldedItems(items: seq<Json>): (r: seq<Json>)
    ensures |r| == |items| && forall i | 0 <= i < |items| :: r[i] == Folded(items[i])
  {
    if items == [] then [] else [Folded(items[0])] + FoldedItems(items[1..])
  }

  ghost function FoldedMembers(ms: seq<Member>): (r: seq<Member>)
    ensures |r| == |ms| && forall i | 0 <= i < |ms| :: r[i] == Member(ms[i].key, Folded(ms[i].value))
  {
    if ms == [] then [] else [Member(ms[0].key, Folded(ms[0].value))] + FoldedMembers(ms[1..])
  }

  lemma FoldedKeys(ms: seq<Member>)
    ensures Keys(FoldedMembers(ms)) == Keys(ms)
  {
  }

  lemma {:induction false} FoldedLookup(ms: seq<Member>, key: Text)
    requires key in Keys(ms)
    ensures key in Keys(FoldedMembers(ms)) && Lookup(FoldedMembers(ms), key) == Folded(Lookup(ms, key))
    decreases |ms|
  {
    FoldedKeys(ms);
    if ms[0].key != key {
      FoldedLookup(ms[1..], key);
      assert FoldedMembers(ms)[1..] == FoldedMembers(ms[1..]);
    }
  }

  lemma {:induction false} FoldedDense(v: Json)
    requires Dense(v)
    ensures Folded(v) == v
  {
    match v
    case Arr(items) =>
      forall i | 0 <= i < |items| ensures Folded(items[i]) == items[i] { FoldedDense(items[i]); }
      assert items == [Hole] ==> !Dense(items[0]);
      assert FoldedItems(items) == items;
    case Obj(ms) =>
      forall i | 0 <= i < |ms| ensures Folded(ms[i].value) == ms[i].value { FoldedDense(ms[i].value); }
      assert FoldedMembers(ms) == ms;
    case _ =>
  }

  lemma {:induction false} FoldedProper(v: Json)
    requires Proper(v)
    ensures Proper(Folded(v))
  {
    match v
    case Arr(items) =>
      forall i | 0 <= i < |items| ensures Proper(Folded(items[i])) { FoldedProper(items[i]); }
    case Obj(ms) =>
      FoldedKeys(ms);
      forall i | 0 <= i < |ms| ensures Proper(Folded(ms[i].value)) { FoldedProper(ms[i].value); }
    case _ =>
  }

  /** Folding and putting the members in key order do not disturb each other. */
  lemma {:induction false} FoldedOfNormal(v: Json)
    ensures Folded(Normal(v)) == Normal(Folded(v))
  {
    match v
    case Arr(items) =>
      forall i | 0 <= i < |items| ensures Folded(Normal(items[i])) == Normal(Folded(items[i])) {
        FoldedOfNormal(items[i]);
      }
      FoldedNormalItems(items);
    case Obj(ms) =>
      forall k | k in Keys(ms) ensures Folded(Normal(Lookup(ms, k))) == Normal(Folded(Lookup(ms, k))) {
        FoldedOfNormal(Lookup(ms, k));
      }
      FoldedNormalObject(ms);
    case _ =>
  }

  lemma LoneHoleStays(items: seq<Json>)
    ensures NormalItems(items) == [Hole] <==> items == [Hole]
  {
    if NormalItems(items) == [Hole] { assert NormalItems(items)[0] == Hole && items == [items[0]]; }
    if items == [Hole] { assert NormalItems(items) == [NormalItems(items)[0]]; }
  }

  lemma FoldedNormalItems(items: seq<Json>)
    requires forall i | 0 <= i < |items| :: Folded(Normal(items[i])) == Normal(Folded(items[i]))
    ensures Folded(Normal(Arr(items))) == Normal(Folded(Arr(items)))
  {
    LoneHoleStays(items);
    assert FoldedItems(NormalItems(items)) == NormalItems(FoldedItems(items));
  }

  lemma FoldedNormalObject(ms: seq<Member>)
    requires forall k | k in Keys(ms) :: Folded(Normal(Lookup(ms, k))) == Normal(Folded(Lookup(ms, k)))
    ensures Folded(Normal(Obj(ms))) == Normal(Folded(Obj(ms)))
  {
    SortKeepsKeys(Keys(ms));
    FoldedKeys(ms);
    FoldedNormalMembers(ms, Sort(Keys(ms)));
  }

  lemma FoldedNormalMembers(ms: seq<Member>, keys: seq<Text>)
    requires forall k | k in keys :: k in Keys(ms) && k in Keys(FoldedMembers(ms))
    requires forall k | k in Keys(ms) :: Folded(Normal(Lookup(ms, k))) == Normal(Folded(Lookup(ms, k)))
    ensures FoldedMembers(NormalMembers(ms, keys)) == NormalMembers(FoldedMembers(ms), keys)
  {
    var a, b := FoldedMembers(NormalMembers(ms, keys)), NormalMembers(FoldedMembers(ms), keys);
    forall i | 0 <= i < |keys| ensures a[i] == b[i] {
      FoldedLookup(ms, keys[i]);
    }
  }

  /** An array that holds one unassigned slot is printed as an empty one, at every level. */
  lemma {:induction false} WriteOfFolded(v: Json, depth: nat)
    ensures Write(Folded(v), depth) == Write(v, depth)
    decreases v
  {
    match v
    case Arr(items) =>
      WriteItemsOfFolded(items, depth + 1);
      LoneHoleWrites(depth + 1);
    case Obj(ms) =>
      SortKeepsKeys(Keys(ms));
      FoldedKeys(ms);
      WriteMembersOfFolded(ms, Sort(Keys(ms)), depth + 1);
    case _ =>
  }

  lemma LoneHoleWrites(depth: nat)
    ensures WriteItems([Hole], depth) == Some([[]])
  {
    var items := [Hole];
    assert items[1..] == [];
    assert WriteItems(items[1..], depth) == Some([]);
    assert WriteItems(items, depth).value == [[]];
  }

  lemma {:induction false} WriteItemsOfFolded(items: seq<Json>, depth: nat)
    ensures WriteItems(FoldedItems(items), depth) == WriteItems(items, depth)
    decreases items
  {
    if items != [] {
      WriteOfFolded(items[0], depth);
      WriteItemsOfFolded(items[1..], depth);
      assert Folded(items[0]).Hole? <==> items[0].Hole?;
      assert FoldedItems(items)[1..] == FoldedItems(items[1..]);
    }
  }

  lemma {:induction false} WriteMembersOfFolded(ms: seq<Member>, keys: seq<Text>, depth: nat)
    requires forall k | k in keys :: k in Keys(ms) && k in Keys(FoldedMembers(ms))
    ensures WriteMembers(FoldedMembers(ms), keys, depth) == WriteMembers(ms, keys, depth)
    decreases ms, |keys|
  {
    if keys != [] {
      FoldedLookup(ms, keys[0]);
      WriteOfFolded(Lookup(ms, keys[0]), depth);
      WriteMembersOfFolded(ms, keys[1..], depth);
    }
  }

  // ----- sorted at every level, and well-formed

  ghost predicate SortedThroughout(v: Json) {
    match v
    case Arr(items) => forall i | 0 <= i < |items| :: SortedThroughout(items[i])
    case Obj(ms) => StrictlySorted(Keys(ms)) && forall i | 0 <= i < |ms| :: SortedThroughout(ms[i].value)
    case _ => true
  }

  lemma {:induction false} NormalSorted(v: Json)
    requires Proper(v)
    ensures SortedThroughout(Normal(v))
  {
    match v
    case Arr(items) =>
      forall i | 0 <= i < |items| ensures SortedThroughout(Normal(items[i])) {
        NormalSorted(items[i]);
      }
    case Obj(ms) =>
      var keys := Sort(Keys(ms));
      SortSorts(Keys(ms));
      SortKeepsKeys(Keys(ms));
      assert Keys(NormalMembers(ms, keys)) == keys;
      forall i | 0 <= i < |keys| ensures SortedThroughout(Normal(Lookup(ms, keys[i]))) {
        NormalSorted(Lookup(ms, keys[i]));
      }
    case _ =>
  }

  lemma {:induction false} JoinWellFormed(parts: seq<Text>)
    requires forall i | 0 <= i < |parts| :: WellFormed(parts[i])
    ensures WellFormed(Join(parts, [COMMA]))
  {
    if |parts| > 1 {
      JoinWellFormed(parts[1..]);
      AsciiWellFormed([COMMA]);
      WellFormedConcat(parts[0], [COMMA]);
      WellFormedConcat(parts[0] + [COMMA], Join(parts[1..], [COMMA]));
    }
  }

  lemma BracketedWellFormed(open: CodeUnit, body: Text, close: CodeUnit)
    requires open < 0x80 && close < 0x80 && WellFormed(body)
    ensures WellFormed([open] + body + [close])
  {
    AsciiWellFormed([open]);
    AsciiWellFormed([close]);
    WellFormedConcat([open], body);
    WellFormedConcat([open] + body, [close]);
  }

  /** A canonical text has no lone surrogate, whatever strings the value holds. */
  lemma {:induction false} WriteWellFormed(v: Json, depth: nat)
    requires Write(v, depth).Some?
    ensures WellFormed(Write(v, depth).value)
    decreases v
  {
    match v
    case Null => AsciiWellFormed(NULL_TEXT);
    case Bool(b) => AsciiWellFormed(if b then TRUE_TEXT else FALSE_TEXT);
    case Num(n) => AsciiWellFormed(IntText(n));
    case Str(s) => QuoteWellFormed(s);
    case Arr(items) =>
      WriteItemsWellFormed(items, depth + 1);
      var parts := WriteItems(items, depth + 1).value;
      JoinWellFormed(parts);
      BracketedWellFormed(OPEN_BRACKET, Join(parts, [COMMA]), CLOSE_BRACKET);
    case Obj(ms) =>
      SortKeepsKeys(Keys(ms));
      WriteMembersWellFormed(ms, Sort(Keys(ms)), depth + 1);
      var parts := WriteMembers(ms, Sort(Keys(ms)), depth + 1).value;
      JoinWellFormed(parts);
      BracketedWellFormed(OPEN_BRACE, Join(parts, [COMMA]), CLOSE_BRACE);
  }

  lemma {:induction false} WriteItemsWellFormed(items: seq<Json>, depth: nat)
    requires WriteItems(items, depth).Some?
    ensures forall i | 0 <= i < |items| :: WellFormed(WriteItems(items, depth).value[i])
    decreases items
  {
    if items != [] {
      if !items[0].Hole? { WriteWellFormed(items[0], depth); }
      WriteItemsWellFormed(items[1..], depth);
    }
  }

  lemma {:induction false} WriteMembersWellFormed(ms: seq<Member>, keys: seq<Text>, depth: nat)
    requires forall k | k in keys :: k in Keys(ms)
    requires WriteMembers(ms, keys, depth).Some?
    ensures forall i | 0 <= i < |keys| :: WellFormed(WriteMembers(ms, keys, depth).value[i])
    decreases ms, |keys|
  {
    if keys != [] {
      var text := Write(Lookup(ms, keys[0]), depth).value;
      WriteWellFormed(Lookup(ms, keys[0]), depth);
      WriteMembersWellFormed(ms, keys[1..], depth);
      QuoteWellFormed(keys[0]);
      AsciiWellFormed([COLON]);
      WellFormedConcat(Quote(keys[0]), [COLON]);
      WellFormedConcat(Quote(keys[0]) + [COLON], text);
    }
  }
}
