/**
 * A reader for compact JSON: no whitespace, integers only. It inverts the canonical printer. With
 * `holes` it also takes an array item of no text for an unassigned slot, which JSON does not allow.
 */
module JsonReader {
  import opened Texts
  import opened JsonStrings
  import opened Canonical
  import opened CanonicalProofs

  function ReadNumber(t: Text): (r: Read<Json>)
    ensures r.Got? ==> |r.rest| < |t|
  {
    var body := if t != [] && t[0] == DASH then t[1..] else t;
    var n := DigitRun(body);
    if n == 0 then Failed
    else Got(Num(if body == t then DigitsValue(body[..n]) else 0 - DigitsValue(body[..n])), body[n..])
  }

  /** What follows the character `c`, where the text starts with it. */
  function After(t: Text, c: CodeUnit): (r: Option<Text>)
    ensures r.Some? ==> |r.value| < |t|
  {
    if t != [] && t[0] == c then Some(t[1..]) else None
  }

  function ReadWord(t: Text): (r: Read<Json>)
    ensures r.Got? ==> |r.rest| < |t|
  {
    if StartsAt(t, NULL_TEXT, 0) then Got(Null, t[4..])
    else if StartsAt(t, TRUE_TEXT, 0) then Got(Bool(true), t[4..])
    else if StartsAt(t, FALSE_TEXT, 0) then Got(Bool(false), t[5..])
    else Failed
  }

  function ReadValue(t: Text, holes: bool): (r: Read<Json>)
    ensures r.Got? ==> |r.rest| < |t|
    decreases |t|, 0
  {
    if t == [] then Failed
    else if t[0] == QUOTE then
      var s := ReadString(t[1..]);
      if s.Failed? then Failed else Got(Str(s.value), s.rest)
    else if t[0] == OPEN_BRACKET then
      var closed := After(t[1..], CLOSE_BRACKET);
      if closed.Some? then Got(Arr([]), closed.value)
      else
        var items := ReadItems(t[1..], holes);
        if items.Failed? then Failed else Got(Arr(items.value), items.rest)
    else if t[0] == OPEN_BRACE then
      var closed := After(t[1..], CLOSE_BRACE);
      if closed.Some? then Got(Obj([]), closed.value)
      else
        var members := ReadMembers(t[1..], holes);
        if members.Failed? then Failed else Got(Obj(members.value), members.rest)
    else if t[0] == DASH || IsDigit(t[0]) then ReadNumber(t)
    else ReadWord(t)
  }

  /** One item; with `holes`, no text before what ends it is an unassigned slot. */
  function ReadItem(t: Text, holes: bool): (r: Read<Json>)
    ensures r.Got? ==> |r.rest| <= |t|
    decreases |t|, 1
  {
    if holes && t != [] && (t[0] == COMMA || t[0] == CLOSE_BRACKET) then Got(Hole, t) else ReadValue(t, holes)
  }

  /** Items up to and with the closing bracket; at least one. */
  function ReadItems(t: Text, holes: bool): (r: Read<seq<Json>>)
    ensures r.Got? ==> |r.rest| < |t|
    decreases |t|, 2
  {
    var first := ReadItem(t, holes);
    if first.Failed? then Failed
    else
      var closed, more := After(first.rest, CLOSE_BRACKET), After(first.rest, COMMA);
      if closed.Some? then Got([first.value], closed.value)
      else if more.None? then Failed
      else
        var rest := ReadItems(more.value, holes);
        if rest.Failed? then Failed else Got([first.value] + rest.value, rest.rest)
  }

  function ReadMember(t: Text, holes: bool): (r: Read<Member>)
    ensures r.Got? ==> |r.rest| < |t|
    decreases |t|, 1
  {
    var quoted := After(t, QUOTE);
    if quoted.None? then Failed
    else
      var key := ReadString(quoted.value);
      if key.Failed? then Failed
      else
        var colon := After(key.rest, COLON);
        if colon.None? then Failed
        else
          var value := ReadValue(colon.value, holes);
          if value.Failed? then Failed else Got(Member(key.value, value.value), value.rest)
  }

  /** Members up to and with the closing brace; at least one. */
  function ReadMembers(t: Text, holes: bool): (r: Read<seq<Member>>)
    ensures r.Got? ==> |r.rest| < |t|
    decreases |t|, 2
  {
    var first := ReadMember(t, holes);
    if first.Failed? then Failed
    else
      var closed, more := After(first.rest, CLOSE_BRACE), After(first.rest, COMMA);
      if closed.Some? then Got([first.value], closed.value)
      else if more.None? then Failed
      else
        var rest := ReadMembers(more.value, holes);
        if rest.Failed? then Failed else Got([first.value] + rest.value, rest.rest)
  }

  /** The value a whole text states. */
  function Parse(t: Text, holes: bool): Option<Json> {
    var r := ReadValue(t, holes);
    if r.Got? && r.rest == [] then Some(r.value) else None
  }

  // ----- the round trip

  lemma ReadDigits(digits: Text, rest: Text)
    requires AllDigits(digits) && digits != [] && Ends(rest)
    ensures ReadNumber(digits + rest) == Got(Num(DigitsValue(digits)), rest)
  {
    var body := digits + rest;
    DigitRunOf(digits, rest);
    assert body[..|digits|] == digits && body[|digits|..] == rest;
    assert IsDigit(body[0]);
  }

  lemma ReadNegative(digits: Text, rest: Text)
    requires AllDigits(digits) && digits != [] && Ends(rest)
    ensures ReadNumber([DASH] + (digits + rest)) == Got(Num(0 - DigitsValue(digits)), rest)
  {
    var body := digits + rest;
    DigitRunOf(digits, rest);
    assert body[..|digits|] == digits && body[|digits|..] == rest;
    var t := [DASH] + body;
    assert t[1..] == body && |t| != |body|;
  }

  lemma NumberIsRead(t: Text, holes: bool)
    requires t != [] && (t[0] == DASH || IsDigit(t[0]))
    ensures ReadValue(t, holes) == ReadNumber(t)
  {
  }

  lemma NumberRoundTrip(n: int, holes: bool, rest: Text)
    requires Ends(rest)
    ensures ReadValue(IntText(n) + rest, holes) == Got(Num(n), rest)
  {
    var digits := NatText(if n < 0 then -n else n);
    NatTextValue(if n < 0 then -n else n);
    if n < 0 {
      var t := [DASH] + (digits + rest);
      assert IntText(n) + rest == t;
      ReadNegative(digits, rest);
      NumberIsRead(t, holes);
    } else {
      var t := digits + rest;
      assert IsDigit(t[0]);
      ReadDigits(digits, rest);
      NumberIsRead(t, holes);
    }
  }

  lemma WordRoundTrip(v: Json, text: Text, holes: bool, rest: Text)
    requires (v == Null && text == NULL_TEXT) || (v == Bool(true) && text == TRUE_TEXT)
             || (v == Bool(false) && text == FALSE_TEXT)
    ensures ReadValue(text + rest, holes) == Got(v, rest)
  {
    var t := text + rest;
    assert t[0] == text[0];
    assert t[0..|text|] == text && t[|text|..] == rest;
    if v == Bool(true) {
      assert t[0..4][0] != NULL_TEXT[0];
    } else if v == Bool(false) {
      assert |t| >= 4 && t[0..4][0] == 0x66;
      assert t[0..4] != NULL_TEXT && t[0..4] != TRUE_TEXT;
    }
    assert ReadWord(t) == Got(v, rest);
  }

  lemma StringValueRoundTrip(s: Text, holes: bool, rest: Text)
    ensures ReadValue(Quote(s) + rest, holes) == Got(Str(s), rest)
  {
    var body := Escape(s) + [QUOTE] + rest;
    StringRoundTrip(s, rest);
    assert Quote(s) + rest == [QUOTE] + body;
    ReadQuoted(body, s, holes, rest);
  }

  lemma ReadQuoted(body: Text, s: Text, holes: bool, rest: Text)
    requires ReadString(body) == Got(s, rest)
    ensures ReadValue([QUOTE] + body, holes) == Got(Str(s), rest)
  {
    assert ([QUOTE] + body)[1..] == body;
  }

  /** A value's text opens with nothing that ends an item or a list. */
  lemma WriteOpens(v: Json, depth: nat)
    requires Write(v, depth).Some?
    ensures Write(v, depth).value != []
    ensures Write(v, depth).value[0] !in {COMMA, CLOSE_BRACKET, CLOSE_BRACE}
  {
  }

  /** What reading a value's text gives: its members in key order, a lone unassigned slot not seen. */
  ghost function Seen(v: Json): Json {
    Folded(Normal(v))
  }

  ghost function SeenItems(items: seq<Json>): seq<Json> {
    FoldedItems(NormalItems(items))
  }

  ghost function SeenMembers(ms: seq<Member>, keys: seq<Text>): seq<Member>
    requires forall k | k in keys :: k in Keys(ms)
  {
    FoldedMembers(NormalMembers(ms, keys))
  }

  /** Reading a value's canonical text gives what is seen of the value; without a hole, all of it. */
  lemma {:induction false} ValueRoundTrip(v: Json, depth: nat, holes: bool, rest: Text)
    requires Write(v, depth).Some? && (holes || Dense(v)) && Ends(rest)
    ensures ReadValue(Write(v, depth).value + rest, holes) == Got(Seen(v), rest)
    decreases v, 1
  {
    match v
    case Null => WordRoundTrip(v, NULL_TEXT, holes, rest);
    case Bool(b) => WordRoundTrip(v, if b then TRUE_TEXT else FALSE_TEXT, holes, rest);
    case Num(n) => NumberRoundTrip(n, holes, rest);
    case Str(s) => StringValueRoundTrip(s, holes, rest);
    case Arr(items) => ArrayRoundTrip(v, depth, holes, rest);
    case Obj(ms) => ObjectRoundTrip(v, depth, holes, rest);
  }

  lemma {:induction false} ArrayRoundTrip(v: Json, depth: nat, holes: bool, rest: Text)
    requires v.Arr? && Write(v, depth).Some? && (holes || Dense(v))
    ensures ReadValue(Write(v, depth).value + rest, holes) == Got(Seen(v), rest)
    decreases v, 0
  {
    var parts := WriteItems(v.items, depth + 1).value;
    var tail := Join(parts, [COMMA]) + ([CLOSE_BRACKET] + rest);
    assert Write(v, depth).value + rest == [OPEN_BRACKET] + tail;
    LoneHoleStays(v.items);
    if v.items == [] || v.items == [Hole] {
      LoneHoleWrites(depth + 1);
      assert tail == [CLOSE_BRACKET] + rest;
      ReadEmptyArray(holes, rest);
    } else {
      ItemsRoundTrip(v.items, depth + 1, holes, rest);
      ItemsOpen(v.items, depth + 1, [CLOSE_BRACKET] + rest);
      ReadArray(tail, SeenItems(v.items), holes, rest);
    }
  }

  /** Items that are not one unassigned slot alone do not open with the closing bracket. */
  lemma ItemsOpen(items: seq<Json>, depth: nat, close: Text)
    requires items != [] && items != [Hole] && WriteItems(items, depth).Some?
    ensures var tail := Join(WriteItems(items, depth).value, [COMMA]) + close;
            tail != [] && tail[0] != CLOSE_BRACKET
  {
    var parts := WriteItems(items, depth).value;
    assert |items| == 1 ==> items == [items[0]];
    if items[0].Hole? {
      JoinMore(parts, close);
    } else {
      WriteOpens(items[0], depth);
      assert parts[0] == Write(items[0], depth).value;
      assert (Join(parts, [COMMA]) + close)[0] == parts[0][0];
    }
  }

  lemma ReadEmptyArray(holes: bool, rest: Text)
    ensures ReadValue([OPEN_BRACKET] + ([CLOSE_BRACKET] + rest), holes) == Got(Arr([]), rest)
  {
    var t := [OPEN_BRACKET] + ([CLOSE_BRACKET] + rest);
    assert t[1..] == [CLOSE_BRACKET] + rest;
    assert ([CLOSE_BRACKET] + rest)[1..] == rest;
  }

  lemma ReadArray(tail: Text, vs: seq<Json>, holes: bool, rest: Text)
    requires tail != [] && tail[0] != CLOSE_BRACKET && ReadItems(tail, holes) == Got(vs, rest)
    ensures ReadValue([OPEN_BRACKET] + tail, holes) == Got(Arr(vs), rest)
  {
    assert ([OPEN_BRACKET] + tail)[1..] == tail;
  }

  lemma JoinMore(parts: seq<Text>, close: Text)
    requires |parts| > 1
    ensures Join(parts, [COMMA]) + close == parts[0] + ([COMMA] + (Join(parts[1..], [COMMA]) + close))
  {
    var rest := Join(parts[1..], [COMMA]);
    GroupFour(parts[0], [COMMA], rest, close);
    Group([COMMA], rest, close);
  }

  lemma ReadItemsLast(text: Text, v: Json, holes: bool, rest: Text)
    requires ReadItem(text + ([CLOSE_BRACKET] + rest), holes) == Got(v, [CLOSE_BRACKET] + rest)
    ensures ReadItems(text + ([CLOSE_BRACKET] + rest), holes) == Got([v], rest)
  {
    assert ([CLOSE_BRACKET] + rest)[1..] == rest;
  }

  lemma ReadItemsMore(text: Text, v: Json, tail: Text, vs: seq<Json>, holes: bool, rest: Text)
    requires ReadItem(text + ([COMMA] + tail), holes) == Got(v, [COMMA] + tail)
    requires ReadItems(tail, holes) == Got(vs, rest)
    ensures ReadItems(text + ([COMMA] + tail), holes) == Got([v] + vs, rest)
  {
    assert ([COMMA] + tail)[1..] == tail;
  }

  /** The text of one item: nothing, for an unassigned slot. */
  function ItemText(v: Json, depth: nat): Option<Text> {
    if v.Hole? then Some([]) else Write(v, depth)
  }

  lemma {:induction false} ItemRoundTrip(v: Json, depth: nat, holes: bool, rest: Text)
    requires ItemText(v, depth).Some? && (holes || Dense(v))
    requires rest != [] && rest[0] in {COMMA, CLOSE_BRACKET}
    ensures ReadItem(ItemText(v, depth).value + rest, holes) == Got(Seen(v), rest)
    decreases v, 2
  {
    if v.Hole? {
      assert ItemText(v, depth).value + rest == rest;
    } else {
      WriteOpens(v, depth);
      ValueRoundTrip(v, depth, holes, rest);
    }
  }

  lemma {:induction false} ItemsRoundTrip(items: seq<Json>, depth: nat, holes: bool, rest: Text)
    requires items != [] && WriteItems(items, depth).Some?
    requires holes || forall i | 0 <= i < |items| :: Dense(items[i])
    ensures ReadItems(Join(WriteItems(items, depth).value, [COMMA]) + ([CLOSE_BRACKET] + rest), holes)
            == Got(SeenItems(items), rest)
    decreases items
  {
    var parts := WriteItems(items, depth).value;
    var close := [CLOSE_BRACKET] + rest;
    assert parts[0] == ItemText(items[0], depth).value;
    if |items| == 1 {
      ItemRoundTrip(items[0], depth, holes, close);
      ReadItemsLast(parts[0], Seen(items[0]), holes, rest);
      assert SeenItems(items) == [Seen(items[0])];
    } else {
      var tail := Join(parts[1..], [COMMA]) + close;
      assert parts[1..] == WriteItems(items[1..], depth).value;
      ItemsRoundTrip(items[1..], depth, holes, rest);
      ItemRoundTrip(items[0], depth, holes, [COMMA] + tail);
      ReadItemsMore(parts[0], Seen(items[0]), tail, SeenItems(items[1..]), holes, rest);
      assert SeenItems(items) == [Seen(items[0])] + SeenItems(items[1..]);
      JoinMore(parts, close);
    }
  }

  lemma {:induction false} ObjectRoundTrip(v: Json, depth: nat, holes: bool, rest: Text)
    requires v.Obj? && Write(v, depth).Some? && (holes || Dense(v))
    ensures ReadValue(Write(v, depth).value + rest, holes) == Got(Seen(v), rest)
    decreases v, 0
  {
    var keys := Sort(Keys(v.members));
    SortKeepsKeys(Keys(v.members));
    var parts := WriteMembers(v.members, keys, depth + 1).value;
    var tail := Join(parts, [COMMA]) + ([CLOSE_BRACE] + rest);
    assert Write(v, depth).value + rest == [OPEN_BRACE] + tail;
    if keys == [] {
      assert tail == [CLOSE_BRACE] + rest;
      ReadEmptyObject(holes, rest);
    } else {
      MembersRoundTrip(v.members, keys, depth + 1, holes, rest);
      MembersOpen(v.members, keys, depth + 1, [CLOSE_BRACE] + rest);
      ReadObject(tail, SeenMembers(v.members, keys), holes, rest);
    }
  }

  lemma MembersOpen(ms: seq<Member>, keys: seq<Text>, depth: nat, close: Text)
    requires keys != [] && forall k | k in keys :: k in Keys(ms)
    requires WriteMembers(ms, keys, depth).Some?
    ensures var tail := Join(WriteMembers(ms, keys, depth).value, [COMMA]) + close;
            tail != [] && tail[0] == QUOTE
  {
    var parts := WriteMembers(ms, keys, depth).value;
    assert parts[0][0] == QUOTE;
    assert (Join(parts, [COMMA]) + close)[0] == parts[0][0];
  }

  lemma ReadEmptyObject(holes: bool, rest: Text)
    ensures ReadValue([OPEN_BRACE] + ([CLOSE_BRACE] + rest), holes) == Got(Obj([]), rest)
  {
    var t := [OPEN_BRACE] + ([CLOSE_BRACE] + rest);
    assert t[1..] == [CLOSE_BRACE] + rest;
    assert ([CLOSE_BRACE] + rest)[1..] == rest;
  }

  lemma ReadObject(tail: Text, ms: seq<Member>, holes: bool, rest: Text)
    requires tail != [] && tail[0] != CLOSE_BRACE && ReadMembers(tail, holes) == Got(ms, rest)
    ensures ReadValue([OPEN_BRACE] + tail, holes) == Got(Obj(ms), rest)
  {
    assert ([OPEN_BRACE] + tail)[1..] == tail;
  }

  lemma ReadMemberParts(t: Text, body: Text, key: Text, after: Text, tail: Text, v: Json, holes: bool, rest: Text)
    requires After(t, QUOTE) == Some(body) && ReadString(body) == Got(key, after)
    requires After(after, COLON) == Some(tail) && ReadValue(tail, holes) == Got(v, rest)
    ensures ReadMember(t, holes) == Got(Member(key, v), rest)
  {
  }

  lemma ReadMemberStep(key: Text, text: Text, v: Json, holes: bool, rest: Text)
    requires ReadValue(text + rest, holes) == Got(v, rest)
    ensures ReadMember(Quote(key) + [COLON] + text + rest, holes) == Got(Member(key, v), rest)
  {
    var t := Quote(key) + [COLON] + text + rest;
    var tail := text + rest;
    var after := [COLON] + tail;
    var body := Escape(key) + [QUOTE] + after;
    assert t == [QUOTE] + body;
    assert After(t, QUOTE) == Some(body) by { assert t[1..] == body; }
    assert After(after, COLON) == Some(tail) by { assert after[1..] == tail; }
    assert ReadString(body) == Got(key, after) by { StringRoundTrip(key, after); }
    ReadMemberParts(t, body, key, after, tail, v, holes, rest);
  }

  lemma ReadMembersLast(text: Text, m: Member, holes: bool, rest: Text)
    requires ReadMember(text + ([CLOSE_BRACE] + rest), holes) == Got(m, [CLOSE_BRACE] + rest)
    ensures ReadMembers(text + ([CLOSE_BRACE] + rest), holes) == Got([m], rest)
  {
    assert ([CLOSE_BRACE] + rest)[1..] == rest;
  }

  lemma ReadMembersMore(text: Text, m: Member, tail: Text, ms: seq<Member>, holes: bool, rest: Text)
    requires ReadMember(text + ([COMMA] + tail), holes) == Got(m, [COMMA] + tail)
    requires ReadMembers(tail, holes) == Got(ms, rest)
    ensures ReadMembers(text + ([COMMA] + tail), holes) == Got([m] + ms, rest)
  {
    assert ([COMMA] + tail)[1..] == tail;
  }

  lemma {:induction false} MembersRoundTrip(ms: seq<Member>, keys: seq<Text>, depth: nat, holes: bool, rest: Text)
    requires keys != [] && forall k | k in keys :: k in Keys(ms)
    requires holes || forall i | 0 <= i < |ms| :: Dense(ms[i].value)
    requires WriteMembers(ms, keys, depth).Some?
    ensures ReadMembers(Join(WriteMembers(ms, keys, depth).value, [COMMA]) + ([CLOSE_BRACE] + rest), holes)
            == Got(SeenMembers(ms, keys), rest)
    decreases ms, |keys|
  {
    var parts := WriteMembers(ms, keys, depth).value;
    var close := [CLOSE_BRACE] + rest;
    var v := Lookup(ms, keys[0]);
    var m := Member(keys[0], Seen(v));
    var text := Write(v, depth).value;
    SeenMembersSplit(ms, keys);
    if |keys| == 1 {
      assert SeenMembers(ms, keys) == [m];
      ValueRoundTrip(v, depth, holes, close);
      ReadMemberStep(keys[0], text, m.value, holes, close);
      ReadMembersLast(parts[0], m, holes, rest);
    } else {
      var tail := Join(parts[1..], [COMMA]) + close;
      assert parts[1..] == WriteMembers(ms, keys[1..], depth).value;
      MembersRoundTrip(ms, keys[1..], depth, holes, rest);
      ValueRoundTrip(v, depth, holes, [COMMA] + tail);
      ReadMemberStep(keys[0], text, m.value, holes, [COMMA] + tail);
      ReadMembersMore(parts[0], m, tail, SeenMembers(ms, keys[1..]), holes, rest);
      JoinMore(parts, close);
    }
  }

  lemma SeenMembersSplit(ms: seq<Member>, keys: seq<Text>)
    requires keys != [] && forall k | k in keys :: k in Keys(ms)
    ensures SeenMembers(ms, keys) == [Member(keys[0], Seen(Lookup(ms, keys[0])))] + SeenMembers(ms, keys[1..])
  {
  }

  // ----- what reading JSON can give

  lemma {:induction false} ReadValueDense(t: Text)
    requires ReadValue(t, false).Got?
    ensures Dense(ReadValue(t, false).value)
    decreases |t|, 0
  {
    if t[0] == OPEN_BRACKET && After(t[1..], CLOSE_BRACKET).None? {
      ReadItemsDense(t[1..]);
    } else if t[0] == OPEN_BRACE && After(t[1..], CLOSE_BRACE).None? {
      ReadMembersDense(t[1..]);
    }
  }

  lemma {:induction false} ReadItemsDense(t: Text)
    requires ReadItems(t, false).Got?
    ensures forall i | 0 <= i < |ReadItems(t, false).value| :: Dense(ReadItems(t, false).value[i])
    decreases |t|, 1
  {
    ReadValueDense(t);
    var more := After(ReadValue(t, false).rest, COMMA);
    if more.Some? { ReadItemsDense(more.value); }
  }

  lemma {:induction false} ReadMembersDense(t: Text)
    requires ReadMembers(t, false).Got?
    ensures forall i | 0 <= i < |ReadMembers(t, false).value| :: Dense(ReadMembers(t, false).value[i].value)
    decreases |t|, 1
  {
    var m := ReadMember(t, false);
    ReadValueDense(After(ReadString(After(t, QUOTE).value).rest, COLON).value);
    var more := After(m.rest, COMMA);
    if more.Some? { ReadMembersDense(more.value); }
  }

  /** Data that is the same as data without holes has none either. */
  lemma {:induction false} DenseOfSameData(v: Json, w: Json)
    requires Proper(v) && SameData(v, w) && Dense(w)
    ensures Dense(v)
    decreases v
  {
    match (v, w)
    case (Arr(a), Arr(b)) =>
      forall i | 0 <= i < |a| ensures Dense(a[i]) { DenseOfSameData(a[i], b[i]); }
    case (Obj(a), Obj(b)) =>
      forall i | 0 <= i < |a| ensures Dense(a[i].value) {
        LookupOf(a, i);
        var value := Lookup(b, a[i].key);
        var j :| 0 <= j < |b| && b[j] == Member(a[i].key, value);
        DenseOfSameData(a[i].value, value);
      }
    case _ =>
  }

  // ----- the laws of the canonical text

  /**
   * Reading a canonical text as JSON gives back the data it was made from, exactly when no array in
   * it has an unassigned slot; and then the members come in key order, at every level.
   */
  lemma CanonicalRoundTrip(v: Json)
    requires Proper(v) && Canonicalize(v).Some?
    ensures ReadsBack(v, Parse(Canonicalize(v).value, false)) <==> Dense(v)
    ensures Parse(Canonicalize(v).value, false) == Some(Normal(v)) <==> Dense(v)
    ensures SortedThroughout(Normal(v))
  {
    var t := Canonicalize(v).value;
    NormalSorted(v);
    NormalIsSameData(v);
    if Dense(v) {
      ValueRoundTrip(v, 0, false, []);
      assert t + [] == t;
      FoldedDense(v);
      FoldedOfNormal(v);
    }
    if ReadsBack(v, Parse(t, false)) {
      ReadValueDense(t);
      DenseOfSameData(v, Parse(t, false).value);
    }
  }

  /** Putting the members in key order changes no data. */
  lemma {:induction false} NormalIsSameData(v: Json)
    ensures SameData(v, Normal(v))
  {
    match v
    case Arr(items) =>
      forall i | 0 <= i < |items| ensures SameData(items[i], Normal(items[i])) { NormalIsSameData(items[i]); }
    case Obj(ms) =>
      forall k | k in Keys(ms) ensures SameData(Lookup(ms, k), Normal(Lookup(ms, k))) {
        NormalIsSameData(Lookup(ms, k));
      }
      NormalObjectIsSameData(ms);
    case _ =>
  }

  lemma NormalObjectIsSameData(ms: seq<Member>)
    requires forall k | k in Keys(ms) :: SameData(Lookup(ms, k), Normal(Lookup(ms, k)))
    ensures SameData(Obj(ms), Normal(Obj(ms)))
  {
    SortKeepsKeys(Keys(ms));
    var ns := NormalMembers(ms, Sort(Keys(ms)));
    assert Keys(ns) == Sort(Keys(ms));
    forall k | k in Keys(ms) ensures SameData(Lookup(ms, k), Lookup(ns, k)) {
      var value := Lookup(ns, k);
      var i :| 0 <= i < |ns| && ns[i] == Member(k, value);
    }
  }

  /** Two values have the same canonical text exactly when they are the same data, a lone slot not seen. */
  lemma SameTextIffSameData(v: Json, w: Json)
    requires Proper(v) && Proper(w) && Canonicalize(v).Some? && Canonicalize(w).Some?
    ensures Canonicalize(v) == Canonicalize(w) <==> SameData(Folded(v), Folded(w))
  {
    FoldedProper(v);
    FoldedProper(w);
    if Canonicalize(v) == Canonicalize(w) {
      var t := Canonicalize(v).value;
      ValueRoundTrip(v, 0, true, []);
      ValueRoundTrip(w, 0, true, []);
      assert t + [] == t;
      FoldedOfNormal(v);
      FoldedOfNormal(w);
      SameDataOfNormal(Folded(v), Folded(w));
    }
    if SameData(Folded(v), Folded(w)) {
      NormalOfSameData(Folded(v), Folded(w));
      WriteOfNormal(Folded(v), Folded(w), 0);
      WriteOfFolded(v, 0);
      WriteOfFolded(w, 0);
    }
  }

  /** An unassigned slot is not refused but printed as nothing: one text for two different values. */
  lemma HolePrintsNothing()
    ensures Canonicalize(Arr([Hole])) == Canonicalize(Arr([])) == Some([OPEN_BRACKET, CLOSE_BRACKET])
    ensures !SameData(Arr([Hole]), Arr([]))
  {
    LoneHoleWrites(1);
    assert [OPEN_BRACKET] + [] + [CLOSE_BRACKET] == [OPEN_BRACKET, CLOSE_BRACKET];
  }
}
