/**
 * The canonical text of JSON content: at every level the keys in order of their code
 * units, and nothing between tokens; integers are safe ones, and nesting is limited.
 */
module Canonical {
  import opened Texts
  import opened JsonStrings

  /**
   * A value handed to the canonical printer. An object is the list of its own keys, in the order
   * the object holds them, each with its value. `Hole` is an array slot that was never assigned;
   * `Other` is whatever is not plain data: undefined, a function, a date, a number that is no integer.
   */
  datatype Json =
    | Null
    | Bool(b: bool)
    | Num(n: int)
    | Str(s: Text)
    | Arr(items: seq<Json>)
    | Obj(members: seq<Member>)
    | Hole
    | Other

  datatype Member = Member(key: Text, value: Json)

  const MAX_DEPTH := 16
  const MAX_SAFE_INTEGER := 0x1F_FFFF_FFFF_FFFF

  const NULL_TEXT: Text := [0x6e, 0x75, 0x6c, 0x6c]
  const TRUE_TEXT: Text := [0x74, 0x72, 0x75, 0x65]
  const FALSE_TEXT: Text := [0x66, 0x61, 0x6c, 0x73, 0x65]

  // ----- an object's keys

  function Keys(ms: seq<Member>): (ks: seq<Text>)
    ensures |ks| == |ms| && forall i | 0 <= i < |ms| :: ks[i] == ms[i].key
  {
    if ms == [] then [] else [ms[0].key] + Keys(ms[1..])
  }

  /** `record[key]`: the value of the member named `key`. */
  function Lookup(ms: seq<Member>, key: Text): (v: Json)
    requires key in Keys(ms)
    ensures exists i :: 0 <= i < |ms| && ms[i] == Member(key, v)
    decreases |ms|
  {
    if ms[0].key == key then
      assert ms[0] == Member(key, ms[0].value);
      ms[0].value
    else
      var v := Lookup(ms[1..], key);
      var i :| 0 <= i < |ms[1..]| && ms[1..][i] == Member(key, v);
      assert ms[i + 1] == Member(key, v);
      v
  }

  function Insert(key: Text, sorted: seq<Text>): seq<Text> {
    if sorted == [] || Before(key, sorted[0]) then [key] + sorted
    else [sorted[0]] + Insert(key, sorted[1..])
  }

  function Sort(keys: seq<Text>): seq<Text> {
    if keys == [] then [] else Insert(keys[0], Sort(keys[1..]))
  }

  // ----- the printer

  /** Joins texts with a separator, as `Array.prototype.join`. */
  function Join(parts: seq<Text>, separator: Text): Text {
    if parts == [] then []
    else if |parts| == 1 then parts[0]
    else parts[0] + separator + Join(parts[1..], separator)
  }

  /** `write`: the canonical text of a value at a depth, or nothing where the source refuses it. */
  function Write(v: Json, depth: nat): Option<Text>
    decreases v
  {
    if depth > MAX_DEPTH then None else
    match v
    case Null => Some(NULL_TEXT)
    case Bool(b) => Some(if b then TRUE_TEXT else FALSE_TEXT)
    case Num(n) => if -MAX_SAFE_INTEGER <= n <= MAX_SAFE_INTEGER then Some(IntText(n)) else None
    case Str(s) => Some(Quote(s))
    case Arr(items) =>
      var parts := WriteItems(items, depth + 1);
      if parts.None? then None
      else Some([OPEN_BRACKET] + Join(parts.value, [COMMA]) + [CLOSE_BRACKET])
    case Obj(members) =>
      SortKeepsKeys(Keys(members));
      var parts := WriteMembers(members, Sort(Keys(members)), depth + 1);
      if parts.None? then None
      else Some([OPEN_BRACE] + Join(parts.value, [COMMA]) + [CLOSE_BRACE])
    case Hole => None
    case Other => None
  }

  /** The items' texts; `map` leaves a hole a hole, and `join` then writes nothing for it. */
  function WriteItems(items: seq<Json>, depth: nat): (r: Option<seq<Text>>)
    ensures r.Some? ==> |r.value| == |items|
    decreases items
  {
    if items == [] then Some([])
    else
      var first := if items[0].Hole? then Some([]) else Write(items[0], depth);
      var rest := WriteItems(items[1..], depth);
      if first.None? || rest.None? then None else Some([first.value] + rest.value)
  }

  function WriteMembers(members: seq<Member>, keys: seq<Text>, depth: nat): (r: Option<seq<Text>>)
    requires forall k | k in keys :: k in Keys(members)
    ensures r.Some? ==> |r.value| == |keys|
    decreases members, |keys|
  {
    if keys == [] then Some([])
    else
      var first := Write(Lookup(members, keys[0]), depth);
      var rest := WriteMembers(members, keys[1..], depth);
      if first.None? || rest.None? then None
      else Some([Quote(keys[0]) + [COLON] + first.value] + rest.value)
  }

  function Canonicalize(v: Json): Option<Text> {
    Write(v, 0)
  }

  // ----- sorting

  ghost predicate StrictlySorted(keys: seq<Text>) {
    forall i, j | 0 <= i < j < |keys| :: Before(keys[i], keys[j])
  }

  ghost predicate Distinct(keys: seq<Text>) {
    forall i, j | 0 <= i < j < |keys| :: keys[i] != keys[j]
  }

  lemma {:induction false} InsertKeeps(key: Text, sorted: seq<Text>)
    ensures forall k :: k in Insert(key, sorted) <==> k == key || k in sorted
    ensures |Insert(key, sorted)| == |sorted| + 1
  {
    if sorted != [] && !Before(key, sorted[0]) {
      InsertKeeps(key, sorted[1..]);
      assert sorted == [sorted[0]] + sorted[1..];
    }
  }

  lemma {:induction false} SortKeepsKeys(keys: seq<Text>)
    ensures forall k :: k in Sort(keys) <==> k in keys
    ensures |Sort(keys)| == |keys|
  {
    if keys != [] {
      SortKeepsKeys(keys[1..]);
      InsertKeeps(keys[0], Sort(keys[1..]));
      assert keys == [keys[0]] + keys[1..];
    }
  }

  lemma {:induction false} InsertSorted(key: Text, sorted: seq<Text>)
    requires StrictlySorted(sorted) && key !in sorted
    ensures StrictlySorted(Insert(key, sorted))
  {
    if sorted == [] {
    } else if Before(key, sorted[0]) {
      forall j | 0 <= j < |sorted| ensures Before(key, sorted[j]) {
        if j > 0 { BeforeTransitive(key, sorted[0], sorted[j]); }
      }
    } else {
      var rest := Insert(key, sorted[1..]);
      InsertSorted(key, sorted[1..]);
      InsertKeeps(key, sorted[1..]);
      BeforeTrichotomy(key, sorted[0]);
      forall j | 0 <= j < |rest| ensures Before(sorted[0], rest[j]) {
        assert rest[j] in rest;
        if rest[j] != key {
          var i :| 0 <= i < |sorted[1..]| && sorted[1..][i] == rest[j];
          assert sorted[i + 1] == rest[j];
        }
      }
    }
  }

  lemma {:induction false} SortSorts(keys: seq<Text>)
    requires Distinct(keys)
    ensures StrictlySorted(Sort(keys))
  {
    if keys != [] {
      SortSorts(keys[1..]);
      SortKeepsKeys(keys[1..]);
      InsertSorted(keys[0], Sort(keys[1..]));
    }
  }

  /** A strictly sorted list is determined by what it holds. */
  lemma {:induction false} SortedDetermined(a: seq<Text>, b: seq<Text>)
    requires StrictlySorted(a) && StrictlySorted(b)
    requires forall k :: k in a <==> k in b
    ensures a == b
  {
    assert a != [] ==> a[0] in a;
    assert b != [] ==> b[0] in b;
    if a != [] {
      var i :| 0 <= i < |a| && a[i] == b[0];
      var j :| 0 <= j < |b| && b[j] == a[0];
      BeforeTrichotomy(a[0], b[0]);
      assert a[0] == b[0];
      forall k ensures k in a[1..] <==> k in b[1..] {
        TailHolds(a, k);
        TailHolds(b, k);
      }
      SortedDetermined(a[1..], b[1..]);
      assert a == [a[0]] + a[1..] && b == [b[0]] + b[1..];
    }
  }

  lemma TailHolds(a: seq<Text>, k: Text)
    requires StrictlySorted(a) && a != []
    ensures k in a[1..] <==> k in a && k != a[0]
  {
    BeforeTrichotomy(a[0], a[0]);
    if k in a && k != a[0] {
      var i :| 0 <= i < |a| && a[i] == k;
      assert a[1..][i - 1] == k;
    }
  }
}
