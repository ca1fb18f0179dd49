/** Exactly what the scrubbing of tokens takes: what the rule takes at every scheme, and nothing else. */
module LogTokens {
  import opened Texts
  import opened Ranges
  import opened LogScrub
  import opened LogScrubProofs

  // ----- the rule, position by position

  ghost predicate TokenCharsOn(text: Text, i: nat, j: nat) {
    i <= j <= |text| && forall k | i <= k < j :: IsTokenChar(text[k])
  }

  ghost predicate PadOn(text: Text, i: nat, j: nat) {
    i <= j <= |text| && forall k | i <= k < j :: text[k] == EQUALS
  }

  /** Only token characters, and then only `=`, from the token's start up to and including `i`. */
  ghost predicate OnToken(text: Text, token: nat, i: nat) {
    token <= i < |text| && exists pad :: token < pad && TokenCharsOn(text, token, pad) && PadOn(text, pad, i + 1)
  }

  /** Position `i` is in the whitespace after the scheme, in its token, or in the `=` after that. */
  ghost predicate InToken(text: Text, m: Auth, i: nat) {
    IsAuth(text, m) && m.space <= i < |text| && (i < m.token || OnToken(text, m.token, i))
  }

  /** A scheme on a word boundary with a token, which no such scheme before it takes for its own token. */
  ghost predicate Taken(text: Text, m: Auth)
    decreases m.at
  {
    IsAuth(text, m) && forall n: Auth | n.at < m.at && InToken(text, n, m.at) :: !Taken(text, n)
  }

  /** What the rule takes. */
  ghost predicate InTakenToken(text: Text, i: nat) {
    exists m :: Taken(text, m) && InToken(text, m, i)
  }

  // ----- where a match ends

  lemma OnTokenIff(text: Text, token: nat, i: nat)
    requires token < |text| && IsTokenChar(text[token])
    ensures OnToken(text, token, i) <==> token <= i < AuthEnd(text, token)
  {
    var pad := RunEnd(text, token, EndsToken);
    var end := AuthEnd(text, token);
    RunEnds(text, token, EndsToken);
    RunEnds(text, pad, EndsPad);
    if token <= i < end {
      if i < pad {
        assert TokenCharsOn(text, token, i + 1) && PadOn(text, i + 1, i + 1);
      } else {
        assert TokenCharsOn(text, token, pad) && PadOn(text, pad, i + 1);
      }
    }
    if OnToken(text, token, i) { OnTokenEnds(text, token, i, pad, end); }
  }

  lemma OnTokenEnds(text: Text, token: nat, i: nat, pad: nat, end: nat)
    requires OnToken(text, token, i) && IsRunEnd(text, token, EndsToken, pad) && IsRunEnd(text, pad, EndsPad, end)
    ensures i < end
  {
    var p :| token < p && TokenCharsOn(text, token, p) && PadOn(text, p, i + 1);
    assert pad < |text| ==> EndsToken(text[pad]);
    if p <= i {
      assert text[p] == EQUALS && EndsToken(text[p]);
      assert end < |text| ==> EndsPad(text[end]);
    }
  }

  lemma InTokenIff(text: Text, m: Auth, i: nat)
    requires IsAuth(text, m)
    ensures InToken(text, m, i) <==> m.space <= i < AuthEnd(text, m.token)
  {
    OnTokenIff(text, m.token, i);
    AfterToken(text, m);
  }

  // ----- matches of the rest of a text

  lemma InTokenMoves(text: Text, k: nat, rest: Text, n: Auth, i: nat)
    requires Follows(text, k, rest) && IsAuth(rest, n) && IsAuth(text, MovedAuth(n, k))
    ensures InToken(text, MovedAuth(n, k), i + k) <==> InToken(rest, n, i)
  {
    InTokenIff(rest, n, i);
    InTokenIff(text, MovedAuth(n, k), i + k);
    AuthEndInRest(text, k, rest, n.token + k);
  }

  /** A match that starts past the first one's end is not one that the first one takes; one that starts before is. */
  lemma FirstTakes(text: Text, m: Auth, n: Auth)
    requires FirstAuth(text, m) && IsAuth(text, n)
    ensures Taken(text, m)
    ensures m.at < n.at < AuthEnd(text, m.token) ==> InToken(text, m, n.at) && !Taken(text, n)
  {
    if m.at < n.at < AuthEnd(text, m.token) {
      if n.at < m.space { SchemeLetter(text, m.at, n.at - 1 - m.at); }
      InTokenIff(text, m, n.at);
    }
  }

  lemma {:induction false} TakenMoves(text: Text, m: Auth, rest: Text, n: Auth)
    requires FirstAuth(text, m) && Follows(text, AuthEnd(text, m.token), rest) && IsAuth(rest, n)
    ensures IsAuth(text, MovedAuth(n, AuthEnd(text, m.token)))
    ensures Taken(text, MovedAuth(n, AuthEnd(text, m.token))) <==> Taken(rest, n)
    decreases n.at
  {
    var k := AuthEnd(text, m.token);
    AfterToken(text, m);
    AuthFromRest(text, k, rest, n);
    var far := MovedAuth(n, k);
    if Taken(text, far) {
      forall o: Auth | o.at < n.at && InToken(rest, o, n.at) ensures !Taken(rest, o) {
        TakenMoves(text, m, rest, o);
        InTokenMoves(text, k, rest, o, n.at);
      }
    }
    if Taken(rest, n) {
      forall o: Auth | o.at < far.at && InToken(text, o, far.at) ensures !Taken(text, o) {
        OuterNotTaken(text, m, rest, n, o);
      }
    }
  }

  /** A match past the first one's end, as the rest has it. */
  lemma Nearer(text: Text, k: nat, rest: Text, o: Auth) returns (near: Auth)
    requires Follows(text, k, rest) && IsAuth(text, o) && o.at >= k
    ensures IsAuth(rest, near) && MovedAuth(near, k) == o && near.at + k == o.at
  {
    AuthInRest(text, k, rest, o);
    near := MovedAuth(o, 0 - k);
  }

  /** What could take a match of the rest in the whole text is not taken itself. */
  lemma OuterNotTaken(text: Text, m: Auth, rest: Text, n: Auth, o: Auth)
    requires FirstAuth(text, m) && Follows(text, AuthEnd(text, m.token), rest) && Taken(rest, n)
    requires o.at < n.at + AuthEnd(text, m.token) && InToken(text, o, n.at + AuthEnd(text, m.token))
    ensures !Taken(text, o)
    decreases n.at, 0
  {
    var k := AuthEnd(text, m.token);
    if o.at < k {
      InnerNotTaken(text, m, o, n.at + k);
    } else {
      var near := Nearer(text, k, rest, o);
      InTokenMoves(text, k, rest, near, n.at);
      NotTakenBy(rest, n, near);
      TakenMoves(text, m, rest, near);
    }
  }

  lemma NotTakenBy(text: Text, n: Auth, o: Auth)
    requires Taken(text, n) && o.at < n.at && InToken(text, o, n.at)
    ensures !Taken(text, o)
  {
  }

  /** A match from inside the first one that reaches past its end is not taken: it is in the first one's token. */
  lemma InnerNotTaken(text: Text, m: Auth, o: Auth, i: nat)
    requires FirstAuth(text, m) && o.at < AuthEnd(text, m.token) <= i && InToken(text, o, i)
    ensures !Taken(text, o)
  {
    FirstTakes(text, m, o);
    if o.at == m.at {
      AuthUnique(text, m, o);
      InTokenIff(text, m, i);
    }
  }

  // ----- what is taken

  lemma TakenFar(text: Text, m: Auth, rest: Text, i: nat)
    requires FirstAuth(text, m) && Follows(text, AuthEnd(text, m.token), rest) && InTakenToken(rest, i)
    ensures InTakenToken(text, i + AuthEnd(text, m.token))
  {
    var k := AuthEnd(text, m.token);
    var n :| Taken(rest, n) && InToken(rest, n, i);
    TakenMoves(text, m, rest, n);
    InTokenMoves(text, k, rest, n, i);
    assert Taken(text, MovedAuth(n, k)) && InToken(text, MovedAuth(n, k), i + k);
  }

  lemma TakenNear(text: Text, m: Auth, rest: Text, i: nat)
    requires FirstAuth(text, m) && Follows(text, AuthEnd(text, m.token), rest)
    requires InTakenToken(text, i + AuthEnd(text, m.token))
    ensures InTakenToken(rest, i)
  {
    var o :| Taken(text, o) && InToken(text, o, i + AuthEnd(text, m.token));
    TakenAfter(text, m, o, i + AuthEnd(text, m.token));
    TakenNearBy(text, m, AuthEnd(text, m.token), rest, o, i);
  }

  lemma TakenNearBy(text: Text, m: Auth, k: nat, rest: Text, o: Auth, i: nat)
    requires FirstAuth(text, m) && k == AuthEnd(text, m.token) && Follows(text, k, rest)
    requires Taken(text, o) && InToken(text, o, i + k) && o.at >= k
    ensures InTakenToken(rest, i)
  {
    var near := Nearer(text, k, rest, o);
    TakenMoves(text, m, rest, near);
    InTokenMoves(text, k, rest, near, i);
  }

  /** What takes a position past the first match's end starts there too. */
  lemma TakenAfter(text: Text, m: Auth, o: Auth, i: nat)
    requires FirstAuth(text, m) && Taken(text, o) && InToken(text, o, i) && i >= AuthEnd(text, m.token)
    ensures o.at >= AuthEnd(text, m.token)
  {
    if o.at < AuthEnd(text, m.token) { InnerNotTaken(text, m, o, i); }
  }

  /** Up to the first match's end the rule takes what that match takes. */
  lemma TakenInFirst(text: Text, m: Auth, i: nat)
    requires FirstAuth(text, m) && i < AuthEnd(text, m.token)
    ensures InTakenToken(text, i) <==> i >= m.space
  {
    FirstTakes(text, m, m);
    InTokenIff(text, m, i);
    if InTakenToken(text, i) {
      var o :| Taken(text, o) && InToken(text, o, i);
      FirstTakes(text, m, o);
      if o.at == m.at { AuthUnique(text, m, o); }
    }
  }

  /**
   * The one-pass scan takes exactly what the rule takes: a character is removed exactly when it is
   * the whitespace, the token or the `=` after a scheme on a word boundary that is not itself in such a token.
   */
  lemma {:induction false} AuthPlaceIff(text: Text, i: nat)
    requires i < |text|
    ensures AuthPlace(text, i).None? <==> InTakenToken(text, i)
    decreases |text|
  {
    FindAuthFinds(text);
    if FindAuth(text).Some? {
      var m := FindAuth(text).value;
      var end := AuthEnd(text, m.token);
      if i >= end {
        var rest := text[end..];
        AuthPlaceIff(rest, i - end);
        RestIff(text, m, rest, i - end);
        PlaceInRest(text, m, rest, i);
      } else {
        TakenInFirst(text, m, i);
      }
    } else {
      NothingTaken(text, i);
    }
  }

  lemma PlaceInRest(text: Text, m: Auth, rest: Text, i: nat)
    requires FindAuth(text) == Some(m) && rest == text[AuthEnd(text, m.token)..] && AuthEnd(text, m.token) <= i
    ensures AuthPlace(text, i).None? <==> AuthPlace(rest, i - AuthEnd(text, m.token)).None?
  {
  }

  lemma RestIff(text: Text, m: Auth, rest: Text, i: nat)
    requires FirstAuth(text, m) && Follows(text, AuthEnd(text, m.token), rest)
    ensures InTakenToken(text, i + AuthEnd(text, m.token)) <==> InTakenToken(rest, i)
  {
    if InTakenToken(rest, i) { TakenFar(text, m, rest, i); }
    if InTakenToken(text, i + AuthEnd(text, m.token)) { TakenNear(text, m, rest, i); }
  }

  lemma NothingTaken(text: Text, i: nat)
    requires NoAuth(text)
    ensures !InTakenToken(text, i)
  {
  }

  /** Every character removed with a token is whitespace, a token character or `=`. */
  lemma RemovedCharacters(text: Text, i: nat)
    requires i < |text| && AuthPlace(text, i).None?
    ensures IsWhitespace(text[i]) || IsTokenChar(text[i]) || text[i] == EQUALS
  {
    AuthPlaceIff(text, i);
    var m :| Taken(text, m) && InToken(text, m, i);
    if i >= m.token { OnTokenCharacter(text, m.token, i); }
  }

  lemma OnTokenCharacter(text: Text, token: nat, i: nat)
    requires OnToken(text, token, i)
    ensures IsTokenChar(text[i]) || text[i] == EQUALS
  {
    var pad :| token < pad && TokenCharsOn(text, token, pad) && PadOn(text, pad, i + 1);
    if pad <= i { assert text[i] == EQUALS; }
  }
}
