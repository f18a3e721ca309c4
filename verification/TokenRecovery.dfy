/** The editor's token stream: a model header without translation and version parts gets
    synthetic tokens inserted before its equals sign. */
module TokenRecovery {

  datatype Kind = EQUAL | NAME | MODEL | LPAREN | RPAREN | NOINCREMENTALTRANSFER | ATT | STRING | VERSION | OTHER(n: nat)

  datatype Token = Token(kind: Kind, text: string, channel: nat, synthetic: bool, line: nat, column: nat, index: nat)

  const DEFAULT_CHANNEL := 0

  predicate OnDefault(t: Token) {
    t.channel == DEFAULT_CHANNEL
  }

  /** No token strictly between two positions is on the default channel. */
  ghost predicate Hidden(tokens: seq<Token>, a: nat, b: nat) {
    forall k :: a < k < b && k < |tokens| ==> !OnDefault(tokens[k])
  }

  /** The two default-channel tokens before position e are MODEL NAME. A hidden token at the
      very start of the stream passes for the first of them. */
  ghost predicate HeaderAt(tokens: seq<Token>, e: nat, p: nat, m: nat) {
    && m < p < e < |tokens|
    && OnDefault(tokens[p]) && tokens[p].kind == NAME && Hidden(tokens, p, e)
    && (OnDefault(tokens[m]) || m == 0) && tokens[m].kind == MODEL && Hidden(tokens, m, p)
  }

  ghost predicate BareHeader(tokens: seq<Token>, e: nat) {
    exists p: nat, m: nat :: HeaderAt(tokens, e, p, m)
  }

  // ---------------------------------------------------------------- recognising a bare header

  /** `nextDefault`: the next position on the default channel, or the length. */
  method NextDefault(tokens: seq<Token>, start: nat) returns (index: nat)
    requires start < |tokens|
    ensures start < index <= |tokens| && Hidden(tokens, start, index)
    ensures index < |tokens| ==> OnDefault(tokens[index])
  {
    index := start + 1;
    while index < |tokens| && !OnDefault(tokens[index])
      invariant start < index <= |tokens| && Hidden(tokens, start, index)
    {
      index := index + 1;
    }
  }

  /** `bareModelHeaderBefore` on an equals sign of the default channel. */
  method BareModelHeaderBefore(tokens: seq<Token>, e: nat) returns (bare: bool)
    requires e < |tokens| && tokens[e].kind == EQUAL && OnDefault(tokens[e])
    ensures bare <==> BareHeader(tokens, e)
  {
    var modelIndex: nat := e;
    while modelIndex > 0
      invariant modelIndex <= e
      invariant modelIndex < e ==> !OnDefault(tokens[modelIndex])
      invariant Hidden(tokens, modelIndex, e)
    {
      if OnDefault(tokens[modelIndex - 1]) {
        modelIndex := modelIndex - 1;
        break;
      }
      modelIndex := modelIndex - 1;
    }
    ghost var p := modelIndex;
    if tokens[modelIndex].kind != NAME {
      return false;
    }
    if modelIndex == 0 { return false; }
    modelIndex := modelIndex - 1;
    while modelIndex > 0 && !OnDefault(tokens[modelIndex])
      invariant modelIndex < p && Hidden(tokens, modelIndex, p)
    {
      modelIndex := modelIndex - 1;
    }
    if tokens[modelIndex].kind != MODEL { return false; }
    assert HeaderAt(tokens, e, p, modelIndex);

    var nextIndex := NextDefault(tokens, modelIndex);
    assert nextIndex == p;
    if nextIndex >= |tokens| || tokens[nextIndex].kind != NAME { return false; }
    nextIndex := NextDefault(tokens, nextIndex);
    assert nextIndex == e;
    if nextIndex >= |tokens| { return false; }
    if tokens[nextIndex].kind == LPAREN {
      assert false;
    }
    if tokens[nextIndex].kind == NOINCREMENTALTRANSFER {
      assert false;
    }
    return tokens[nextIndex].kind == EQUAL;
  }

  /** With NAME and MODEL only on the default channel, the condition is MODEL NAME alone. */
  lemma BareHeaderOnDefault(tokens: seq<Token>, e: nat)
    requires forall i :: 0 <= i < |tokens| && (tokens[i].kind == NAME || tokens[i].kind == MODEL) ==> OnDefault(tokens[i])
    ensures BareHeader(tokens, e) <==> exists p: nat, m: nat :: HeaderAt(tokens, e, p, m) && OnDefault(tokens[m])
  {
    if BareHeader(tokens, e) {
      var p: nat, m: nat :| HeaderAt(tokens, e, p, m);
      assert HeaderAt(tokens, e, p, m) && OnDefault(tokens[m]);
    }
  }

  // ---------------------------------------------------------------- rewriting

  predicate EqualsSign(t: Token) {
    t.kind == EQUAL && OnDefault(t)
  }

  /** The equals signs that get synthetic tokens. */
  ghost predicate Recoverable(tokens: seq<Token>, i: nat) {
    i < |tokens| && EqualsSign(tokens[i]) && BareHeader(tokens, i)
  }

  function Synthetic(kind: Kind, text: string, location: Token): Token {
    Token(kind, text, DEFAULT_CHANNEL, true, location.line, location.column, 0)
  }

  /** AT "" VERSION "1" */
  function Inserted(t: Token): (r: seq<Token>)
    ensures |r| == 4
  {
    [Synthetic(ATT, "AT", t), Synthetic(STRING, "\"\"", t), Synthetic(VERSION, "VERSION", t), Synthetic(STRING, "\"1\"", t)]
  }

  /** What is inserted before a token. */
  function Front(t: Token, recover: bool): (r: seq<Token>)
    ensures |r| == if recover then 4 else 0
  {
    if recover then Inserted(t) else []
  }

  function Rewritten(tokens: seq<Token>, recover: seq<bool>): seq<Token>
    requires |recover| == |tokens|
  {
    if tokens == [] then []
    else
      var n := |tokens| - 1;
      Rewritten(tokens[..n], recover[..n]) + (Front(tokens[n], recover[n]) + [tokens[n]])
  }

  function Count(recover: seq<bool>): nat {
    if recover == [] then 0 else Count(recover[..|recover| - 1]) + (if recover[|recover| - 1] then 1 else 0)
  }

  function Reindexed(tokens: seq<Token>): (r: seq<Token>)
    ensures |r| == |tokens| && forall i :: 0 <= i < |r| ==> r[i] == tokens[i].(index := i)
  {
    seq(|tokens|, i requires 0 <= i < |tokens| => tokens[i].(index := i))
  }

  /** Which positions are recovered, as the first loop finds them. */
  ghost predicate Marks(tokens: seq<Token>, recover: seq<bool>) {
    |recover| == |tokens| && forall i :: 0 <= i < |tokens| ==> (recover[i] <==> Recoverable(tokens, i))
  }

  class EditorRecoveryTokenStream {
    var tokens: seq<Token>
    var recovered: bool

    constructor (tokens: seq<Token>)
      ensures this.tokens == tokens && !recovered
    {
      this.tokens, recovered := tokens, false;
    }

    /** `recoverBareModelHeaders` */
    method RecoverBareModelHeaders() returns (ghost recover: seq<bool>)
      modifies this
      ensures Marks(old(tokens), recover)
      ensures if Count(recover) == 0 then tokens == old(tokens) && recovered == old(recovered)
              else tokens == Reindexed(Rewritten(old(tokens), recover)) && recovered
    {
      var marks: seq<bool> := [];
      var any := false;
      for index := 0 to |tokens|
        invariant tokens == old(tokens) && recovered == old(recovered)
        invariant |marks| == index && forall i :: 0 <= i < index ==> (marks[i] <==> Recoverable(tokens, i))
        invariant any <==> Count(marks) > 0
      {
        var bare := false;
        if tokens[index].kind == EQUAL && OnDefault(tokens[index]) {
          bare := BareModelHeaderBefore(tokens, index);
        }
        assert (marks + [bare])[..index] == marks;
        marks := marks + [bare];
        any := any || bare;
      }
      recover := marks;
      if !any { return; }
      var rewritten: seq<Token> := [];
      for index := 0 to |tokens|
        invariant tokens == old(tokens) && |marks| == |tokens|
        invariant rewritten == Rewritten(tokens[..index], marks[..index])
      {
        assert tokens[..index + 1][..index] == tokens[..index] && marks[..index + 1][..index] == marks[..index];
        rewritten := rewritten + (Front(tokens[index], marks[index]) + [tokens[index]]);
      }
      assert tokens[..|tokens|] == tokens && marks[..|marks|] == marks;
      tokens := Reindexed(rewritten);
      recovered := true;
    }
  }

  // ---------------------------------------------------------------- what rewriting keeps

  /** Four tokens more for each recovered header. */
  lemma {:induction false} RewrittenLength(tokens: seq<Token>, recover: seq<bool>)
    requires |recover| == |tokens|
    ensures |Rewritten(tokens, recover)| == |tokens| + 4 * Count(recover)
  {
    if tokens != [] {
      var n := |tokens| - 1;
      RewrittenLength(tokens[..n], recover[..n]);
    }
  }

  /** The tokens that came from the source, without their index. */
  function Real(tokens: seq<Token>): seq<Token> {
    if tokens == [] then []
    else
      var n := |tokens| - 1;
      Real(tokens[..n]) + (if tokens[n].synthetic then [] else [tokens[n].(index := 0)])
  }

  lemma {:induction false} RealConcat(a: seq<Token>, b: seq<Token>)
    ensures Real(a + b) == Real(a) + Real(b)
    decreases |b|
  {
    if b == [] {
      assert a + b == a;
    } else {
      var n := |b| - 1;
      RealConcat(a, b[..n]);
      assert (a + b)[..|a + b| - 1] == a + b[..n];
    }
  }

  lemma {:induction false} RealOfReindexed(tokens: seq<Token>)
    ensures Real(Reindexed(tokens)) == Real(tokens)
    decreases |tokens|
  {
    if tokens != [] {
      var n := |tokens| - 1;
      RealOfReindexed(tokens[..n]);
      assert Reindexed(tokens)[..n] == Reindexed(tokens[..n]);
    }
  }

  lemma {:induction false} RealOfSynthetic(tokens: seq<Token>)
    requires forall i :: 0 <= i < |tokens| ==> tokens[i].synthetic
    ensures Real(tokens) == []
  {
    if tokens != [] { RealOfSynthetic(tokens[..|tokens| - 1]); }
  }

  lemma RealOfFront(t: Token, recover: bool)
    ensures Real(Front(t, recover)) == []
  {
    RealOfSynthetic(Front(t, recover));
  }

  lemma {:induction false} RewrittenKeepsReal(tokens: seq<Token>, recover: seq<bool>)
    requires |recover| == |tokens|
    ensures Real(Rewritten(tokens, recover)) == Real(tokens)
    decreases |tokens|
  {
    hide Front, Real;
    if tokens != [] {
      var n := |tokens| - 1;
      var t := tokens[n];
      var init, front := Rewritten(tokens[..n], recover[..n]), Front(t, recover[n]);
      RewrittenKeepsReal(tokens[..n], recover[..n]);
      RealOfFront(t, recover[n]);
      RealConcat(init, front + [t]);
      RealConcat(front, [t]);
      RealConcat(tokens[..n], [t]);
      assert tokens == tokens[..n] + [t];
      assert [] + Real([t]) == Real([t]);
    }
  }

  /** Deleting the synthetic tokens gives back the tokens of the source, in order. */
  lemma RewritingKeepsReal(tokens: seq<Token>, recover: seq<bool>)
    requires |recover| == |tokens|
    ensures Real(Reindexed(Rewritten(tokens, recover))) == Real(tokens)
  {
    hide Real, Rewritten;
    RealOfReindexed(Rewritten(tokens, recover));
    RewrittenKeepsReal(tokens, recover);
  }

  // ---------------------------------------------------------------- a second run

  /** Where token i of the source stands in the rewritten stream. */
  function Place(recover: seq<bool>, i: nat): nat
    requires i < |recover|
  {
    i + 4 * Count(recover[..i + 1])
  }

  lemma {:induction false} CountPrefix(recover: seq<bool>, i: nat, j: nat)
    requires i <= j <= |recover|
    ensures Count(recover[..i]) <= Count(recover[..j])
    decreases j - i
  {
    if i < j {
      CountPrefix(recover, i, j - 1);
      assert recover[..j][..j - 1] == recover[..j - 1];
    }
  }

  lemma PlaceMonotone(recover: seq<bool>, i: nat, j: nat)
    requires i < j < |recover|
    ensures Place(recover, i) < Place(recover, j)
  {
    CountPrefix(recover, i + 1, j + 1);
  }

  /** Every token of the source stands at its place, its insertion right before it. */
  lemma {:induction false} TokenAtPlace(tokens: seq<Token>, recover: seq<bool>, i: nat)
    requires |recover| == |tokens| && i < |tokens|
    ensures Place(recover, i) < |Rewritten(tokens, recover)| && Rewritten(tokens, recover)[Place(recover, i)] == tokens[i]
    ensures recover[i] ==> Place(recover, i) >= 4 && Rewritten(tokens, recover)[Place(recover, i) - 1] == Inserted(tokens[i])[3]
    decreases |tokens|
  {
    hide Inserted;
    var n := |tokens| - 1;
    var out, init := Rewritten(tokens, recover), Rewritten(tokens[..n], recover[..n]);
    RewrittenLength(tokens[..n], recover[..n]);
    assert recover[..n + 1] == recover;
    if i < n {
      TokenAtPlace(tokens[..n], recover[..n], i);
      assert recover[..n][..i + 1] == recover[..i + 1];
      assert Place(recover[..n], i) == Place(recover, i);
      assert out[Place(recover, i)] == init[Place(recover, i)];
    }
  }

  /** Every position holds a synthetic token or is the place of a token of the source. */
  lemma {:induction false} PlaceOf(tokens: seq<Token>, recover: seq<bool>, k: nat) returns (i: nat)
    requires |recover| == |tokens| && k < |Rewritten(tokens, recover)|
    requires !Rewritten(tokens, recover)[k].synthetic
    ensures i < |tokens| && Place(recover, i) == k
    decreases |tokens|
  {
    var n := |tokens| - 1;
    var out, init := Rewritten(tokens, recover), Rewritten(tokens[..n], recover[..n]);
    RewrittenLength(tokens[..n], recover[..n]);
    assert recover[..n + 1] == recover;
    if k < |init| {
      assert out[k] == init[k];
      i := PlaceOf(tokens[..n], recover[..n], k);
      assert recover[..n][..i + 1] == recover[..i + 1];
    } else {
      var front := Front(tokens[n], recover[n]);
      assert k - |init| < |front| ==> out[k] == front[k - |init|];
      i := n;
    }
  }

  /** The four tokens before a recovered sign spell AT "" VERSION "1", at the place of the sign. */
  lemma HeaderCompleted(tokens: seq<Token>, recover: seq<bool>, i: nat)
    requires |recover| == |tokens| && i < |tokens| && recover[i]
    ensures
      var out, p, t := Rewritten(tokens, recover), Place(recover, i), tokens[i];
      && 4 <= p < |out| && out[p] == t
      && out[p - 4] == Token(ATT, "AT", 0, true, t.line, t.column, 0) && out[p - 3] == Token(STRING, "\"\"", 0, true, t.line, t.column, 0)
      && out[p - 2] == Token(VERSION, "VERSION", 0, true, t.line, t.column, 0) && out[p - 1] == Token(STRING, "\"1\"", 0, true, t.line, t.column, 0)
  {
    FrontAtPlace(tokens, recover, i);
    TokenAtPlace(tokens, recover, i);
    hide Rewritten, Place;
  }

  lemma {:induction false} FrontAtPlace(tokens: seq<Token>, recover: seq<bool>, i: nat)
    requires |recover| == |tokens| && i < |tokens| && recover[i]
    ensures
      var out, p, front := Rewritten(tokens, recover), Place(recover, i), Inserted(tokens[i]);
      && 4 <= p < |out|
      && out[p - 4] == front[0] && out[p - 3] == front[1] && out[p - 2] == front[2] && out[p - 1] == front[3]
    decreases |tokens|
  {
    hide Inserted;
    var n := |tokens| - 1;
    var out, init := Rewritten(tokens, recover), Rewritten(tokens[..n], recover[..n]);
    RewrittenLength(tokens[..n], recover[..n]);
    RewrittenLength(tokens, recover);
    assert recover[..n + 1] == recover;
    if i < n {
      FrontAtPlace(tokens[..n], recover[..n], i);
      assert recover[..n][..i + 1] == recover[..i + 1];
      assert Place(recover[..n], i) == Place(recover, i);
    } else {
      assert Place(recover, i) == |init| + 4;
      var front := Inserted(tokens[n]);
      assert out == init + (front + [tokens[n]]);
    }
  }

  /** What hides between two places hid between the two tokens. */
  lemma HiddenBefore(tokens: seq<Token>, recover: seq<bool>, a: nat, b: nat)
    requires |recover| == |tokens| && a < b < |tokens|
    requires Hidden(Reindexed(Rewritten(tokens, recover)), Place(recover, a), Place(recover, b))
    ensures Hidden(tokens, a, b)
  {
    hide Place, Rewritten;
    var out := Reindexed(Rewritten(tokens, recover));
    forall k | a < k < b ensures !OnDefault(tokens[k]) {
      TokenAtPlace(tokens, recover, k);
      PlaceMonotone(recover, a, k);
      PlaceMonotone(recover, k, b);
      assert !OnDefault(out[Place(recover, k)]);
    }
  }

  lemma PlaceZero(recover: seq<bool>, i: nat)
    requires i < |recover| && Place(recover, i) == 0
    ensures i == 0
  {
  }

  /** A default-channel token other than a NAME right before it makes a header not bare. */
  lemma NotAfterName(tokens: seq<Token>, e: nat)
    requires 0 < e < |tokens| && OnDefault(tokens[e - 1]) && tokens[e - 1].kind != NAME
    ensures !BareHeader(tokens, e)
  {
  }

  /** A bare header before an equals sign that got no insertion was there before. */
  lemma HeaderWasThere(tokens: seq<Token>, recover: seq<bool>, e: nat, p': nat, m': nat)
    requires |recover| == |tokens| && forall i :: 0 <= i < |tokens| ==> !tokens[i].synthetic
    requires e < |tokens| && HeaderAt(Reindexed(Rewritten(tokens, recover)), Place(recover, e), p', m')
    ensures BareHeader(tokens, e)
  {
    hide Rewritten, Place;
    SyntheticKinds(tokens, recover, p');
    SyntheticKinds(tokens, recover, m');
    var p := PlaceOf(tokens, recover, p');
    var m := PlaceOf(tokens, recover, m');
    TokenAtPlace(tokens, recover, p);
    TokenAtPlace(tokens, recover, m);
    PlacesOrdered(recover, p, e);
    PlacesOrdered(recover, m, p);
    HiddenBefore(tokens, recover, p, e);
    HiddenBefore(tokens, recover, m, p);
    if m' == 0 { PlaceZero(recover, m); }
    assert HeaderAt(tokens, e, p, m);
  }

  /** In a rewritten stream no equals sign is recoverable: a second run inserts nothing. */
  lemma SecondRunInsertsNothing(tokens: seq<Token>, recover: seq<bool>, k: nat)
    requires Marks(tokens, recover)
    requires forall i :: 0 <= i < |tokens| ==> !tokens[i].synthetic
    ensures !Recoverable(Reindexed(Rewritten(tokens, recover)), k)
  {
    hide Rewritten, Place, Inserted;
    var out := Reindexed(Rewritten(tokens, recover));
    if k < |out| && EqualsSign(out[k]) {
      SyntheticKinds(tokens, recover, k);
      var e := PlaceOf(tokens, recover, k);
      TokenAtPlace(tokens, recover, e);
      if recover[e] {
        LastInserted(tokens[e]);
        NotAfterName(out, k);
      } else {
        assert !BareHeader(tokens, e);
        forall p': nat, m': nat ensures !HeaderAt(out, k, p', m') {
          NoHeaderWithout(tokens, recover, e, p', m');
        }
      }
    }
  }

  lemma LastInserted(t: Token)
    ensures Inserted(t)[3].kind == STRING && OnDefault(Inserted(t)[3])
  {
  }

  lemma NoHeaderWithout(tokens: seq<Token>, recover: seq<bool>, e: nat, p': nat, m': nat)
    requires |recover| == |tokens| && forall i :: 0 <= i < |tokens| ==> !tokens[i].synthetic
    requires e < |tokens| && !BareHeader(tokens, e)
    ensures !HeaderAt(Reindexed(Rewritten(tokens, recover)), Place(recover, e), p', m')
  {
    if HeaderAt(Reindexed(Rewritten(tokens, recover)), Place(recover, e), p', m') {
      HeaderWasThere(tokens, recover, e, p', m');
    }
  }

  lemma PlacesOrdered(recover: seq<bool>, i: nat, j: nat)
    requires i < |recover| && j < |recover| && Place(recover, i) < Place(recover, j)
    ensures i < j
  {
    hide Place;
    if j < i { PlaceMonotone(recover, j, i); }
  }

  /** A token of kind NAME, MODEL or EQUAL comes from the source. */
  lemma {:induction false} SyntheticKinds(tokens: seq<Token>, recover: seq<bool>, k: nat)
    requires |recover| == |tokens| && k < |Rewritten(tokens, recover)|
    requires forall i :: 0 <= i < |tokens| ==> !tokens[i].synthetic
    ensures Rewritten(tokens, recover)[k].synthetic ==> Rewritten(tokens, recover)[k].kind in {ATT, STRING, VERSION}
    decreases |tokens|
  {
    if tokens != [] {
      var n := |tokens| - 1;
      var init := Rewritten(tokens[..n], recover[..n]);
      if k < |init| { SyntheticKinds(tokens[..n], recover[..n], k); }
    }
  }
}
