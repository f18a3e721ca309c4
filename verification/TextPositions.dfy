/** What a line and a column are: the number of line feeds before, and the number of UTF-16 code
    units since the last of them. */
module TextPositions {
  import opened Utf8
  import opened RangeMapper

  function Units(v: nat): nat {
    if v < 0x10000 then 1 else 2
  }

  function Utf16Length(vs: seq<nat>): nat {
    if vs == [] then 0 else Utf16Length(vs[..|vs| - 1]) + Units(vs[|vs| - 1])
  }

  ghost function LineFeeds(vs: seq<nat>): set<nat> {
    set i: nat | i < |vs| && vs[i] == 10
  }

  /** The code points since the last line feed. */
  function LastLine(vs: seq<nat>): seq<nat> {
    if vs == [] || vs[|vs| - 1] == 10 then [] else LastLine(vs[..|vs| - 1]) + [vs[|vs| - 1]]
  }

  /** It is the longest end of the text without a line feed. */
  lemma {:induction false} LastLineIs(vs: seq<nat>)
    ensures
      var n := |LastLine(vs)|;
      && n <= |vs| && vs[|vs| - n..] == LastLine(vs) && 10 !in LastLine(vs)
      && (n < |vs| ==> vs[|vs| - n - 1] == 10)
    decreases |vs|
  {
    if vs != [] && vs[|vs| - 1] != 10 {
      var init := vs[..|vs| - 1];
      LastLineIs(init);
      var n := |LastLine(init)|;
      assert vs[|vs| - n - 1..] == init[|init| - n..] + [vs[|vs| - 1]];
    }
  }

  function Step(at: (nat, nat), v: nat): (nat, nat) {
    if v == 10 then (at.0 + 1, 0) else (at.0, at.1 + Units(v))
  }

  function Fold(at: (nat, nat), vs: seq<nat>): (nat, nat)
    decreases |vs|
  {
    if vs == [] then at else Fold(Step(at, vs[0]), vs[1..])
  }

  lemma {:induction false} FoldSnoc(at: (nat, nat), vs: seq<nat>, v: nat)
    ensures Fold(at, vs + [v]) == Step(Fold(at, vs), v)
    decreases |vs|
  {
    hide Step;
    if vs == [] {
      assert vs + [v] == [v] && [v][1..] == [];
      assert Fold(Step(at, v), []) == Step(at, v);
    } else {
      assert (vs + [v])[1..] == vs[1..] + [v];
      FoldSnoc(Step(at, vs[0]), vs[1..], v);
    }
  }

  lemma LineFeedsSnoc(vs: seq<nat>, v: nat)
    ensures |LineFeeds(vs + [v])| == |LineFeeds(vs)| + (if v == 10 then 1 else 0)
  {
    if v == 10 { assert LineFeeds(vs + [v]) == LineFeeds(vs) + {|vs|}; }
    else { assert LineFeeds(vs + [v]) == LineFeeds(vs); }
  }

  lemma LastLineSnoc(vs: seq<nat>, v: nat)
    ensures Utf16Length(LastLine(vs + [v])) == if v == 10 then 0 else Utf16Length(LastLine(vs)) + Units(v)
  {
    assert (vs + [v])[..|vs|] == vs;
    var line := LastLine(vs);
    assert (line + [v])[..|line|] == line;
  }

  lemma NothingRead()
    ensures Fold((0, 0), []) == (0, 0) && LineFeeds([]) == {} && Utf16Length(LastLine([])) == 0
  {
  }

  lemma {:induction false} FoldCounts(vs: seq<nat>)
    ensures Fold((0, 0), vs) == (|LineFeeds(vs)|, Utf16Length(LastLine(vs)))
    decreases |vs|
  {
    hide Fold, LineFeeds, LastLine, Utf16Length, Units;
    NothingRead();
    if vs != [] {
      var init, v := vs[..|vs| - 1], vs[|vs| - 1];
      FoldCounts(init);
      FoldSnoc((0, 0), init, v);
      LineFeedsSnoc(init, v);
      LastLineSnoc(init, v);
      assert vs == init + [v];
    }
  }

  lemma {:induction false} AfterIsFold(p: Position, s: seq<Byte>, k: nat)
    requires k <= |DecodeAll(s)|
    ensures (After(p, s, k).line, After(p, s, k).utf16Column) == Fold((p.line, p.utf16Column), DecodeAll(s)[..k])
    decreases |s|
  {
    hide *;
    if k == 0 {
      AtStart(p, s);
      FoldNone((p.line, p.utf16Column), DecodeAll(s));
    } else {
      AfterStep(p, s, k);
      var d, rest := Decode(s), s[Decode(s).width..];
      DecodeExact(s);
      AdvanceIsStep(p, d);
      DecodeAllStep(s);
      AfterIsFold(Advance(p, d), rest, k - 1);
      FoldCons((p.line, p.utf16Column), d.value, DecodeAll(rest), k);
    }
  }

  lemma FoldNone(at: (nat, nat), vs: seq<nat>)
    ensures Fold(at, vs[..0]) == at
  {
  }

  lemma FoldCons(at: (nat, nat), v: nat, vs: seq<nat>, k: nat)
    requires 0 < k <= |vs| + 1
    ensures Fold(at, ([v] + vs)[..k]) == Fold(Step(at, v), vs[..k - 1])
  {
    hide Step;
    assert ([v] + vs)[..k][1..] == vs[..k - 1];
  }

  lemma AdvanceIsStep(p: Position, d: Decoded)
    requires d.utf16Width == if d.value < 0x10000 then 1 else 2
    ensures (Advance(p, d).line, Advance(p, d).utf16Column) == Step((p.line, p.utf16Column), d.value)
  {
  }

  /** The position of the k-th code point of a text. */
  lemma PositionCounts(s: seq<Byte>, k: nat)
    requires k <= |DecodeAll(s)|
    ensures
      var before := DecodeAll(s)[..k];
      After(Start, s, k) == Position(Boundary(s, k), |LineFeeds(before)|, Utf16Length(LastLine(before)))
  {
    hide DecodeAll, After, Boundary, Fold, Decode;
    AfterIsFold(Start, s, k);
    FoldCounts(DecodeAll(s)[..k]);
    SplitAt(Start, s, k);
  }
}
