/** The tables of `SourceRangeMapper`: byte offset to line and UTF-16 column, code point
    offset to byte offset; and two other implementations of the same mappings. */
module RangeMapper {
  import opened Utf8

  datatype Position = Position(offset: nat, line: nat, utf16Column: nat)

  const Start := Position(0, 0, 0)

  // ---------------------------------------------------------------- specification

  /** One code point further. */
  function Advance(p: Position, d: Decoded): Position {
    if d.value == 10 then Position(p.offset + d.width, p.line + 1, 0)
    else Position(p.offset + d.width, p.line, p.utf16Column + d.utf16Width)
  }

  /** The position after k code points: the fold over what is decoded. */
  function After(p: Position, s: seq<Byte>, k: nat): Position
    requires k <= |DecodeAll(s)|
    decreases |s|
  {
    if k == 0 then p else After(Advance(p, Decode(s)), s[Decode(s).width..], k - 1)
  }

  /** The byte offset after k code points. */
  function Boundary(s: seq<Byte>, k: nat): (r: nat)
    requires k <= |DecodeAll(s)|
    ensures k <= r <= |s|
    ensures k == |DecodeAll(s)| ==> r == |s|
    decreases |s|
  {
    if k == 0 then 0 else Decode(s).width + Boundary(s[Decode(s).width..], k - 1)
  }

  /** The position of any byte: that of the code point it belongs to, at its own offset. */
  function PositionOf(p: Position, s: seq<Byte>, i: nat): Position
    requires i <= |s|
    decreases |s|
  {
    if s == [] || i < Decode(s).width then p.(offset := p.offset + i)
    else PositionOf(Advance(p, Decode(s)), s[Decode(s).width..], i - Decode(s).width)
  }

  lemma DropDrop(s: seq<Byte>, i: nat, j: nat)
    requires i + j <= |s|
    ensures s[i..][j..] == s[i + j..]
  {
  }

  lemma AfterStep(p: Position, s: seq<Byte>, k: nat)
    requires 0 < k <= |DecodeAll(s)|
    ensures s != [] && k - 1 <= |DecodeAll(s[Decode(s).width..])|
    ensures After(p, s, k) == After(Advance(p, Decode(s)), s[Decode(s).width..], k - 1)
    ensures Advance(p, Decode(s)).offset == p.offset + Decode(s).width
  {
    hide Decode;
  }

  lemma AtStart(p: Position, s: seq<Byte>)
    ensures Boundary(s, 0) == 0 && s[0..] == s && DecodeAll(s)[0..] == DecodeAll(s) && After(p, s, 0) == p
  {
    hide Decode;
  }

  /** At a boundary the text splits: what follows is decoded on its own. */
  lemma {:induction false} SplitAt(p: Position, s: seq<Byte>, k: nat)
    requires k <= |DecodeAll(s)|
    ensures DecodeAll(s[Boundary(s, k)..]) == DecodeAll(s)[k..]
    ensures After(p, s, k).offset == p.offset + Boundary(s, k)
    decreases |s|
  {
    hide *;
    if k == 0 {
      AtStart(p, s);
    } else {
      BoundaryStep(s, k);
      DecodeAllStep(s);
      AfterStep(p, s, k);
      var d, rest := Decode(s), s[Decode(s).width..];
      SplitAt(Advance(p, d), rest, k - 1);
      DropDrop(s, d.width, Boundary(rest, k - 1));
      assert DecodeAll(s)[k..] == DecodeAll(rest)[k - 1..];
    }
  }

  /** The position of a byte can be computed from any boundary before it. */
  lemma {:induction false} PositionFrom(p: Position, s: seq<Byte>, k: nat, i: nat)
    requires k <= |DecodeAll(s)| && Boundary(s, k) <= i <= |s|
    ensures PositionOf(p, s, i) == PositionOf(After(p, s, k), s[Boundary(s, k)..], i - Boundary(s, k))
    decreases |s|
  {
    hide Decode;
    if k == 0 {
      assert s[0..] == s;
    } else {
      var d, rest := Decode(s), s[Decode(s).width..];
      PositionFrom(Advance(p, d), rest, k - 1, i - d.width);
      assert rest[Boundary(rest, k - 1)..] == s[Boundary(s, k)..];
    }
  }

  /** From one boundary to the next. */
  lemma {:induction false} NextBoundary(p: Position, s: seq<Byte>, k: nat)
    requires k < |DecodeAll(s)|
    ensures Boundary(s, k) < |s|
    ensures var d := Decode(s[Boundary(s, k)..]);
      && d.value == DecodeAll(s)[k]
      && Boundary(s, k + 1) == Boundary(s, k) + d.width
      && After(p, s, k + 1) == Advance(After(p, s, k), d)
    decreases |s|
  {
    hide Decode;
    if k == 0 {
      assert s[0..] == s;
    } else {
      var d, rest := Decode(s), s[Decode(s).width..];
      NextBoundary(Advance(p, d), rest, k - 1);
      assert rest[Boundary(rest, k - 1)..] == s[Boundary(s, k)..];
    }
  }

  /** Every byte of a code point has that code point's line and column, at its own offset. */
  lemma PositionsOfCodepoint(p: Position, s: seq<Byte>, k: nat, i: nat)
    requires k < |DecodeAll(s)| && Boundary(s, k) <= i < Boundary(s, k + 1)
    ensures i <= |s| && PositionOf(p, s, i) == After(p, s, k).(offset := p.offset + i)
  {
    hide Decode;
    SplitAt(p, s, k);
    NextBoundary(p, s, k);
    PositionFrom(p, s, k, i);
  }

  /** At a boundary the table holds the fold. */
  lemma PositionOfBoundary(p: Position, s: seq<Byte>, k: nat)
    requires k <= |DecodeAll(s)|
    ensures PositionOf(p, s, Boundary(s, k)) == After(p, s, k)
  {
    hide Decode;
    PositionFrom(p, s, k, Boundary(s, k));
  }

  /** What one round of the table loop has to store. */
  lemma OneCodepoint(s: seq<Byte>, k: nat)
    requires k <= |DecodeAll(s)| && Boundary(s, k) < |s|
    ensures k < |DecodeAll(s)|
    ensures var d := Decode(s[Boundary(s, k)..]);
      && Boundary(s, k + 1) == Boundary(s, k) + d.width <= |s|
      && After(Start, s, k + 1) == Advance(After(Start, s, k), d)
      && PositionOf(Start, s, Boundary(s, k + 1)) == After(Start, s, k + 1)
      && forall i :: Boundary(s, k) <= i < Boundary(s, k) + d.width ==>
           PositionOf(Start, s, i) == After(Start, s, k).(offset := i)
  {
    assert Start.offset == 0;
    hide *;
    NextBoundary(Start, s, k);
    PositionOfBoundary(Start, s, k + 1);
    forall i | Boundary(s, k) <= i < Boundary(s, k + 1)
      ensures PositionOf(Start, s, i) == After(Start, s, k).(offset := i)
    {
      PositionsOfCodepoint(Start, s, k, i);
    }
  }

  // ---------------------------------------------------------------- the mapper

  class SourceRangeMapper {
    const text: seq<Byte>
    const positions: array<Position>
    var codepointToByte: seq<nat>

    ghost predicate Valid()
      reads this, positions
    {
      && positions.Length == |text| + 1
      && (forall i :: 0 <= i <= |text| ==> positions[i] == PositionOf(Start, text, i))
      && |codepointToByte| == |DecodeAll(text)| + 1
      && (forall k :: 0 <= k <= |DecodeAll(text)| ==> codepointToByte[k] == Boundary(text, k))
    }

    constructor (text: seq<Byte>)
      ensures this.text == text && Valid() && fresh(positions)
    {
      this.text := text;
      var table := new Position[|text| + 1](i => Start);
      var offsets := FillTables(text, table);
      positions, codepointToByte := table, offsets;
    }

    method PositionFromByteOffset(offset: nat) returns (p: Position)
      requires Valid()
      ensures p == PositionOf(Start, text, if offset < |text| then offset else |text|)
    {
      return positions[if offset < |text| then offset else |text|];
    }

    method ByteOffsetFromCodepointOffset(offset: nat) returns (r: nat)
      requires Valid()
      ensures var n := |DecodeAll(text)|; r == Boundary(text, if offset < n then offset else n)
    {
      var last := |codepointToByte| - 1;
      return codepointToByte[if offset < last then offset else last];
    }

    /** `codepointRange`: start and end position of a token given by code point offsets. */
    method CodepointRange(begin: nat, end: nat) returns (start: Position, finish: Position)
      requires Valid()
      ensures var n := |DecodeAll(text)|;
        var b := if begin < n then begin else n;
        var e := if end < n then end else n;
        && start == After(Start, text, b)
        && finish == After(Start, text, if b <= e then e else b)
    {
      var first := ByteOffsetFromCodepointOffset(begin);
      var last := ByteOffsetFromCodepointOffset(end);
      if last < first { last := first; }
      start := PositionFromByteOffset(first);
      finish := PositionFromByteOffset(last);
      ghost var n := |DecodeAll(text)|;
      ghost var b := if begin < n then begin else n;
      ghost var e := if end < n then end else n;
      PositionOfBoundary(Start, text, b);
      PositionOfBoundary(Start, text, e);
      if b <= e { BoundaryMonotone(text, b, e); } else { BoundaryMonotone(text, e, b); }
    }
  }

  /** The loop of the constructor. */
  method FillTables(text: seq<Byte>, positions: array<Position>) returns (codepointToByte: seq<nat>)
    requires positions.Length == |text| + 1
    modifies positions
    ensures forall i :: 0 <= i <= |text| ==> positions[i] == PositionOf(Start, text, i)
    ensures |codepointToByte| == |DecodeAll(text)| + 1
    ensures forall k :: 0 <= k <= |DecodeAll(text)| ==> codepointToByte[k] == Boundary(text, k)
  {
    hide Decode, DecodeAll, Boundary, After, PositionOf;
    codepointToByte := [0];
    var current := Start;
    var offset := 0;
    BeginsAtStart(text);
    positions[0] := Start;
    while offset < |text|
      invariant 1 <= |codepointToByte| <= |DecodeAll(text)| + 1
      invariant forall k :: 0 <= k < |codepointToByte| ==> codepointToByte[k] == Boundary(text, k)
      invariant offset == Boundary(text, |codepointToByte| - 1)
      invariant current == After(Start, text, |codepointToByte| - 1) && current.offset == offset
      invariant forall i :: 0 <= i <= offset ==> positions[i] == PositionOf(Start, text, i)
      decreases |text| - offset
    {
      OneCodepoint(text, |codepointToByte| - 1);
      current := current.(offset := offset);
      positions[offset] := current;
      var value := Decode(text[offset..]);
      var width := if value.width < |text| - offset then value.width else |text| - offset;
      FillInterior(positions, current, width);
      offset := offset + width;
      if value.value == 10 {
        current := Position(offset, current.line + 1, 0);
      } else {
        current := Position(offset, current.line, current.utf16Column + value.utf16Width);
      }
      positions[offset] := current;
      codepointToByte := codepointToByte + [offset];
    }
    BoundariesEnd(text, |codepointToByte| - 1);
  }

  /** The bytes inside a code point inherit its position. */
  method FillInterior(positions: array<Position>, current: Position, width: nat)
    requires 0 < width && current.offset + width <= positions.Length
    modifies positions
    ensures forall i :: 0 <= i < positions.Length ==>
      positions[i] == (if current.offset < i < current.offset + width then current.(offset := i) else old(positions[i]))
  {
    for index := 1 to width
      invariant forall i :: 0 <= i < positions.Length ==>
        positions[i] == (if current.offset < i < current.offset + index then current.(offset := i) else old(positions[i]))
    {
      positions[current.offset + index] := current.(offset := current.offset + index);
    }
  }

  lemma BeginsAtStart(s: seq<Byte>)
    ensures Boundary(s, 0) == 0 && After(Start, s, 0) == Start && PositionOf(Start, s, 0) == Start
  {
  }

  /** Only the last boundary lies at the end of the text. */
  lemma BoundariesEnd(s: seq<Byte>, k: nat)
    requires k <= |DecodeAll(s)| && Boundary(s, k) == |s|
    ensures k == |DecodeAll(s)|
  {
    if k < |DecodeAll(s)| { NextBoundary(Start, s, k); }
  }

  lemma {:induction false} BoundaryMonotone(s: seq<Byte>, j: nat, k: nat)
    requires j <= k <= |DecodeAll(s)|
    ensures Boundary(s, j) + (k - j) <= Boundary(s, k)
    decreases k - j
  {
    hide Decode, Boundary;
    if j < k {
      NextBoundary(Start, s, j);
      BoundaryMonotone(s, j + 1, k);
    }
  }

  // ---------------------------------------------------------------- tokens

  /** Decoding does not look past the code points it returns. */
  lemma DecodeIsLocal(s: seq<Byte>, n: nat)
    requires s != [] && Decode(s).width <= n <= |s|
    ensures Decode(s[..n]) == Decode(s)
  {
  }

  lemma SliceOfRest(s: seq<Byte>, i: nat, j: nat)
    requires i + j <= |s|
    ensures s[..i + j][i..] == s[i..][..j]
  {
  }

  lemma DecodeAllStep(s: seq<Byte>)
    requires s != []
    ensures DecodeAll(s) == [Decode(s).value] + DecodeAll(s[Decode(s).width..])
  {
  }

  lemma BoundaryStep(s: seq<Byte>, k: nat)
    requires 0 < k <= |DecodeAll(s)|
    ensures s != [] && k - 1 <= |DecodeAll(s[Decode(s).width..])|
    ensures Boundary(s, k) == Decode(s).width + Boundary(s[Decode(s).width..], k - 1)
  {
  }

  lemma BoundaryStart(s: seq<Byte>)
    ensures Boundary(s, 0) == 0 && DecodeAll([]) == []
  {
  }

  lemma {:induction false} PrefixDecodes(s: seq<Byte>, n: nat, k: nat)
    requires k <= n <= |DecodeAll(s)|
    ensures DecodeAll(s[..Boundary(s, n)]) == DecodeAll(s)[..n]
    ensures Boundary(s[..Boundary(s, n)], k) == Boundary(s, k)
    decreases |s|
  {
    hide *;
    BoundaryStart(s);
    var prefix := s[..Boundary(s, n)];
    BoundaryStart(prefix);
    if n > 0 {
      var d, rest := Decode(s), s[Decode(s).width..];
      BoundaryStep(s, n);
      DecodeIsLocal(s, Boundary(s, n));
      PrefixDecodes(rest, n - 1, if k > 0 then k - 1 else 0);
      SliceOfRest(s, d.width, Boundary(rest, n - 1));
      DecodeAllStep(s);
      DecodeAllStep(prefix);
      if k > 0 {
        BoundaryStep(s, k);
        BoundaryStep(prefix, k);
      }
    }
  }

  /** The bytes between two table entries decode to exactly the code points between the two
      offsets: token ranges map back to the right bytes, for every byte string. */
  lemma TokenBytes(s: seq<Byte>, begin: nat, end: nat)
    requires begin <= end <= |DecodeAll(s)|
    ensures Boundary(s, begin) <= Boundary(s, end)
    ensures DecodeAll(s[Boundary(s, begin)..Boundary(s, end)]) == DecodeAll(s)[begin..end]
    ensures end <= |LexedCodepoints(s)| && DecodeAll(s)[begin..end] == LexedCodepoints(s)[begin..end]
  {
    hide Decode, Boundary;
    BoundaryMonotone(s, begin, end);
    PrefixDecodes(s, end, begin);
    var prefix := s[..Boundary(s, end)];
    assert DecodeAll(prefix) == DecodeAll(s)[..end];
    SplitAt(Start, prefix, begin);
    assert prefix[Boundary(s, begin)..] == s[Boundary(s, begin)..Boundary(s, end)];
  }

  // ---------------------------------------------------------------- two other implementations

  /** One byte of `sourcePosition`, which never decodes. */
  function ByteStep(p: Position, b: Byte): Position {
    if b == NEWLINE then Position(p.offset + 1, p.line + 1, 0)
    else if Continuation(b) then p.(offset := p.offset + 1)
    else if b < 0xf0 then Position(p.offset + 1, p.line, p.utf16Column + 1)
    else if b < 0xf8 then Position(p.offset + 1, p.line, p.utf16Column + 2)
    else p.(offset := p.offset + 1)
  }

  function ByteFold(p: Position, s: seq<Byte>): Position
    decreases |s|
  {
    if s == [] then p else ByteFold(ByteStep(p, s[0]), s[1..])
  }

  /** `sourcePosition` of the compilation's own sources. */
  method SourcePosition(text: seq<Byte>, byteOffset: nat) returns (result: Position)
    ensures result == ByteFold(Start, text[..if byteOffset < |text| then byteOffset else |text|])
  {
    var offset := if byteOffset < |text| then byteOffset else |text|;
    var line, column := 0, 0;
    for index := 0 to offset
      invariant ByteFold(Start, text[..index]) == Position(index, line, column)
    {
      ByteFoldSnoc(Start, text, index);
      var value := text[index];
      if value == NEWLINE {
        line := line + 1;
        column := 0;
      } else if !Continuation(value) {
        if value < 0x80 || 0xc0 <= value < 0xe0 || 0xe0 <= value < 0xf0 { column := column + 1; }
        else if 0xf0 <= value < 0xf8 { column := column + 2; }
      }
    }
    return Position(offset, line, column);
  }

  lemma {:induction false} ByteFoldSnoc(p: Position, s: seq<Byte>, i: nat)
    requires i < |s|
    ensures ByteFold(p, s[..i + 1]) == ByteStep(ByteFold(p, s[..i]), s[i])
    decreases i
  {
    if i > 0 {
      ByteFoldSnoc(ByteStep(p, s[0]), s[1..], i - 1);
      assert s[..i + 1][1..] == s[1..][..i] && s[..i][1..] == s[1..][..i - 1];
    } else {
      assert s[..1][1..] == [];
    }
  }

  lemma {:induction false} ByteFoldConcat(p: Position, a: seq<Byte>, b: seq<Byte>)
    ensures ByteFold(p, a + b) == ByteFold(ByteFold(p, a), b)
    decreases |a|
  {
    if a == [] {
      assert a + b == b;
    } else {
      assert (a + b)[1..] == a[1..] + b;
      ByteFoldConcat(ByteStep(p, a[0]), a[1..], b);
    }
  }

  /** Over the bytes of one sound code point the byte fold is one decoded step. */
  lemma ByteFoldOfCodepoint(p: Position, s: seq<Byte>)
    requires Sound(s)
    ensures ByteFold(p, s[..Decode(s).width]) == Advance(p, Decode(s))
  {
    var c := s[..Decode(s).width];
    ByteFoldTails(ByteStep(p, c[0]), c[1..]);
  }

  lemma {:induction false} ByteFoldTails(p: Position, s: seq<Byte>)
    requires forall i :: 0 <= i < |s| ==> Continuation(s[i])
    ensures ByteFold(p, s) == p.(offset := p.offset + |s|)
    decreases |s|
  {
    if s != [] { ByteFoldTails(ByteStep(p, s[0]), s[1..]); }
  }

  /** An ill-formed byte that the byte fold counts as the mapper counts its replacement. */
  predicate CountsOnce(b: Byte) {
    0xc0 <= b < 0xf0
  }

  /** Every ill-formed byte counts once. */
  predicate FoldAligned(s: seq<Byte>)
    decreases |s|
  {
    s == [] || ((Sound(s) || CountsOnce(s[0])) && FoldAligned(s[Decode(s).width..]))
  }

  lemma {:induction false} SoundIsFoldAligned(s: seq<Byte>)
    requires AllSound(s)
    ensures FoldAligned(s)
    decreases |s|
  {
    hide Decode, Sound;
    if s != [] { SoundIsFoldAligned(s[Decode(s).width..]); }
  }

  lemma FoldStepExact(p: Position, s: seq<Byte>)
    requires s != []
    ensures ByteFold(p, s[..Decode(s).width]) == Advance(p, Decode(s)) <==> Sound(s) || CountsOnce(s[0])
  {
    if Sound(s) {
      ByteFoldOfCodepoint(p, s);
    } else {
      UnsoundIsInvalid(s);
      hide Decode, Sound;
      assert s[..1] == [s[0]] && [s[0]][1..] == [];
      assert ByteFold(p, [s[0]]) == ByteStep(p, s[0]);
    }
  }

  /** The byte fold over what precedes a boundary, one code point at a time. */
  lemma FoldToBoundary(p: Position, s: seq<Byte>, k: nat)
    requires 0 < k <= |DecodeAll(s)|
    ensures
      var d, rest := Decode(s), s[Decode(s).width..];
      && s != [] && k - 1 <= |DecodeAll(rest)|
      && ByteFold(p, s[..Boundary(s, k)]) == ByteFold(ByteFold(p, s[..d.width]), rest[..Boundary(rest, k - 1)])
  {
    hide *;
    BoundaryStep(s, k);
    var d, rest := Decode(s), s[Decode(s).width..];
    TakeTake(s, d.width, Boundary(rest, k - 1));
    ByteFoldConcat(p, s[..d.width], rest[..Boundary(rest, k - 1)]);
  }

  lemma TakeTake(s: seq<Byte>, i: nat, j: nat)
    requires i + j <= |s|
    ensures s[..i + j] == s[..i] + s[i..][..j]
  {
  }

  /** Where every ill-formed byte counts once, well-formed text included, the byte fold agrees
      with the mapper at every boundary. */
  lemma {:induction false} SourcePositionAgrees(p: Position, s: seq<Byte>, k: nat)
    requires FoldAligned(s) && k <= |DecodeAll(s)|
    ensures ByteFold(p, s[..Boundary(s, k)]) == After(p, s, k)
    decreases |s|
  {
    if k > 0 {
      hide Decode, Sound, Boundary, After, ByteFold, CountsOnce;
      FoldStepExact(p, s);
      FoldToBoundary(p, s, k);
      AfterStep(p, s, k);
      SourcePositionAgrees(Advance(p, Decode(s)), s[Decode(s).width..], k - 1);
    }
  }

  /** And elsewhere it does not: behind the first ill-formed byte that does not count once. */
  lemma {:induction false} SourcePositionParts(p: Position, s: seq<Byte>) returns (k: nat)
    requires !FoldAligned(s)
    ensures k <= |DecodeAll(s)| && ByteFold(p, s[..Boundary(s, k)]) != After(p, s, k)
    decreases |s|
  {
    hide Decode, Sound, Boundary, After, ByteFold, CountsOnce;
    var rest := s[Decode(s).width..];
    FoldStepExact(p, s);
    DecodeAllStep(s);
    if Sound(s) || CountsOnce(s[0]) {
      var j := SourcePositionParts(Advance(p, Decode(s)), rest);
      k := j + 1;
    } else {
      k := 1;
      AtStart(Advance(p, Decode(s)), rest);
      FoldNothing(ByteFold(p, s[..Decode(s).width]), rest);
    }
    FoldToBoundary(p, s, k);
    AfterStep(p, s, k);
  }

  lemma FoldNothing(p: Position, s: seq<Byte>)
    ensures ByteFold(p, s[..0]) == p
  {
  }

  /** The two implementations agree at all boundaries of a text exactly when every ill-formed
      byte of it counts once. */
  lemma SourcePositionExact(p: Position, s: seq<Byte>)
    ensures (forall k :: 0 <= k <= |DecodeAll(s)| ==> ByteFold(p, s[..Boundary(s, k)]) == After(p, s, k))
       <==> FoldAligned(s)
  {
    hide *;
    if FoldAligned(s) {
      forall k | 0 <= k <= |DecodeAll(s)| ensures ByteFold(p, s[..Boundary(s, k)]) == After(p, s, k) {
        SourcePositionAgrees(p, s, k);
      }
    } else {
      var k := SourcePositionParts(p, s);
    }
  }

  /** The width `utf8ByteOffset` reads off a lead byte. */
  function LeadWidth(b: Byte): nat {
    if 0xc0 <= b < 0xe0 then 2 else if 0xe0 <= b < 0xf0 then 3 else if 0xf0 <= b < 0xf8 then 4 else 1
  }

  function LeadOffset(s: seq<Byte>, k: nat): (r: nat)
    ensures r <= |s|
    decreases k
  {
    if k == 0 || s == [] then 0
    else if LeadWidth(s[0]) >= |s| then |s|
    else LeadWidth(s[0]) + LeadOffset(s[LeadWidth(s[0])..], k - 1)
  }

  /** `utf8ByteOffset` of the metamodel builder. */
  method Utf8ByteOffset(text: seq<Byte>, codepointOffset: nat) returns (byteOffset: nat)
    ensures byteOffset == LeadOffset(text, codepointOffset)
  {
    byteOffset := 0;
    var index := 0;
    while index < codepointOffset && byteOffset < |text|
      invariant index <= codepointOffset && byteOffset <= |text|
      invariant LeadOffset(text, codepointOffset) == byteOffset + LeadOffset(text[byteOffset..], codepointOffset - index)
    {
      var width := LeadWidth(text[byteOffset]);
      ghost var rest := text[byteOffset..];
      if byteOffset + width < |text| {
        assert rest[width..] == text[byteOffset + width..];
        byteOffset := byteOffset + width;
      } else {
        byteOffset := |text|;
      }
      index := index + 1;
    }
  }

  /** Every ill-formed byte is one whose lead width is 1, or the last byte. */
  predicate LeadAligned(s: seq<Byte>)
    decreases |s|
  {
    s == [] || ((Sound(s) || LeadWidth(s[0]) == 1 || |s| == 1) && LeadAligned(s[Decode(s).width..]))
  }

  lemma {:induction false} SoundIsLeadAligned(s: seq<Byte>)
    requires AllSound(s)
    ensures LeadAligned(s)
    decreases |s|
  {
    hide Decode, Sound;
    if s != [] { SoundIsLeadAligned(s[Decode(s).width..]); }
  }

  function Clamped(k: nat, n: nat): nat {
    if k < n then k else n
  }

  lemma LeadWidthExact(s: seq<Byte>)
    requires s != []
    ensures Clamped(LeadWidth(s[0]), |s|) == Decode(s).width <==> Sound(s) || LeadWidth(s[0]) == 1 || |s| == 1
  {
  }

  /** Where that holds, well-formed text included, `utf8ByteOffset` is the mapper's table,
      clamped to its last entry. */
  lemma {:induction false} Utf8ByteOffsetAgrees(s: seq<Byte>, k: nat)
    requires LeadAligned(s)
    ensures LeadOffset(s, k) == Boundary(s, Clamped(k, |DecodeAll(s)|))
    decreases |s|
  {
    if s != [] && k > 0 {
      LeadWidthExact(s);
      hide Decode, Sound, LeadWidth;
      DecodeAllStep(s);
      var rest := s[Decode(s).width..];
      Utf8ByteOffsetAgrees(rest, k - 1);
      if LeadWidth(s[0]) >= |s| { assert rest == []; }
    }
  }

  /** And elsewhere it is not: behind the first ill-formed byte that announces others. */
  lemma {:induction false} Utf8ByteOffsetParts(s: seq<Byte>) returns (k: nat)
    requires !LeadAligned(s)
    ensures LeadOffset(s, k) != Boundary(s, Clamped(k, |DecodeAll(s)|))
    decreases |s|
  {
    hide *;
    NotLeadAligned(s);
    LeadWidthExact(s);
    DecodeAllStep(s);
    var rest := s[Decode(s).width..];
    if Sound(s) || LeadWidth(s[0]) == 1 || |s| == 1 {
      var j := Utf8ByteOffsetParts(rest);
      k := j + 1;
      ClampedStep(j, |DecodeAll(rest)|);
      BoundaryStep(s, Clamped(k, |DecodeAll(s)|));
      LeadOffsetStep(s, k);
    } else {
      k := 1;
      ClampedStep(0, |DecodeAll(rest)|);
      BoundaryStep(s, 1);
      BoundaryStart(rest);
      LeadOffsetStep(s, 1);
    }
  }

  lemma ClampedStep(k: nat, n: nat)
    ensures Clamped(k + 1, n + 1) == Clamped(k, n) + 1 && Clamped(k, n) <= n && Clamped(0, n) == 0
  {
  }

  lemma NotLeadAligned(s: seq<Byte>)
    requires !LeadAligned(s)
    ensures s != [] && (Sound(s) || LeadWidth(s[0]) == 1 || |s| == 1 ==> !LeadAligned(s[Decode(s).width..]))
  {
    hide Decode, Sound, LeadWidth;
  }

  lemma LeadOffsetStep(s: seq<Byte>, k: nat)
    requires s != [] && k > 0
    ensures
      var width := Clamped(LeadWidth(s[0]), |s|);
      LeadOffset(s, k) == width + LeadOffset(s[width..], k - 1)
    ensures k == 1 ==> LeadOffset(s, k) == Clamped(LeadWidth(s[0]), |s|)
  {
    hide LeadWidth;
  }

  /** The two implementations agree for all code point offsets of a text exactly when every
      ill-formed byte of it is a continuation byte, at least 0xf8, or the last byte. */
  lemma Utf8ByteOffsetExact(s: seq<Byte>)
    ensures (forall k: nat :: LeadOffset(s, k) == Boundary(s, Clamped(k, |DecodeAll(s)|))) <==> LeadAligned(s)
  {
    hide LeadOffset, Boundary, DecodeAll, LeadAligned;
    if LeadAligned(s) {
      forall k: nat ensures LeadOffset(s, k) == Boundary(s, Clamped(k, |DecodeAll(s)|)) {
        Utf8ByteOffsetAgrees(s, k);
      }
    } else {
      var k := Utf8ByteOffsetParts(s);
    }
  }

  /** On a lone continuation byte the mapper counts a replacement character that the byte fold
      does not. */
  lemma IllFormedDisagrees()
    ensures var s: seq<Byte> := [0x80];
      Boundary(s, 1) == 1 && After(Start, s, 1).utf16Column == 1 && ByteFold(Start, s[..1]).utf16Column == 0
  {
    var s: seq<Byte> := [0x80];
    assert s[..1] == s && s[1..] == [];
  }

  /** On a lead byte without its continuation `utf8ByteOffset` skips the next character. */
  lemma IncompleteLeadSkips()
    ensures var s: seq<Byte> := [0xc3, 0x41];
      Boundary(s, 1) == 1 && LeadOffset(s, 1) == 2
  {
    var s: seq<Byte> := [0xc3, 0x41];
    assert s[1..] == [0x41] && [0x41 as Byte][1..] == [];
  }
}
