/** Decoding of possibly ill-formed UTF-8 as `SourceRangeMapper` does it, against the byte
    grammar of section 4 of RFC 3629. Mask tests such as (b & 0xe0) == 0xc0 are written as
    the ranges they select. */
module Utf8 {

  type Byte = b: int | 0 <= b < 256

  const REPLACEMENT := 0xfffd
  const NEWLINE: Byte := 10

  datatype Decoded = Decoded(width: nat, utf16Width: nat, value: nat)

  const Invalid := Decoded(1, 1, REPLACEMENT)

  predicate Continuation(b: Byte) {
    0x80 <= b < 0xc0
  }

  // The payload bits of two, three and four bytes; subtracting the marker bits is masking.

  function Two(a: int, b: int): int {
    (a - 0xc0) * 64 + (b - 0x80)
  }

  function Three(a: int, b: int, c: int): int {
    (a - 0xe0) * 4096 + (b - 0x80) * 64 + (c - 0x80)
  }

  function Four(a: int, b: int, c: int, d: int): int {
    (a - 0xf0) * 262144 + (b - 0x80) * 4096 + (c - 0x80) * 64 + (d - 0x80)
  }

  /** `decode` at the start of the remaining bytes. */
  function Decode(s: seq<Byte>): (d: Decoded)
    ensures 1 <= d.width <= 4 && (s != [] ==> d.width <= |s|)
  {
    if s == [] then Invalid
    else if s[0] < 0x80 then Decoded(1, 1, s[0])
    else if 0xc0 <= s[0] < 0xe0 && |s| >= 2 && Continuation(s[1]) then
      var value := Two(s[0], s[1]);
      if value >= 0x80 then Decoded(2, 1, value) else Invalid
    else if 0xe0 <= s[0] < 0xf0 && |s| >= 3 && Continuation(s[1]) && Continuation(s[2]) then
      var value := Three(s[0], s[1], s[2]);
      if value >= 0x800 && !(0xd800 <= value <= 0xdfff) then Decoded(3, 1, value) else Invalid
    else if 0xf0 <= s[0] < 0xf8 && |s| >= 4 && Continuation(s[1]) && Continuation(s[2]) && Continuation(s[3]) then
      var value := Four(s[0], s[1], s[2], s[3]);
      if 0x10000 <= value <= 0x10ffff then Decoded(4, 2, value) else Invalid
    else Invalid
  }

  /** The bytes at the start are a code point, not a byte that had to be replaced. */
  predicate Sound(s: seq<Byte>) {
    s != [] && (Decode(s).width > 1 || s[0] < 0x80)
  }

  // ---------------------------------------------------------------- RFC 3629

  predicate Tail(b: Byte) {
    0x80 <= b <= 0xbf
  }

  /** UTF8-char of section 4 of RFC 3629. */
  predicate Utf8Char(s: seq<Byte>) {
    || (|s| == 1 && s[0] <= 0x7f)
    || (|s| == 2 && 0xc2 <= s[0] <= 0xdf && Tail(s[1]))
    || (|s| == 3 && Tail(s[2]) && (
          || (s[0] == 0xe0 && 0xa0 <= s[1] <= 0xbf)
          || (0xe1 <= s[0] <= 0xec && Tail(s[1]))
          || (s[0] == 0xed && 0x80 <= s[1] <= 0x9f)
          || (0xee <= s[0] <= 0xef && Tail(s[1]))))
    || (|s| == 4 && Tail(s[2]) && Tail(s[3]) && (
          || (s[0] == 0xf0 && 0x90 <= s[1] <= 0xbf)
          || (0xf1 <= s[0] <= 0xf3 && Tail(s[1]))
          || (s[0] == 0xf4 && 0x80 <= s[1] <= 0x8f)))
  }

  /** UTF8-octets: a concatenation of UTF8-char. */
  ghost predicate WellFormed(s: seq<Byte>)
    decreases |s|
  {
    s == [] || exists k :: 0 < k <= |s| && Utf8Char(s[..k]) && WellFormed(s[k..])
  }

  /** Unicode scalar values. */
  predicate Scalar(v: nat) {
    v < 0xd800 || 0xe000 <= v <= 0x10ffff
  }

  /** The encoding of section 3 of RFC 3629. */
  function Encode(v: nat): (r: seq<Byte>)
    requires Scalar(v)
    ensures 1 <= |r| <= 4
  {
    if v < 0x80 then [v]
    else if v < 0x800 then [0xc0 + v / 64, 0x80 + v % 64]
    else if v < 0x10000 then [0xe0 + v / 4096, 0x80 + v / 64 % 64, 0x80 + v % 64]
    else [0xf0 + v / 262144, 0x80 + v / 4096 % 64, 0x80 + v / 64 % 64, 0x80 + v % 64]
  }

  lemma EncodeIsUtf8Char(v: nat)
    requires Scalar(v)
    ensures Utf8Char(Encode(v))
  {
  }

  lemma PayloadDigits(a: int, b: int, c: int, d: int)
    requires 0x80 <= b < 0xc0 && 0x80 <= c < 0xc0 && 0x80 <= d < 0xc0
    ensures Two(a, b) / 64 == a - 0xc0 && Two(a, b) % 64 == b - 0x80
    ensures Three(a, b, c) / 4096 == a - 0xe0 && Three(a, b, c) / 64 % 64 == b - 0x80 && Three(a, b, c) % 64 == c - 0x80
    ensures Four(a, b, c, d) / 262144 == a - 0xf0 && Four(a, b, c, d) / 4096 % 64 == b - 0x80
    ensures Four(a, b, c, d) / 64 % 64 == c - 0x80 && Four(a, b, c, d) % 64 == d - 0x80
  {
    Quotient(Two(a, b), a - 0xc0, b - 0x80);
    Quotient(Three(a, b, c), (a - 0xe0) * 64 + (b - 0x80), c - 0x80);
    Quotient((a - 0xe0) * 64 + (b - 0x80), a - 0xe0, b - 0x80);
    Quotient(Four(a, b, c, d), ((a - 0xf0) * 64 + (b - 0x80)) * 64 + (c - 0x80), d - 0x80);
    Quotient(((a - 0xf0) * 64 + (b - 0x80)) * 64 + (c - 0x80), (a - 0xf0) * 64 + (b - 0x80), c - 0x80);
    Quotient((a - 0xf0) * 64 + (b - 0x80), a - 0xf0, b - 0x80);
  }

  lemma Quotient(n: int, q: int, r: int)
    requires n == q * 64 + r && 0 <= r < 64
    ensures n / 64 == q && n % 64 == r
  {
  }

  lemma PayloadOfEncoding(v: nat)
    ensures Two(0xc0 + v / 64, 0x80 + v % 64) == v
    ensures v < 0x10000 ==> Three(0xe0 + v / 4096, 0x80 + v / 64 % 64, 0x80 + v % 64) == v
    ensures Four(0xf0 + v / 262144, 0x80 + v / 4096 % 64, 0x80 + v / 64 % 64, 0x80 + v % 64) == v
  {
    assert v / 64 / 64 == v / 4096 && v / 64 / 64 / 64 == v / 262144;
  }

  /** Decoding stops after the encoding of a scalar value and returns it. */
  lemma DecodeEncode(v: nat, rest: seq<Byte>)
    requires Scalar(v)
    ensures Decode(Encode(v) + rest) == Decoded(|Encode(v)|, if v < 0x10000 then 1 else 2, v)
    ensures Sound(Encode(v) + rest)
  {
    var s := Encode(v) + rest;
    assert forall i :: 0 <= i < |Encode(v)| ==> s[i] == Encode(v)[i];
    PayloadOfEncoding(v);
    hide Two, Three, Four;
  }

  lemma TwoIsEncoding(a: Byte, b: Byte)
    requires 0xc0 <= a < 0xe0 && Continuation(b) && Two(a, b) >= 0x80
    ensures Two(a, b) < 0x800 && Encode(Two(a, b)) == [a, b]
  {
    PayloadDigits(a, b, 0x80, 0x80);
  }

  lemma ThreeIsEncoding(a: Byte, b: Byte, c: Byte)
    requires 0xe0 <= a < 0xf0 && Continuation(b) && Continuation(c) && Three(a, b, c) >= 0x800
    requires !(0xd800 <= Three(a, b, c) <= 0xdfff)
    ensures Three(a, b, c) < 0x10000 && Encode(Three(a, b, c)) == [a, b, c]
  {
    PayloadDigits(a, b, c, 0x80);
  }

  lemma FourIsEncoding(a: Byte, b: Byte, c: Byte, d: Byte)
    requires 0xf0 <= a < 0xf8 && Continuation(b) && Continuation(c) && Continuation(d)
    requires 0x10000 <= Four(a, b, c, d) <= 0x10ffff
    ensures Encode(Four(a, b, c, d)) == [a, b, c, d]
  {
    PayloadDigits(a, b, c, d);
  }

  lemma SoundIsEncoding(s: seq<Byte>)
    requires Sound(s)
    ensures Scalar(Decode(s).value) && s[..Decode(s).width] == Encode(Decode(s).value)
    ensures Decode(s).utf16Width == if Decode(s).value < 0x10000 then 1 else 2
  {
    var d := Decode(s);
    if d.width == 1 { return; }
    hide Two, Three, Four, Continuation, Encode;
    if d.width == 2 { TwoIsEncoding(s[0], s[1]); }
    else if d.width == 3 { ThreeIsEncoding(s[0], s[1], s[2]); }
    else { FourIsEncoding(s[0], s[1], s[2], s[3]); }
  }

  lemma UnsoundIsInvalid(s: seq<Byte>)
    requires s != [] && !Sound(s)
    ensures Decode(s) == Invalid
    ensures forall k :: 0 < k <= |s| ==> !Utf8Char(s[..k])
  {
    forall k | 0 < k <= |s| ensures !Utf8Char(s[..k]) {
      var p := s[..k];
      assert forall i :: 0 <= i < k ==> p[i] == s[i];
    }
  }

  /** What is decoded is a scalar value; sound bytes are exactly its encoding, and a code
      point is sound exactly when the grammar accepts a prefix. */
  lemma DecodeExact(s: seq<Byte>)
    requires s != []
    ensures Scalar(Decode(s).value)
    ensures Decode(s).utf16Width == if Decode(s).value < 0x10000 then 1 else 2
    ensures Sound(s) ==> s[..Decode(s).width] == Encode(Decode(s).value) && Utf8Char(s[..Decode(s).width])
    ensures !Sound(s) ==> Decode(s) == Invalid && forall k :: 0 < k <= |s| ==> !Utf8Char(s[..k])
  {
    hide Two, Three, Four;
    if Sound(s) {
      SoundIsEncoding(s);
      EncodeIsUtf8Char(Decode(s).value);
    } else {
      UnsoundIsInvalid(s);
    }
  }

  // ---------------------------------------------------------------- whole texts

  function DecodeAll(s: seq<Byte>): (r: seq<nat>)
    ensures |r| <= |s| && (s != [] ==> r != [])
    decreases |s|
  {
    if s == [] then [] else [Decode(s).value] + DecodeAll(s[Decode(s).width..])
  }

  function EncodeAll(vs: seq<nat>): seq<Byte>
    requires forall i :: 0 <= i < |vs| ==> Scalar(vs[i])
  {
    if vs == [] then [] else Encode(vs[0]) + EncodeAll(vs[1..])
  }

  /** Every code point of the text is sound. */
  predicate AllSound(s: seq<Byte>)
    decreases |s|
  {
    s == [] || (Sound(s) && AllSound(s[Decode(s).width..]))
  }

  lemma {:induction false} DecodeAllScalar(s: seq<Byte>)
    ensures forall i :: 0 <= i < |DecodeAll(s)| ==> Scalar(DecodeAll(s)[i])
    decreases |s|
  {
    if s != [] {
      DecodeExact(s);
      DecodeAllScalar(s[Decode(s).width..]);
    }
  }

  lemma {:induction false} DecodeEncodeAll(vs: seq<nat>)
    requires forall i :: 0 <= i < |vs| ==> Scalar(vs[i])
    ensures DecodeAll(EncodeAll(vs)) == vs && WellFormed(EncodeAll(vs)) && AllSound(EncodeAll(vs))
  {
    if vs != [] {
      hide Decode, Encode, Utf8Char, Scalar;
      var head, tail := Encode(vs[0]), EncodeAll(vs[1..]);
      DecodeEncode(vs[0], tail);
      DecodeEncodeAll(vs[1..]);
      EncodeIsUtf8Char(vs[0]);
      assert (head + tail)[..|head|] == head && (head + tail)[|head|..] == tail;
    }
  }

  /** The grammar accepts a text exactly when no byte has to be replaced. */
  lemma {:induction false} WellFormedIsSound(s: seq<Byte>)
    ensures WellFormed(s) <==> AllSound(s)
    decreases |s|
  {
    if s != [] {
      hide Decode, Encode, Utf8Char, Scalar;
      DecodeExact(s);
      if WellFormed(s) {
        var k :| 0 < k <= |s| && Utf8Char(s[..k]) && WellFormed(s[k..]);
        assert Sound(s);
        PrefixWidth(s, k);
        WellFormedIsSound(s[k..]);
      } else if Sound(s) {
        WellFormedIsSound(s[Decode(s).width..]);
      }
    }
  }

  /** A UTF8-char prefix is as wide as the decoder says. */
  lemma PrefixWidth(s: seq<Byte>, k: nat)
    requires 0 < k <= |s| && Utf8Char(s[..k])
    ensures Decode(s).width == k
  {
    assert forall i :: 0 <= i < k ==> s[..k][i] == s[i];
  }

  // ---------------------------------------------------------------- the lexer's text

  /** The bytes of each code point, U+FFFD for each byte that is not part of one. */
  function NormalizedBody(s: seq<Byte>): seq<Byte>
    decreases |s|
  {
    if s == [] then []
    else (if Sound(s) then s[..Decode(s).width] else [0xef, 0xbf, 0xbd]) + NormalizedBody(s[Decode(s).width..])
  }

  function WithFinalNewline(s: seq<Byte>): seq<Byte> {
    if s != [] && s[|s| - 1] != NEWLINE then s + [NEWLINE] else s
  }

  /** `normalizedUtf8` */
  function Normalized(s: seq<Byte>): seq<Byte> {
    WithFinalNewline(NormalizedBody(s))
  }

  lemma NormalizedStep(s: seq<Byte>)
    requires s != []
    ensures NormalizedBody(s) == (if Sound(s) then s[..Decode(s).width] else [0xef, 0xbf, 0xbd]) + NormalizedBody(s[Decode(s).width..])
  {
    hide Decode;
  }

  lemma NormalizedEmpty()
    ensures NormalizedBody([]) == []
  {
  }

  method ComputeNormalized(text: seq<Byte>) returns (normalized: seq<Byte>)
    ensures normalized == Normalized(text)
  {
    hide Decode, NormalizedBody;
    NormalizedEmpty();
    normalized := [];
    var offset := 0;
    while offset < |text|
      invariant offset <= |text|
      invariant NormalizedBody(text) == normalized + NormalizedBody(text[offset..])
    {
      var rest := text[offset..];
      var value := Decode(rest);
      var invalid := value.width == 1 && text[offset] >= 0x80;
      var piece := if invalid then [0xef, 0xbf, 0xbd] else rest[..value.width];
      assert rest[value.width..] == text[offset + value.width..];
      ghost var tail := NormalizedBody(text[offset + value.width..]);
      NormalizedStep(rest);
      assert normalized + (piece + tail) == (normalized + piece) + tail;
      normalized := normalized + piece;
      offset := offset + value.width;
    }
    assert text[offset..] == [] && normalized + [] == normalized;
    if normalized != [] && normalized[|normalized| - 1] != NEWLINE {
      normalized := normalized + [NEWLINE];
    }
  }

  lemma {:induction false} BodyIsEncoding(s: seq<Byte>)
    ensures forall i :: 0 <= i < |DecodeAll(s)| ==> Scalar(DecodeAll(s)[i])
    ensures NormalizedBody(s) == EncodeAll(DecodeAll(s))
    decreases |s|
  {
    DecodeAllScalar(s);
    if s != [] {
      DecodeExact(s);
      BodyIsEncoding(s[Decode(s).width..]);
      assert Encode(REPLACEMENT) == [0xef, 0xbf, 0xbd];
      hide Decode, Encode, Scalar;
      assert DecodeAll(s)[1..] == DecodeAll(s[Decode(s).width..]);
    }
  }

  lemma {:induction false} EncodeAllAppend(vs: seq<nat>, v: nat)
    requires forall i :: 0 <= i < |vs| ==> Scalar(vs[i])
    requires Scalar(v)
    ensures forall i :: 0 <= i < |vs + [v]| ==> Scalar((vs + [v])[i])
    ensures EncodeAll(vs + [v]) == EncodeAll(vs) + Encode(v)
  {
    hide Encode, Scalar;
    if vs == [] {
      assert vs + [v] == [v] && [v][1..] == [];
    } else {
      EncodeAllAppend(vs[1..], v);
      assert (vs + [v])[1..] == vs[1..] + [v];
      assert Encode(vs[0]) + (EncodeAll(vs[1..]) + Encode(v)) == (Encode(vs[0]) + EncodeAll(vs[1..])) + Encode(v);
    }
  }

  /** Code points of the text the lexer sees: those of the source and one optional newline. */
  function LexedCodepoints(s: seq<Byte>): seq<nat> {
    var vs := DecodeAll(s);
    if vs != [] && vs[|vs| - 1] != 10 then vs + [10] else vs
  }

  lemma LastByte(vs: seq<nat>)
    requires vs != [] && forall i :: 0 <= i < |vs| ==> Scalar(vs[i])
    ensures EncodeAll(vs) != []
    ensures EncodeAll(vs)[|EncodeAll(vs)| - 1] == NEWLINE <==> vs[|vs| - 1] == 10
  {
    var butLast, last := vs[..|vs| - 1], vs[|vs| - 1];
    assert vs == butLast + [last];
    EncodeAllAppend(butLast, last);
    assert EncodeAll(vs)[|EncodeAll(vs)| - 1] == Encode(last)[|Encode(last)| - 1];
  }

  /** The normalised text is well-formed by RFC 3629 for every byte string, and its code
      points are those decoded from the source, up to the optional final newline. */
  lemma NormalizedAligns(s: seq<Byte>)
    ensures WellFormed(Normalized(s))
    ensures DecodeAll(Normalized(s)) == LexedCodepoints(s)
  {
    hide Decode, Encode, Utf8Char;
    BodyIsEncoding(s);
    var vs := DecodeAll(s);
    DecodeEncodeAll(vs);
    if vs != [] {
      LastByte(vs);
      EncodeAllAppend(vs, 10);
      assert Encode(10) == [NEWLINE] by { assert Scalar(10); EncodeNewline(); }
      DecodeEncodeAll(vs + [10]);
    }
  }

  lemma EncodeNewline()
    ensures Scalar(10) && Encode(10) == [NEWLINE]
  {
  }

  /** On well-formed text only the final newline is ever added. */
  lemma {:induction false} NormalizedOfWellFormed(s: seq<Byte>)
    requires AllSound(s)
    ensures NormalizedBody(s) == s
    decreases |s|
  {
    if s != [] {
      NormalizedOfWellFormed(s[Decode(s).width..]);
      assert s == s[..Decode(s).width] + s[Decode(s).width..];
    }
  }
}
