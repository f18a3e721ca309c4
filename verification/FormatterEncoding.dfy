/** What the formatter takes for UTF-8, against the byte grammar of section 4 of RFC 3629. */
module FormatterEncoding {
  import opened Formatter
  import opened Utf8

  /** A string whose characters are bytes. */
  predicate IsBytes(text: string) {
    forall i :: 0 <= i < |text| ==> text[i] as int < 256
  }

  function AsBytes(text: string): (s: seq<Byte>)
    requires IsBytes(text)
  {
    seq(|text|, i requires 0 <= i < |text| => text[i] as int)
  }

  /** Lead byte and continuation bytes that denote no scalar value or denote it too long: an
      overlong form, a surrogate, or a value above 0x10ffff. */
  predicate LooseChar(c: seq<Byte>) {
    || (|c| == 2 && 0xc0 <= c[0] < 0xe0 && Tail(c[1]) && Two(c[0], c[1]) < 0x80)
    || (|c| == 3 && 0xe0 <= c[0] < 0xf0 && Tail(c[1]) && Tail(c[2])
        && (Three(c[0], c[1], c[2]) < 0x800 || 0xd800 <= Three(c[0], c[1], c[2]) <= 0xdfff))
    || (|c| == 4 && 0xf0 <= c[0] < 0xf8 && Tail(c[1]) && Tail(c[2]) && Tail(c[3])
        && (Four(c[0], c[1], c[2], c[3]) < 0x10000 || Four(c[0], c[1], c[2], c[3]) > 0x10ffff))
  }

  predicate AnyChar(c: seq<Byte>) {
    Utf8Char(c) || LooseChar(c)
  }

  /** A concatenation of well-formed and loose characters. */
  ghost predicate Accepted(s: seq<Byte>)
    decreases |s|
  {
    s == [] || exists k :: 0 < k <= |s| && AnyChar(s[..k]) && Accepted(s[k..])
  }

  function Width(lead: Byte): nat {
    if lead < 0x80 then 1
    else if 0xc0 <= lead < 0xe0 then 2
    else if 0xe0 <= lead < 0xf0 then 3
    else if 0xf0 <= lead < 0xf8 then 4
    else 0
  }

  /** Together the two kinds are every lead byte with its continuation bytes. */
  lemma AnyCharIsLeadAndTails(c: seq<Byte>)
    requires c != []
    ensures AnyChar(c) <==> |c| == Width(c[0]) && forall j :: 1 <= j < |c| ==> Tail(c[j])
  {
    if |c| == Width(c[0]) && forall j :: 1 <= j < |c| ==> Tail(c[j]) {
      assert |c| >= 2 ==> Tail(c[1]);
      assert |c| >= 3 ==> Tail(c[2]);
      assert |c| >= 4 ==> Tail(c[3]);
    }
  }

  lemma AcceptedStep(s: seq<Byte>)
    requires s != []
    ensures
      var k := Width(s[0]);
      Accepted(s) <==> 0 < k <= |s| && (forall j :: 1 <= j < k ==> Tail(s[j])) && Accepted(s[k..])
  {
    hide AnyChar, Width, Tail;
    var w := Width(s[0]);
    forall k | 0 < k <= |s| ensures AnyChar(s[..k]) <==> k == w && forall j :: 1 <= j < k ==> Tail(s[j]) {
      AnyCharIsLeadAndTails(s[..k]);
      assert forall j :: 0 <= j < k ==> s[..k][j] == s[j];
    }
    if 0 < w <= |s| && (forall j :: 1 <= j < w ==> Tail(s[j])) && Accepted(s[w..]) {
      assert AnyChar(s[..w]);
    }
  }

  lemma BytesOfRest(text: string, k: nat)
    requires IsBytes(text) && k <= |text|
    ensures IsBytes(text[k..]) && AsBytes(text[k..]) == AsBytes(text)[k..]
  {
  }

  /** The check accepts exactly the concatenations of well-formed and loose characters. */
  lemma {:induction false} ValidExactly(text: string)
    requires IsBytes(text)
    ensures ValidUtf8(text) <==> Accepted(AsBytes(text))
    decreases |text|
  {
    hide ValidUtf8, Accepted;
    if text == "" {
      ValidEmpty();
      AcceptedNothing();
      assert AsBytes(text) == [];
    } else {
      var s, count := AsBytes(text), Followers(text[0]);
      ValidStep(text);
      AcceptedStep(s);
      assert Width(s[0]) == count + 1;
      if 0 <= count < |text| {
        BytesOfRest(text, count + 1);
        ValidExactly(text[count + 1..]);
      }
      assert forall j :: 1 <= j <= count && j < |text| ==> (IsTail(text[j]) <==> Tail(s[j]));
    }
  }

  lemma AcceptedNothing()
    ensures Accepted([])
  {
  }

  /** Well-formed text in particular: what the formatter converts is never UTF-8. */
  lemma {:induction false} WellFormedIsAccepted(s: seq<Byte>)
    requires WellFormed(s)
    ensures Accepted(s)
    decreases |s|
  {
    hide Utf8Char, LooseChar;
    if s != [] {
      var k :| 0 < k <= |s| && Utf8Char(s[..k]) && WellFormed(s[k..]);
      WellFormedIsAccepted(s[k..]);
      assert AnyChar(s[..k]);
    }
  }

  lemma WellFormedIsValid(text: string)
    requires IsBytes(text) && WellFormed(AsBytes(text))
    ensures ValidUtf8(text) && Source(text) == text
  {
    hide ValidUtf8, Accepted, WellFormed;
    WellFormedIsAccepted(AsBytes(text));
    ValidExactly(text);
  }

  /** The shortest text that is accepted and ill-formed: an overlong zero. */
  lemma OverlongAccepted()
    ensures var s: seq<Byte> := [0xc0, 0x80]; Accepted(s) && !WellFormed(s)
  {
    var s: seq<Byte> := [0xc0, 0x80];
    assert s[2..] == [] && s[..2] == s;
    AcceptedStep(s);
    AcceptedNothing();
    WellFormedIsSound(s);
    assert !Sound(s);
  }

  // ---------------------------------------------------------------- conversion

  function Codes(text: string): seq<nat> {
    seq(|text|, i requires 0 <= i < |text| => text[i] as int)
  }

  lemma {:induction false} EncodeSnoc(vs: seq<nat>, v: nat)
    requires (forall i :: 0 <= i < |vs| ==> Scalar(vs[i])) && Scalar(v)
    ensures EncodeAll(vs + [v]) == EncodeAll(vs) + Encode(v)
  {
    hide Encode;
    if vs == [] {
      assert vs + [v] == [v] && [v][1..] == [] && EncodeAll([v]) == Encode(v) + EncodeAll([]);
    } else {
      assert (vs + [v])[1..] == vs[1..] + [v];
      EncodeSnoc(vs[1..], v);
    }
  }

  lemma Latin1ByteEncodes(b: char)
    requires b as int < 256
    ensures IsBytes(Latin1Byte(b)) && AsBytes(Latin1Byte(b)) == Encode(b as int)
  {
  }

  lemma BytesOfConcat(a: string, b: string)
    requires IsBytes(a) && IsBytes(b)
    ensures IsBytes(a + b) && AsBytes(a + b) == AsBytes(a) + AsBytes(b)
  {
  }

  /** The conversion reads each byte as the code point of that number, and writes UTF-8. */
  lemma {:induction false} ConversionEncodes(text: string)
    requires IsBytes(text)
    ensures IsBytes(Latin1ToUtf8(text)) && AsBytes(Latin1ToUtf8(text)) == EncodeAll(Codes(text))
    decreases |text|
  {
    if text != "" {
      var init, last := text[..|text| - 1], text[|text| - 1];
      ConversionEncodes(init);
      Latin1ByteEncodes(last);
      hide Latin1Byte, Encode, EncodeAll;
      BytesOfConcat(Latin1ToUtf8(init), Latin1Byte(last));
      EncodeSnoc(Codes(init), last as int);
      assert Codes(text) == Codes(init) + [last as int];
    }
  }

  /** So the converted text decodes to the bytes of the given one. */
  lemma ConversionDecodes(text: string)
    requires IsBytes(text)
    ensures IsBytes(Latin1ToUtf8(text)) && DecodeAll(AsBytes(Latin1ToUtf8(text))) == Codes(text)
  {
    hide Latin1ToUtf8, DecodeAll, EncodeAll;
    ConversionEncodes(text);
    DecodeEncodeAll(Codes(text));
  }
}
