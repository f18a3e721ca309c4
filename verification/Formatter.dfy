/** The line formatter, with syntax validation off. A byte string is a `string`, one
    character per byte. */
module Formatter {
  import opened Bytes

  // ---------------------------------------------------------------- characters and lines

  predicate IsAlnum(c: char) {
    '0' <= c <= '9' || 'A' <= c <= 'Z' || 'a' <= c <= 'z'
  }

  function TrimLeft(s: string): (r: string)
    ensures |r| <= |s|
  {
    if s != "" && IsSpace(s[0]) then TrimLeft(s[1..]) else s
  }

  function TrimRight(s: string): (r: string)
    ensures |r| <= |s|
  {
    if s != "" && IsSpace(s[|s| - 1]) then TrimRight(s[..|s| - 1]) else s
  }

  function Trim(s: string): string {
    TrimRight(TrimLeft(s))
  }

  lemma TrimRightStep(value: string, first: nat, last: nat)
    requires first < last <= |value| && IsSpace(value[last - 1])
    ensures TrimRight(value[first..last]) == TrimRight(value[first..last - 1])
  {
    var s := value[first..last];
    assert s[|s| - 1] == value[last - 1] && s[..|s| - 1] == value[first..last - 1];
  }

  method TrimLoop(value: string) returns (r: string)
    ensures r == Trim(value)
  {
    var first := 0;
    while first < |value| && IsSpace(value[first])
      invariant first <= |value| && TrimLeft(value) == TrimLeft(value[first..])
    {
      assert value[first..][1..] == value[first + 1..];
      first := first + 1;
    }
    var last := |value|;
    assert value[first..last] == value[first..];
    while last > first && IsSpace(value[last - 1])
      invariant first <= last <= |value| && Trim(value) == TrimRight(value[first..last])
    {
      TrimRightStep(value, first, last);
      last := last - 1;
    }
    r := value[first..last];
  }

  predicate StartsWord(line: string, word: string) {
    word <= line && (|line| == |word| || !IsAlnum(line[|word|]))
  }

  predicate OccursAt(s: string, needle: string, i: nat) {
    i + |needle| <= |s| && s[i..i + |needle|] == needle
  }

  predicate Contains(s: string, needle: string) {
    exists i :: 0 <= i <= |s| && OccursAt(s, needle, i)
  }

  /** The first occurrence of c, or the length. */
  function IndexOf(s: string, c: char): (i: nat)
    ensures i <= |s|
    ensures forall k :: 0 <= k < i ==> s[k] != c
    ensures i < |s| ==> s[i] == c
  {
    if s == "" || s[0] == c then 0 else 1 + IndexOf(s[1..], c)
  }

  const BLOCK_WORDS := [
    "MODEL", "TYPE MODEL", "REFSYSTEM MODEL", "SYMBOLOGY MODEL", "TOPIC", "VIEW TOPIC",
    "CLASS", "STRUCTURE", "ASSOCIATION", "VIEW", "GRAPHIC", "CONSTRAINTS OF"]

  predicate Declares(line: string) {
    exists i :: 0 <= i < |BLOCK_WORDS| &&
      (StartsWord(line, BLOCK_WORDS[i]) || Contains(line, " " + BLOCK_WORDS[i] + " "))
  }

  predicate Ends(line: string, c: char) {
    line != "" && line[|line| - 1] == c
  }

  predicate OpensNamedBlock(line: string) {
    Declares(line) &&
      ((StartsWord(line, "VIEW") && !Ends(line, ';') && '=' !in line) || Ends(line, '='))
  }

  predicate IsMeta(line: string) {
    "!!@" <= line
  }

  /** Spacing of a meta attribute line; other lines are kept. */
  function Canonical(line: string): string {
    if !IsMeta(line) then line
    else
      var value := Trim(line[3..]);
      var equals := IndexOf(value, '=');
      if equals == |value| then "!!@ " + value
      else "!!@ " + (Trim(value[..equals]) + ("=" + Trim(value[equals + 1..])))
  }

  // ---------------------------------------------------------------- text

  function StripCr(line: string): string {
    if Ends(line, '\r') then line[..|line| - 1] else line
  }

  /** Lines as `getline` delivers them, without one carriage return at their end. */
  function Lines(text: string): seq<string>
    decreases |text|
  {
    if text == "" then []
    else
      var i := IndexOf(text, '\n');
      [StripCr(text[..i])] + (if i == |text| then [] else Lines(text[i + 1..]))
  }

  lemma LinesStep(text: string)
    requires text != ""
    ensures
      var i := IndexOf(text, '\n');
      Lines(text) == [StripCr(text[..i])] + Lines(if i == |text| then "" else text[i + 1..])
  {
  }

  lemma NoLines()
    ensures Lines("") == []
  {
  }

  method SplitLines(text: string) returns (lines: seq<string>)
    ensures lines == Lines(text)
  {
    hide IndexOf, Lines;
    NoLines();
    lines := [];
    var rest := text;
    while rest != ""
      invariant Lines(text) == lines + Lines(rest)
      decreases |rest|
    {
      var i := IndexOf(rest, '\n');
      var line := rest[..i];
      if line != "" && line[|line| - 1] == '\r' { line := line[..|line| - 1]; }
      LinesStep(rest);
      lines := lines + [line];
      rest := if i == |rest| then "" else rest[i + 1..];
    }
  }

  /** Line ends after a carriage return and plain ones, read with the preceding character. */
  function Endings(previous: char, text: string): (nat, nat)
    decreases |text|
  {
    if text == "" then (0, 0)
    else
      var (crlf, lf) := Endings(text[0], text[1..]);
      if text[0] != '\n' then (crlf, lf)
      else if previous == '\r' then (crlf + 1, lf) else (crlf, lf + 1)
  }

  function DominantLineEnding(text: string): string {
    var (crlf, lf) := Endings(' ', text);
    if crlf > lf then "\r\n" else "\n"
  }

  method CountLineEndings(text: string) returns (newline: string)
    ensures newline == DominantLineEnding(text)
  {
    var crlf, lf := 0, 0;
    for i := 0 to |text|
      invariant Endings(' ', text) == (var (c, l) := Endings(if i > 0 then text[i - 1] else ' ', text[i..]); (crlf + c, lf + l))
    {
      assert text[i..][1..] == text[i + 1..];
      if text[i] != '\n' { continue; }
      if i > 0 && text[i - 1] == '\r' { crlf := crlf + 1; } else { lf := lf + 1; }
    }
    newline := if crlf > lf then "\r\n" else "\n";
  }

  /** Continuation bytes announced by a lead byte; none for a byte that cannot lead. */
  function Followers(lead: char): int {
    var b := lead as int;
    if b < 0x80 then 0
    else if 0xc0 <= b < 0xe0 then 1
    else if 0xe0 <= b < 0xf0 then 2
    else if 0xf0 <= b < 0xf8 then 3
    else -1
  }

  predicate IsTail(c: char) {
    0x80 <= c as int < 0xc0
  }

  predicate ValidUtf8(text: string)
    decreases |text|
  {
    text == "" ||
    (var count := Followers(text[0]);
     0 <= count < |text| && (forall j :: 1 <= j <= count ==> IsTail(text[j])) && ValidUtf8(text[count + 1..]))
  }

  lemma ValidStep(text: string)
    requires text != ""
    ensures
      var count := Followers(text[0]);
      ValidUtf8(text) == (0 <= count < |text| && (forall j :: 1 <= j <= count ==> IsTail(text[j])) && ValidUtf8(text[count + 1..]))
  {
  }

  lemma ValidEmpty()
    ensures ValidUtf8("")
  {
  }

  method CheckUtf8(text: string) returns (valid: bool)
    ensures valid == ValidUtf8(text)
  {
    hide Followers, IsTail, ValidUtf8;
    ValidEmpty();
    var i := 0;
    while i < |text|
      invariant i <= |text| && ValidUtf8(text) == ValidUtf8(text[i..])
      decreases |text| - i
    {
      var count := Followers(text[i]);
      ghost var rest := text[i..];
      ValidStep(rest);
      if count < 0 || i + count >= |text| { return false; }
      var j := 1;
      while j <= count
        invariant 1 <= j <= count + 1 && forall k :: 1 <= k < j ==> IsTail(rest[k])
      {
        assert rest[j] == text[i + j];
        if !IsTail(text[i + j]) { return false; }
        j := j + 1;
      }
      assert rest[count + 1..] == text[i + count + 1..];
      i := i + count + 1;
    }
    assert text[i..] == "";
    return true;
  }

  function Latin1Byte(b: char): string {
    if b as int < 0x80 then [b]
    else [(0xc0 + b as int / 64 % 4) as char, (0x80 + b as int % 64) as char]
  }

  function Latin1ToUtf8(text: string): string {
    if text == "" then "" else Latin1ToUtf8(text[..|text| - 1]) + Latin1Byte(text[|text| - 1])
  }

  method ConvertLatin1(text: string) returns (result: string)
    ensures result == Latin1ToUtf8(text)
  {
    result := "";
    for i := 0 to |text|
      invariant result == Latin1ToUtf8(text[..i])
    {
      assert text[..i + 1][..i] == text[..i];
      result := result + Latin1Byte(text[i]);
    }
    assert text[..|text|] == text;
  }

  /** The text the formatter works on. */
  function Source(text: string): string {
    if ValidUtf8(text) then text else Latin1ToUtf8(text)
  }

  predicate Supported(source: string) {
    Contains(source, "INTERLIS 2.3") || Contains(source, "INTERLIS 2.4")
  }

  // ---------------------------------------------------------------- formatting

  function Repeat(unit: string, n: nat): string {
    if n == 0 then "" else Repeat(unit, n - 1) + unit
  }

  predicate Closes(line: string) {
    StartsWord(line, "END") || ")" <= line
  }

  predicate Opens(line: string) {
    OpensNamedBlock(line) || Ends(line, '(')
  }

  /** Whether a block comment is open after the line. */
  predicate CommentAfter(inComment: bool, line: string) {
    (inComment || ("/*" <= line && !Contains(line[2..], "*/"))) && !Contains(line, "*/")
  }

  predicate Continuation(inComment: bool, line: string) {
    inComment && "*" <= line
  }

  datatype State = State(indent: nat, inComment: bool, previousBlank: bool)

  function Dedent(indent: nat, line: string): nat {
    if Closes(line) && indent > 0 then indent - 1 else indent
  }

  function After(st: State, line: string): State {
    State(Dedent(st.indent, line) + (if Opens(line) then 1 else 0), CommentAfter(st.inComment, line), false)
  }

  function TextLine(st: State, line: string, unit: string): string {
    Repeat(unit, Dedent(st.indent, line)) + ((if Continuation(st.inComment, line) then " " else "") + Canonical(line))
  }

  /** The lines written for the lines read, without their line ends. */
  function OutputLines(lines: seq<string>, st: State, unit: string): seq<string>
    decreases |lines|
  {
    if lines == [] then []
    else
      var line := Trim(lines[0]);
      if line == "" && st.previousBlank then OutputLines(lines[1..], st, unit)
      else if line == "" then [""] + OutputLines(lines[1..], st.(previousBlank := true), unit)
      else
        [TextLine(st, line, unit)] + OutputLines(lines[1..], After(st, line), unit)
  }

  function Join(lines: seq<string>, newline: string): string {
    if lines == [] then "" else lines[0] + (newline + Join(lines[1..], newline))
  }

  const Begin := State(0, false, false)

  function Unit(indentSize: nat): string {
    seq(indentSize, i => ' ')
  }

  datatype FormatResult = FormatResult(
    text: string, applicable: bool, success: bool, changed: bool, diagnostics: seq<string>)

  function Diagnostics(text: string): seq<string> {
    if ValidUtf8(text) then [] else ["ILIC-FORMAT-ENCODING"]
  }

  function FormattedText(source: string, indentSize: nat): string {
    Join(OutputLines(Lines(source), Begin, Unit(indentSize)), DominantLineEnding(source))
  }

  /** `Formatter::format` without syntax validation. */
  function Format(text: string, indentSize: nat): FormatResult {
    var source := Source(text);
    if !Supported(source) then
      FormatResult(source, false, false, false, Diagnostics(text) + ["ILIC-FORMAT-VERSION"])
    else
      var formatted := FormattedText(source, indentSize);
      FormatResult(formatted, true, true, formatted != text, Diagnostics(text))
  }

  lemma {:induction false} JoinSnoc(lines: seq<string>, line: string, newline: string)
    ensures Join(lines + [line], newline) == Join(lines, newline) + (line + newline)
  {
    if lines == [] {
      assert lines + [line] == [line] && [line][1..] == [];
      assert newline + "" == newline;
    } else {
      JoinSnoc(lines[1..], line, newline);
      assert (lines + [line])[1..] == lines[1..] + [line];
    }
  }

  method FormatText(text: string, indentSize: nat) returns (result: FormatResult)
    ensures result == Format(text, indentSize)
  {
    hide Contains, OutputLines, Join, Endings, Lines, ValidUtf8, Latin1ToUtf8, StartsWord;
    var diagnostics := [];
    var source := text;
    var valid := CheckUtf8(text);
    if !valid {
      source := ConvertLatin1(text);
      diagnostics := diagnostics + ["ILIC-FORMAT-ENCODING"];
    }
    if !Contains(source, "INTERLIS 2.3") && !Contains(source, "INTERLIS 2.4") {
      return FormatResult(source, false, false, false, diagnostics + ["ILIC-FORMAT-VERSION"]);
    }
    var newline := CountLineEndings(source);
    var lines := SplitLines(source);
    var output := WriteLines(lines, Unit(indentSize), newline);
    return FormatResult(output, true, true, output != text, diagnostics);
  }

  /** One line that is not blank: what is written, and the state after it. */
  method FormatLine(indent: nat, inBlockComment: bool, line: string, unit: string)
    returns (written: string, indent': nat, inBlockComment': bool)
    requires line != ""
    ensures forall blank :: written == TextLine(State(indent, inBlockComment, blank), line, unit)
    ensures forall blank :: State(indent', inBlockComment', false) == After(State(indent, inBlockComment, blank), line)
  {
    hide Contains, StartsWord, OpensNamedBlock, Canonical, Repeat;
    indent', inBlockComment' := indent, inBlockComment;
    var commentContinuation := inBlockComment && line[0] == '*';
    var closesBlock := StartsWord(line, "END") || line[0] == ')';
    if closesBlock && indent' > 0 { indent' := indent' - 1; }
    var spaces := WriteIndent(unit, indent');
    written := spaces + ((if commentContinuation then " " else "") + Canonical(line));
    if !inBlockComment' && "/*" <= line && !Contains(line[2..], "*/") { inBlockComment' := true; }
    if inBlockComment' && Contains(line, "*/") { inBlockComment' := false; }
    if OpensNamedBlock(line) { indent' := indent' + 1; }
    else if line[|line| - 1] == '(' { indent' := indent' + 1; }
  }

  /** The loop over the lines of the source. */
  method WriteLines(lines: seq<string>, unit: string, newline: string) returns (output: string)
    ensures output == Join(OutputLines(lines, Begin, unit), newline)
  {
    hide Join, Trim, TextLine, After;
    output := "";
    ghost var written: seq<string> := [];
    JoinOfNone(newline);
    var indent, inBlockComment, previousBlank := 0, false, false;
    for i := 0 to |lines|
      invariant output == Join(written, newline)
      invariant OutputLines(lines, Begin, unit) == written + OutputLines(lines[i..], State(indent, inBlockComment, previousBlank), unit)
    {
      assert lines[i..][1..] == lines[i + 1..];
      var line := TrimLoop(lines[i]);
      if line == "" {
        if !previousBlank {
          output := output + ("" + newline);
          JoinSnoc(written, "", newline);
          written := written + [""];
        }
        previousBlank := true;
        continue;
      }
      var text;
      text, indent, inBlockComment := FormatLine(indent, inBlockComment, line, unit);
      previousBlank := false;
      output := output + (text + newline);
      JoinSnoc(written, text, newline);
      written := written + [text];
    }
    assert lines[|lines|..] == [];
    assert written + [] == written;
  }

  lemma JoinOfNone(newline: string)
    ensures Join([], newline) == ""
  {
  }

  method WriteIndent(unit: string, indent: nat) returns (spaces: string)
    ensures spaces == Repeat(unit, indent)
  {
    spaces := "";
    for i := 0 to indent
      invariant spaces == Repeat(unit, i)
    {
      spaces := spaces + unit;
    }
  }
}
