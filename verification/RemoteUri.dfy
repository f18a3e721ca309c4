/** Normalisation of http(s) repository URIs, against remove_dot_segments of section 5.2.4
    of RFC 3986. */
module RemoteUri {

  predicate IsHttp(value: string) {
    SchemeLength(value) > 0
  }

  function LowerChar(c: char): char {
    if 'A' <= c <= 'Z' then (c as int + 32) as char else c
  }

  predicate LowerPrefix(value: string, prefix: string) {
    |prefix| <= |value| && forall i :: 0 <= i < |prefix| ==> LowerChar(value[i]) == prefix[i]
  }

  /** The length of `http://` or `https://` at the start, or 0. */
  function SchemeLength(value: string): (n: nat)
    ensures n <= |value|
  {
    if LowerPrefix(value, "http://") then 7 else if LowerPrefix(value, "https://") then 8 else 0
  }

  predicate IsSuffixMark(c: char) {
    c == '?' || c == '#'
  }

  /** Position of the query or fragment, or the length. */
  function SuffixAt(s: string): (i: nat)
    ensures i <= |s|
    ensures forall k :: 0 <= k < i ==> !IsSuffixMark(s[k])
    ensures i < |s| ==> IsSuffixMark(s[i])
  {
    if s == "" || IsSuffixMark(s[0]) then 0 else 1 + SuffixAt(s[1..])
  }

  /** Position of the first slash, or the length. */
  function SlashAt(s: string): (i: nat)
    ensures i <= |s|
    ensures forall k :: 0 <= k < i ==> s[k] != '/'
    ensures i < |s| ==> s[i] == '/'
  {
    if s == "" || s[0] == '/' then 0 else 1 + SlashAt(s[1..])
  }

  /** `split("/")` */
  function Split(s: string): (r: seq<string>)
    ensures r != []
    decreases |s|
  {
    var i := SlashAt(s);
    if i == |s| then [s] else [s[..i]] + Split(s[i + 1..])
  }

  /** `join("/")` */
  function Join(parts: seq<string>): string {
    if parts == [] then "" else if |parts| == 1 then parts[0] else parts[0] + ("/" + Join(parts[1..]))
  }

  function Step(parts: seq<string>, part: string): seq<string> {
    if part == "" || part == "." then parts
    else if part == ".." then (if parts == [] then [] else parts[..|parts| - 1])
    else parts + [part]
  }

  /** The segments that remain. */
  function Remaining(parts: seq<string>, segments: seq<string>): seq<string>
    decreases |segments|
  {
    if segments == [] then parts else Remaining(Step(parts, segments[0]), segments[1..])
  }

  function PathText(parts: seq<string>): string {
    if parts == [] then "" else "/" + Join(parts)
  }

  function NormalizedPath(path: string): string
    requires path != "" && path[0] == '/'
  {
    PathText(Remaining([], Split(path[1..])))
  }

  function NormalizedBase(base: string, scheme: nat): string
    requires scheme <= |base|
  {
    var pathStart := scheme + SlashAt(base[scheme..]);
    if pathStart == |base| then base
    else base[..pathStart] + NormalizedPath(base[pathStart..])
  }

  lemma SchemeHasNoSuffix(value: string)
    ensures SchemeLength(value) <= SuffixAt(value)
  {
    var n := SchemeLength(value);
    assert forall i :: 0 <= i < n ==> LowerChar(value[i]) == (if n == 7 then "http://" else "https://")[i];
    assert forall i :: 0 <= i < n ==> !IsSuffixMark(value[i]);
  }

  /** `normalizeRemote` of an http(s) URI. */
  function Normalized(value: string): string
    requires IsHttp(value)
  {
    SchemeHasNoSuffix(value);
    var suffixAt := SuffixAt(value);
    NormalizedBase(value[..suffixAt], SchemeLength(value)) + value[suffixAt..]
  }

  method NormalizeSegments(segments: seq<string>) returns (parts: seq<string>)
    ensures parts == Remaining([], segments)
  {
    parts := [];
    for i := 0 to |segments|
      invariant Remaining([], segments) == Remaining(parts, segments[i..])
    {
      var part := segments[i];
      assert segments[i..][1..] == segments[i + 1..];
      if part == "" || part == "." { continue; }
      if part == ".." {
        if |parts| > 0 { parts := parts[..|parts| - 1]; }
      } else {
        parts := parts + [part];
      }
    }
  }

  method NormalizeRemote(value: string) returns (result: string)
    requires IsHttp(value)
    ensures result == Normalized(value)
  {
    SchemeHasNoSuffix(value);
    var suffixAt := SuffixAt(value);
    var base, suffix := value[..suffixAt], value[suffixAt..];
    var scheme := SchemeLength(value);
    var pathStart := scheme + SlashAt(base[scheme..]);
    if pathStart == |base| { return base + suffix; }
    var authority, path := base[..pathStart], base[pathStart..];
    assert path[1..] == base[pathStart + 1..];
    var parts := NormalizeSegments(Split(base[pathStart + 1..]));
    return authority + (if |parts| > 0 then "/" + Join(parts) else "") + suffix;
  }

  // ---------------------------------------------------------------- segments

  predicate Segment(s: string) {
    '/' !in s
  }

  /** A segment that normalisation keeps. */
  predicate Proper(s: string) {
    Segment(s) && s != "" && s != "." && s != ".."
  }

  predicate AllProper(parts: seq<string>) {
    forall i :: 0 <= i < |parts| ==> Proper(parts[i])
  }

  lemma {:induction false} SlashAtAfter(s: string, rest: string)
    requires Segment(s)
    ensures SlashAt(s + rest) == |s| + SlashAt(rest)
  {
    if s == "" { assert s + rest == rest; }
    else {
      assert (s + rest)[1..] == s[1..] + rest;
      SlashAtAfter(s[1..], rest);
    }
  }

  lemma SplitAlone(s: string)
    requires Segment(s)
    ensures Split(s) == [s]
  {
    SlashAtAfter(s, "");
    assert s + "" == s;
  }

  lemma SplitAt(s: string, i: nat)
    requires i == SlashAt(s) < |s|
    ensures Split(s) == [s[..i]] + Split(s[i + 1..])
  {
  }

  lemma SplitFirst(s: string, rest: string)
    requires Segment(s)
    ensures Split(s + ("/" + rest)) == [s] + Split(rest)
    ensures Split(s) == [s]
  {
    SplitAlone(s);
    SlashAtAfter(s, "/" + rest);
    assert SlashAt("/" + rest) == 0;
    hide SlashAt, Split;
    SplitAt(s + ("/" + rest), |s|);
    AroundSlash(s, rest);
  }

  lemma AroundSlash(s: string, rest: string)
    ensures var t := s + ("/" + rest); t[..|s|] == s && t[|s| + 1..] == rest
  {
    var t := s + ("/" + rest);
    assert t == (s + "/") + rest;
  }

  lemma {:induction false} SplitJoin(parts: seq<string>)
    requires parts != [] && forall i :: 0 <= i < |parts| ==> Segment(parts[i])
    ensures Split(Join(parts)) == parts
  {
    if |parts| == 1 {
      SplitFirst(parts[0], "");
    } else {
      SplitJoin(parts[1..]);
      hide Split;
      SplitFirst(parts[0], Join(parts[1..]));
    }
  }

  lemma {:induction false} SplitSegments(s: string)
    ensures forall i :: 0 <= i < |Split(s)| ==> Segment(Split(s)[i])
    ensures Join(Split(s)) == s
    ensures forall i, c :: 0 <= i < |Split(s)| && c in Split(s)[i] ==> c in s
    decreases |s|
  {
    var i := SlashAt(s);
    if i < |s| {
      SplitSegments(s[i + 1..]);
      assert Split(s)[1..] == Split(s[i + 1..]);
      CutAtSlash(s, i);
    }
  }

  lemma CutAtSlash(s: string, i: nat)
    requires i < |s| && s[i] == '/'
    ensures s == s[..i] + ("/" + s[i + 1..])
  {
  }

  lemma {:induction false} RemainingProper(parts: seq<string>, segments: seq<string>)
    requires AllProper(parts) && forall i :: 0 <= i < |segments| ==> Segment(segments[i])
    ensures AllProper(Remaining(parts, segments))
    decreases |segments|
  {
    if segments != [] { RemainingProper(Step(parts, segments[0]), segments[1..]); }
  }

  lemma {:induction false} RemainingOfProper(parts: seq<string>, segments: seq<string>)
    requires AllProper(segments)
    ensures Remaining(parts, segments) == parts + segments
    decreases |segments|
  {
    if segments != [] {
      RemainingOfProper(parts + [segments[0]], segments[1..]);
      assert parts + [segments[0]] + segments[1..] == parts + segments;
    }
  }

  // ---------------------------------------------------------------- idempotence

  lemma {:induction false} JoinChars(parts: seq<string>, c: char)
    requires c != '/' && forall i :: 0 <= i < |parts| ==> c !in parts[i]
    ensures c !in Join(parts)
  {
    if |parts| > 1 { JoinChars(parts[1..], c); }
  }

  lemma {:induction false} RemainingChars(parts: seq<string>, segments: seq<string>, c: char)
    requires forall i :: 0 <= i < |parts| ==> c !in parts[i]
    requires forall i :: 0 <= i < |segments| ==> c !in segments[i]
    ensures forall i :: 0 <= i < |Remaining(parts, segments)| ==> c !in Remaining(parts, segments)[i]
    decreases |segments|
  {
    if segments != [] { RemainingChars(Step(parts, segments[0]), segments[1..], c); }
  }

  /** A normalised path is its own normal form and contains no new character. */
  lemma PathFixed(path: string)
    requires path != "" && path[0] == '/'
    ensures var n := NormalizedPath(path);
      && (n == "" || (n[0] == '/' && NormalizedPath(n) == n))
      && forall c :: c in n ==> c in path
  {
    var segments := Split(path[1..]);
    var parts := Remaining([], segments);
    SplitSegments(path[1..]);
    RemainingProper([], segments);
    if parts != [] {
      var n := PathText(parts);
      assert n[1..] == Join(parts);
      SplitJoin(parts);
      RemainingOfProper([], parts);
      assert [] + parts == parts;
    }
    forall c | c in NormalizedPath(path) ensures c in path {
      if c !in path {
        assert c != '/' && c !in path[1..];
        RemainingChars([], segments, c);
        JoinChars(parts, c);
      }
    }
  }

  lemma {:induction false} SuffixAtAfter(s: string, rest: string)
    requires forall i :: 0 <= i < |s| ==> !IsSuffixMark(s[i])
    requires rest == "" || IsSuffixMark(rest[0])
    ensures SuffixAt(s + rest) == |s|
  {
    if s == "" { assert s + rest == rest; }
    else {
      assert (s + rest)[1..] == s[1..] + rest;
      SuffixAtAfter(s[1..], rest);
    }
  }

  lemma SameScheme(value: string, other: string)
    requires IsHttp(value) && SchemeLength(value) <= |other| && value[..SchemeLength(value)] == other[..SchemeLength(value)]
    ensures SchemeLength(other) == SchemeLength(value)
  {
    var n := SchemeLength(value);
    assert forall i :: 0 <= i < n ==> other[i] == other[..n][i] == value[i];
    if n == 8 {
      assert LowerChar(other[4]) == 's';
      assert !LowerPrefix(other, "http://") by { assert "http://"[4] == ':'; }
    }
  }

  /** A base whose path is normal is a fixed point. */
  lemma BaseWithNormalPath(authority: string, p: string, scheme: nat)
    requires scheme <= |authority| && Segment(authority[scheme..])
    requires p == "" || (p[0] == '/' && NormalizedPath(p) == p)
    ensures NormalizedBase(authority + p, scheme) == authority + p
  {
    var n, name := authority + p, authority[scheme..];
    assert n[scheme..] == name + p;
    SlashAtAfter(name, p);
    assert SlashAt(p) == 0;
    hide SlashAt, NormalizedPath;
    assert n[..|authority|] == authority && n[|authority|..] == p;
  }

  /** The part before query and fragment keeps its scheme and is a fixed point. */
  lemma BaseFixed(base: string, scheme: nat)
    requires scheme <= |base|
    ensures var n := NormalizedBase(base, scheme);
      && scheme <= |n| && n[..scheme] == base[..scheme]
      && NormalizedBase(n, scheme) == n
      && forall c :: c in n ==> c in base
  {
    hide SlashAt, NormalizedPath, NormalizedBase;
    var k := SlashAt(base[scheme..]);
    if scheme + k < |base| {
      var authority, path := base[..scheme + k], base[scheme + k..];
      BaseSplits(base, scheme, scheme + k);
      PathFixed(path);
      AuthorityHasNoSlash(base, scheme, k);
      BaseWithNormalPath(authority, NormalizedPath(path), scheme);
      ConcatFacts(authority, path, NormalizedPath(path), scheme);
    } else {
      BaseWithoutPath(base, scheme);
    }
  }

  lemma AuthorityHasNoSlash(base: string, scheme: nat, k: nat)
    requires scheme <= |base| && k == SlashAt(base[scheme..])
    ensures Segment(base[..scheme + k][scheme..])
  {
    assert base[..scheme + k][scheme..] == base[scheme..][..k];
  }

  lemma ConcatFacts(authority: string, path: string, p: string, scheme: nat)
    requires scheme <= |authority| && forall c :: c in p ==> c in path
    ensures (authority + p)[..scheme] == (authority + path)[..scheme]
    ensures forall c :: c in authority + p ==> c in authority + path
  {
    forall c | c in authority + p ensures c in authority + path {
      if c in authority { var i :| 0 <= i < |authority| && authority[i] == c; assert (authority + path)[i] == c; }
      else { var i :| 0 <= i < |path| && path[i] == c; assert (authority + path)[|authority| + i] == c; }
    }
  }

  lemma BaseSplits(base: string, scheme: nat, start: nat)
    requires scheme <= start < |base| && start == scheme + SlashAt(base[scheme..])
    ensures base[start] == '/' && base == base[..start] + base[start..] && NormalizedBase(base, scheme) == base[..start] + NormalizedPath(base[start..])
  {
  }

  lemma BaseWithoutPath(base: string, scheme: nat)
    requires scheme <= |base| && scheme + SlashAt(base[scheme..]) == |base|
    ensures NormalizedBase(base, scheme) == base
  {
  }

  /** The scheme is recognised in any case of its letters, and nothing else is. */
  lemma SchemeExactly(value: string)
    ensures SchemeLength(value) == 7 <==>
      |value| >= 7 && value[0] in "hH" && value[1] in "tT" && value[2] in "tT" && value[3] in "pP" && value[4..7] == "://"
    ensures SchemeLength(value) == 8 <==>
      |value| >= 8 && value[0] in "hH" && value[1] in "tT" && value[2] in "tT" && value[3] in "pP" && value[4] in "sS" && value[5..8] == "://"
    ensures IsHttp(value) <==> SchemeLength(value) == 7 || SchemeLength(value) == 8
  {
    assert LowerPrefix(value, "http://") <==>
      |value| >= 7 && forall i :: 0 <= i < 7 ==> LowerChar(value[i]) == "http://"[i];
    LowerLetters();
    if |value| >= 7 { assert value[4..7] == [value[4], value[5], value[6]]; }
    if |value| >= 8 { assert value[5..8] == [value[5], value[6], value[7]]; }
    hide LowerChar;
  }

  lemma LowerLetters()
    ensures forall c :: LowerChar(c) == 'h' <==> c in "hH"
    ensures forall c :: LowerChar(c) == 't' <==> c in "tT"
    ensures forall c :: LowerChar(c) == 'p' <==> c in "pP"
    ensures forall c :: LowerChar(c) == 's' <==> c in "sS"
    ensures forall c :: LowerChar(c) == ':' <==> c == ':'
    ensures forall c :: LowerChar(c) == '/' <==> c == '/'
  {
  }

  /** `normalizeRemote` is idempotent on every http(s) URI. */
  lemma NormalizedFixed(value: string)
    requires IsHttp(value)
    ensures IsHttp(Normalized(value)) && Normalized(Normalized(value)) == Normalized(value)
  {
    SchemeHasNoSuffix(value);
    var at, scheme := SuffixAt(value), SchemeLength(value);
    var base, suffix := value[..at], value[at..];
    BaseFixed(base, scheme);
    var n := NormalizedBase(base, scheme);
    var r := n + suffix;
    hide NormalizedBase;
    assert forall c :: c in base ==> !IsSuffixMark(c);
    forall i | 0 <= i < |n| ensures !IsSuffixMark(n[i]) {
      assert n[i] in n;
    }
    SuffixAtAfter(n, suffix);
    assert r[..scheme] == n[..scheme] == value[..scheme] by { assert base[..scheme] == value[..scheme]; }
    SameScheme(value, r);
    assert r[..|n|] == n && r[|n|..] == suffix;
  }

  /** Scheme, authority and query or fragment are kept as they are; the path alone changes. */
  lemma PartsKept(scheme: string, authority: string, path: string, suffix: string)
    requires IsHttp(scheme) && SchemeLength(scheme) == |scheme|
    requires '?' !in authority + path && '#' !in authority + path
    requires '/' !in authority && (path == "" || path[0] == '/') && (suffix == "" || suffix[0] == '?' || suffix[0] == '#')
    ensures IsHttp(scheme + authority + path + suffix)
    ensures Normalized(scheme + authority + path + suffix)
      == scheme + authority + (if path == "" then "" else NormalizedPath(path)) + suffix
  {
    var base := scheme + authority + path;
    var value := base + suffix;
    SchemeChars(scheme);
    assert value[..|scheme|] == scheme && base[..|scheme|] == scheme && scheme[..|scheme|] == scheme;
    SameScheme(scheme, value);
    forall i | 0 <= i < |base| ensures !IsSuffixMark(base[i]) {
      assert i < |scheme| || base[i] == (authority + path)[i - |scheme|];
    }
    SuffixAtAfter(base, suffix);
    hide NormalizedPath, SuffixAt, LowerPrefix;
    assert value[..|base|] == base && value[|base|..] == suffix;
    BaseParts(scheme, authority, path);
  }

  lemma SchemeChars(scheme: string)
    requires IsHttp(scheme) && SchemeLength(scheme) == |scheme|
    ensures forall i :: 0 <= i < |scheme| ==> !IsSuffixMark(scheme[i])
  {
    SchemeHasNoSuffix(scheme);
  }

  lemma BaseParts(scheme: string, authority: string, path: string)
    requires '/' !in authority && (path == "" || path[0] == '/')
    ensures NormalizedBase(scheme + authority + path, |scheme|) == scheme + authority + (if path == "" then "" else NormalizedPath(path))
  {
    var base, head := scheme + authority + path, scheme + authority;
    assert base[|scheme|..] == authority + path;
    SlashAtAfter(authority, path);
    assert SlashAt(path) == 0;
    hide SlashAt, NormalizedPath;
    assert base[..|head|] == head && base[|head|..] == path;
    if path == "" { assert base == head; }
  }

  // ---------------------------------------------------------------- RFC 3986

  predicate Starts(s: string, prefix: string) {
    prefix <= s
  }

  /** The output buffer without its last segment and the slash before it. */
  function WithoutLast(output: string): (r: string)
    ensures |r| <= |output|
  {
    if output == "" then ""
    else if output[|output| - 1] == '/' then output[..|output| - 1]
    else WithoutLast(output[..|output| - 1])
  }

  /** remove_dot_segments: rules A to E of section 5.2.4. */
  function RemoveDotSegments(input: string, output: string): string
    decreases |input|
  {
    if input == "" then output
    else if Starts(input, "../") then RemoveDotSegments(input[3..], output)
    else if Starts(input, "./") then RemoveDotSegments(input[2..], output)
    else if Starts(input, "/./") then RemoveDotSegments(input[2..], output)
    else if input == "/." then RemoveDotSegments("/", output)
    else if Starts(input, "/../") then RemoveDotSegments(input[3..], WithoutLast(output))
    else if input == "/.." then RemoveDotSegments("/", WithoutLast(output))
    else if input == "." || input == ".." then output
    else
      var next := 1 + SlashAt(input[1..]);
      RemoveDotSegments(input[next..], output + input[..next])
  }

  function WithoutTrailingSlash(s: string): string {
    if s != "" && s[|s| - 1] == '/' then s[..|s| - 1] else s
  }

  /** Path text piece by piece. */
  function Pieces(parts: seq<string>): string {
    if parts == [] then "" else Pieces(parts[..|parts| - 1]) + ("/" + parts[|parts| - 1])
  }

  lemma {:induction false} JoinSnoc(parts: seq<string>, last: string)
    requires parts != []
    ensures Join(parts + [last]) == Join(parts) + ("/" + last)
  {
    if |parts| == 1 {
      assert (parts + [last])[1..] == [last];
    } else {
      JoinSnoc(parts[1..], last);
      assert (parts + [last])[1..] == parts[1..] + [last];
    }
  }

  lemma Snoc<T>(s: seq<T>)
    requires s != []
    ensures s == s[..|s| - 1] + [s[|s| - 1]]
  {
  }

  lemma PathTextSnoc(parts: seq<string>, last: string)
    ensures PathText(parts + [last]) == PathText(parts) + ("/" + last)
  {
    if parts == [] { assert parts + [last] == [last]; }
    else { JoinSnoc(parts, last); }
  }

  lemma {:induction false} PiecesArePathText(parts: seq<string>)
    ensures Pieces(parts) == PathText(parts)
    decreases |parts|
  {
    if parts != [] {
      var n := |parts| - 1;
      PiecesArePathText(parts[..n]);
      hide PathText;
      PathTextSnoc(parts[..n], parts[n]);
      Snoc(parts);
    }
  }

  lemma {:induction false} WithoutLastPiece(output: string, segment: string)
    requires Segment(segment)
    ensures WithoutLast(output + ("/" + segment)) == output
    decreases |segment|
  {
    var s := output + ("/" + segment);
    if segment == "" {
      assert s[..|s| - 1] == output;
    } else {
      assert s[..|s| - 1] == output + ("/" + segment[..|segment| - 1]);
      WithoutLastPiece(output, segment[..|segment| - 1]);
    }
  }

  lemma WithoutLastOfPieces(parts: seq<string>)
    requires forall i :: 0 <= i < |parts| ==> Segment(parts[i])
    ensures WithoutLast(Pieces(parts)) == Pieces(Step(parts, ".."))
  {
    if parts != [] {
      WithoutLastPiece(Pieces(parts[..|parts| - 1]), parts[|parts| - 1]);
    }
  }

  /** Rule E on a segment that is no dot segment. */
  lemma OrdinarySegment(segment: string, rest: string, output: string)
    requires Segment(segment) && segment != "." && segment != ".." && (rest == "" || rest[0] == '/')
    ensures RemoveDotSegments("/" + segment + rest, output) == RemoveDotSegments(rest, output + ("/" + segment))
  {
    var input := "/" + segment + rest;
    assert input[1..] == segment + rest;
    SlashAtAfter(segment, rest);
    assert SlashAt(rest) == 0;
    hide SlashAt;
    assert input[..1 + |segment|] == "/" + segment && input[1 + |segment|..] == rest;
    assert input[0] == '/';
    NoDotPrefix(segment, rest);
  }

  lemma DotPrefixes(s: string)
    ensures Starts(s, "/./") ==> |s| >= 3 && s[1] == '.' && s[2] == '/'
    ensures Starts(s, "/../") ==> |s| >= 4 && s[1] == '.' && s[2] == '.' && s[3] == '/'
  {
  }

  lemma NoDotPrefix(segment: string, rest: string)
    requires Segment(segment) && segment != "." && segment != ".." && (rest == "" || rest[0] == '/')
    ensures var input := "/" + segment + rest;
      && !Starts(input, "../") && !Starts(input, "./") && !Starts(input, "/./") && !Starts(input, "/../")
      && input != "/." && input != "/.." && input != "." && input != ".."
  {
    var input := "/" + segment + rest;
    assert input[0] == '/' && input[1..] == segment + rest;
    assert forall i :: 1 <= i <= |segment| ==> input[i] == segment[i - 1];
    assert |segment| == 1 ==> segment[0] != '.';
    assert |segment| == 2 ==> segment[0] != '.' || segment[1] != '.';
    assert |rest| > 0 ==> input[|segment| + 1] == '/';
    DotPrefixes(input);
  }

  /** The RFC keeps empty segments; a dot-dot may remove one. */
  function RfcStep(parts: seq<string>, part: string): seq<string> {
    if part == "" then parts + [part] else Step(parts, part)
  }

  /** The segments the RFC keeps, up to a trailing slash: the last segment may be empty. */
  function RfcRemaining(parts: seq<string>, segments: seq<string>): seq<string>
    requires segments != []
    decreases |segments|
  {
    if |segments| == 1 then Step(parts, segments[0]) else RfcRemaining(RfcStep(parts, segments[0]), segments[1..])
  }

  lemma JoinHead(segments: seq<string>)
    requires |segments| > 1
    ensures "/" + Join(segments) == "/" + segments[0] + ("/" + Join(segments[1..]))
  {
  }

  lemma {:induction false} RfcStepSegments(parts: seq<string>, segment: string)
    requires Segment(segment) && forall i :: 0 <= i < |parts| ==> Segment(parts[i])
    ensures forall i :: 0 <= i < |RfcStep(parts, segment)| ==> Segment(RfcStep(parts, segment)[i])
  {
  }

  /** What is left to do on the segments, with the parts kept so far in the output. */
  lemma {:induction false} SegmentsAgree(parts: seq<string>, segments: seq<string>)
    requires segments != [] && forall i :: 0 <= i < |segments| ==> Segment(segments[i])
    requires forall i :: 0 <= i < |parts| ==> Segment(parts[i])
    ensures WithoutTrailingSlash(RemoveDotSegments("/" + Join(segments), Pieces(parts))) == Pieces(RfcRemaining(parts, segments))
    decreases |segments|
  {
    hide RemoveDotSegments, Pieces, WithoutTrailingSlash, Segment, RfcStep, Step;
    if |segments| == 1 {
      LastSegment(parts, segments[0]);
    } else {
      JoinHead(segments);
      hide Join;
      NextSegment(parts, segments[0], Join(segments[1..]));
      RfcStepSegments(parts, segments[0]);
      SegmentsAgree(RfcStep(parts, segments[0]), segments[1..]);
    }
  }

  /** Rules B and C before another segment. */
  lemma DotRules(tail: string, output: string)
    ensures RemoveDotSegments("/./" + tail, output) == RemoveDotSegments("/" + tail, output)
    ensures RemoveDotSegments("/../" + tail, output) == RemoveDotSegments("/" + tail, WithoutLast(output))
  {
    hide WithoutLast, SlashAt;
    var one, two := "/./" + tail, "/../" + tail;
    assert one[2..] == "/" + tail && two[3..] == "/" + tail;
    assert one[0] == '/' && two[0] == '/' && two[2] == '.';
  }

  lemma DotTexts(tail: string)
    ensures "/" + "." + ("/" + tail) == "/./" + tail
    ensures "/" + ".." + ("/" + tail) == "/../" + tail
  {
  }

  lemma RfcStepOf(parts: seq<string>, segment: string)
    ensures RfcStep(parts, segment) ==
      if segment == "." then parts else if segment == ".." then Step(parts, "..") else parts + [segment]
  {
  }

  lemma NextSegment(parts: seq<string>, segment: string, tail: string)
    requires Segment(segment)
    requires forall i :: 0 <= i < |parts| ==> Segment(parts[i])
    ensures RemoveDotSegments("/" + segment + ("/" + tail), Pieces(parts))
         == RemoveDotSegments("/" + tail, Pieces(RfcStep(parts, segment)))
  {
    hide *;
    RfcStepOf(parts, segment);
    DotTexts(tail);
    DotRules(tail, Pieces(parts));
    if segment == ".." {
      WithoutLastOfPieces(parts);
    } else if segment != "." {
      OrdinarySegment(segment, "/" + tail, Pieces(parts));
      PiecesAppend(parts, segment);
    }
  }

  lemma PiecesAppend(parts: seq<string>, segment: string)
    ensures Pieces(parts + [segment]) == Pieces(parts) + ("/" + segment)
  {
    assert (parts + [segment])[..|parts|] == parts;
  }

  lemma SlashOnly(output: string)
    ensures RemoveDotSegments("/", output) == output + "/"
  {
    assert "/"[1..] == "";
  }

  lemma TrailingDots(output: string)
    ensures RemoveDotSegments("/.", output) == output + "/"
    ensures RemoveDotSegments("/..", output) == WithoutLast(output) + "/"
  {
    SlashOnly(output);
    SlashOnly(WithoutLast(output));
    hide WithoutLast;
    var dot, dots := "/.", "/..";
    assert dot[0] == '/' && dots[0] == '/' && dots[2] == '.';
    assert !Starts(dot, "../") && !Starts(dot, "./") && !Starts(dot, "/./");
    assert !Starts(dots, "../") && !Starts(dots, "./") && !Starts(dots, "/./") && !Starts(dots, "/../");
  }

  lemma TrailingSlashDropped(output: string)
    ensures WithoutTrailingSlash(output + "/") == output
  {
  }

  lemma SegmentKept(output: string, segment: string)
    requires Segment(segment) && segment != ""
    ensures WithoutTrailingSlash(output + ("/" + segment)) == output + ("/" + segment)
  {
    var out := output + ("/" + segment);
    assert out[|out| - 1] == segment[|segment| - 1];
    assert segment[|segment| - 1] in segment;
  }

  lemma NothingMore(output: string)
    ensures RemoveDotSegments("", output) == output
  {
  }

  lemma LastSegment(parts: seq<string>, segment: string)
    requires Segment(segment) && forall i :: 0 <= i < |parts| ==> Segment(parts[i])
    ensures WithoutTrailingSlash(RemoveDotSegments("/" + segment, Pieces(parts))) == Pieces(Step(parts, segment))
  {
    hide WithoutLast, RemoveDotSegments, WithoutTrailingSlash, Pieces;
    if segment == "" {
      SlashOnly(Pieces(parts));
      TrailingSlashDropped(Pieces(parts));
      assert "/" + segment == "/";
    } else if segment == "." {
      TrailingDots(Pieces(parts));
      TrailingSlashDropped(Pieces(parts));
      assert "/" + segment == "/.";
    } else if segment == ".." {
      TrailingDots(Pieces(parts));
      WithoutLastOfPieces(parts);
      TrailingSlashDropped(Pieces(Step(parts, "..")));
      assert "/" + segment == "/..";
    } else {
      OrdinarySegment(segment, "", Pieces(parts));
      NothingMore(Pieces(parts) + ("/" + segment));
      assert "/" + segment + "" == "/" + segment;
      PiecesAppend(parts, segment);
      SegmentKept(Pieces(parts), segment);
    }
  }

  /** Up to a trailing slash, the RFC's result is the text of the segments it keeps. */
  lemma RfcPath(path: string)
    requires path != "" && path[0] == '/'
    ensures WithoutTrailingSlash(RemoveDotSegments(path, "")) == Pieces(RfcRemaining([], Split(path[1..])))
  {
    var segments := Split(path[1..]);
    SplitSegments(path[1..]);
    assert path == "/" + Join(segments);
    SegmentsAgree([], segments);
  }

  // ---------------------------------------------------------------- without empty segments

  function NonEmpty(segments: seq<string>): (r: seq<string>)
    ensures forall i :: 0 <= i < |r| ==> r[i] != "" && r[i] in segments
  {
    if segments == [] then []
    else (if segments[0] == "" then [] else [segments[0]]) + NonEmpty(segments[1..])
  }

  lemma {:induction false} RemainingNonEmpty(parts: seq<string>, segments: seq<string>)
    ensures Remaining(parts, NonEmpty(segments)) == Remaining(parts, segments)
    decreases |segments|
  {
    if segments != [] {
      RemainingNonEmpty(Step(parts, segments[0]), segments[1..]);
      if segments[0] == "" { assert NonEmpty(segments) == NonEmpty(segments[1..]); }
      else { assert NonEmpty(segments)[1..] == NonEmpty(segments[1..]); }
    }
  }

  lemma {:induction false} RfcOfNonEmpty(parts: seq<string>, segments: seq<string>)
    requires segments != [] && forall i :: 0 <= i < |segments| - 1 ==> segments[i] != ""
    ensures RfcRemaining(parts, segments) == Remaining(parts, segments)
    decreases |segments|
  {
    if |segments| > 1 { RfcOfNonEmpty(Step(parts, segments[0]), segments[1..]); }
    else { assert segments[1..] == []; }
  }

  /** For every path the code removes dot segments as section 5.2.4 of RFC 3986 does on the path
      with its empty segments deleted, up to a trailing slash. */
  lemma NormalizedIsRfc3986(path: string)
    requires path != "" && path[0] == '/'
    ensures NormalizedPath(path) == WithoutTrailingSlash(RemoveDotSegments("/" + Join(NonEmpty(Split(path[1..]))), ""))
  {
    var segments := Split(path[1..]);
    SplitSegments(path[1..]);
    hide Split, RemoveDotSegments, WithoutTrailingSlash;
    var kept := if NonEmpty(segments) == [] then [""] else NonEmpty(segments);
    assert Join(kept) == Join(NonEmpty(segments));
    SegmentsAgree([], kept);
    RfcOfNonEmpty([], kept);
    RemainingNonEmpty([], segments);
    if NonEmpty(segments) == [] { assert kept[1..] == []; }
    PiecesArePathText(Remaining([], segments));
  }

  /** In particular for paths whose only empty segment may be the last. */
  lemma AgreesWithRfc3986(path: string)
    requires path != "" && path[0] == '/'
    requires forall i :: 0 <= i < |Split(path[1..])| - 1 ==> Split(path[1..])[i] != ""
    ensures NormalizedPath(path) == WithoutTrailingSlash(RemoveDotSegments(path, ""))
  {
    hide RemoveDotSegments, WithoutTrailingSlash, Split;
    RfcPath(path);
    RfcOfNonEmpty([], Split(path[1..]));
    PiecesArePathText(Remaining([], Split(path[1..])));
  }

  // ---------------------------------------------------------------- exactly when the two agree

  /** How many segments the RFC has kept so far, empty ones included. */
  function Level(segments: seq<string>): nat {
    if segments == [] then 0
    else
      var n, last := Level(segments[..|segments| - 1]), segments[|segments| - 1];
      if last == "." then n else if last == ".." then (if n == 0 then 0 else n - 1) else n + 1
  }

  /** Behind every empty segment before `end` the path climbs back to the top. */
  ghost predicate ClimbedOut(segments: seq<string>, end: nat)
    requires end <= |segments|
  {
    forall i :: 0 <= i < end && segments[i] == "" ==> ToTop(segments, i)
  }

  ghost predicate ToTop(segments: seq<string>, i: nat) {
    exists k :: i < k <= |segments| && Level(segments[..k]) == 0
  }

  function Kept(segments: seq<string>): seq<string> {
    if segments == [] then [] else RfcStep(Kept(segments[..|segments| - 1]), segments[|segments| - 1])
  }

  lemma {:induction false} RemainingSnoc(parts: seq<string>, segments: seq<string>, last: string)
    ensures Remaining(parts, segments + [last]) == Step(Remaining(parts, segments), last)
    decreases |segments|
  {
    if segments == [] {
      assert (segments + [last])[1..] == [];
    } else {
      assert (segments + [last])[1..] == segments[1..] + [last];
      RemainingSnoc(Step(parts, segments[0]), segments[1..], last);
    }
  }

  lemma KeptSnoc(init: seq<string>, last: string)
    ensures Kept(init + [last]) == RfcStep(Kept(init), last)
  {
    assert (init + [last])[..|init|] == init;
  }

  lemma {:induction false} RfcRemainingSnoc(before: seq<string>, init: seq<string>, last: string)
    ensures RfcRemaining(Kept(before), init + [last]) == Step(Kept(before + init), last)
    decreases |init|
  {
    var segments := init + [last];
    if init == [] {
      assert before + init == before;
    } else {
      assert segments[1..] == init[1..] + [last];
      hide Kept, Step;
      KeptSnoc(before, init[0]);
      assert before + [init[0]] + init[1..] == before + init;
      RfcRemainingSnoc(before + [init[0]], init[1..], last);
    }
  }

  lemma RfcRemainingLast(init: seq<string>, last: string)
    ensures RfcRemaining([], init + [last]) == Step(Kept(init), last)
  {
    hide Step, RfcRemaining;
    KeptNothing();
    RfcRemainingSnoc([], init, last);
    assert [] + init == init;
  }

  /** One more segment neither opens nor closes a climb, unless it ends at the top. */
  lemma ClimbStep(segments: seq<string>, last: string)
    ensures var more := segments + [last];
      && (forall i :: 0 <= i < |segments| ==> (ToTop(more, i) <==> ToTop(segments, i) || Level(more) == 0))
      && (ToTop(more, |segments|) <==> Level(more) == 0)
  {
    var more := segments + [last];
    assert more[..|more|] == more;
    forall k | 0 <= k <= |segments| ensures more[..k] == segments[..k] {}
    forall i | 0 <= i < |segments| ensures ToTop(more, i) <==> ToTop(segments, i) || Level(more) == 0 {
      if ToTop(more, i) && Level(more) != 0 {
        var k :| i < k <= |more| && Level(more[..k]) == 0;
        assert Level(segments[..k]) == 0;
      }
      if ToTop(segments, i) {
        var k :| i < k <= |segments| && Level(segments[..k]) == 0;
        assert Level(more[..k]) == 0;
      }
    }
  }

  lemma ClimbedStep(init: seq<string>, last: string)
    ensures ClimbedOut(init + [last], |init| + 1) <==> Level(init + [last]) == 0 || (ClimbedOut(init, |init|) && last != "")
  {
    ClimbStep(init, last);
    hide ToTop, Level;
    var more := init + [last];
    assert more[|init|] == last && forall i :: 0 <= i < |init| ==> more[i] == init[i];
  }

  /** One segment on what the RFC and what the code has kept. */
  lemma KeptVersus(kept: seq<string>, remaining: seq<string>, last: string)
    requires |remaining| <= |kept| && (kept == remaining <==> |kept| == |remaining|)
    ensures
      var k, r := RfcStep(kept, last), Step(remaining, last);
      && |r| <= |k| && (k == r <==> |k| == |r|)
      && (|k| == |r| <==> |k| == 0 || (|kept| == |remaining| && last != ""))
  {
  }

  /** After any segments the RFC has kept at least as many as the code; the same number, and
      then the same ones, exactly when every empty segment was climbed out of. */
  lemma {:induction false} KeptAgainstRemaining(segments: seq<string>)
    ensures
      var kept, remaining := Kept(segments), Remaining([], segments);
      && |kept| == Level(segments) && |remaining| <= |kept|
      && (kept == remaining <==> ClimbedOut(segments, |segments|))
      && (|kept| == |remaining| <==> ClimbedOut(segments, |segments|))
    decreases |segments|
  {
    if segments == [] {
      assert ClimbedOut(segments, 0);
    } else {
      hide *;
      Snoc(segments);
      var init, last := segments[..|segments| - 1], segments[|segments| - 1];
      KeptAgainstRemaining(init);
      RemainingSnoc([], init, last);
      ClimbedStep(init, last);
      LevelAtTop(init, last);
      KeptVersus(Kept(init), Remaining([], init), last);
      KeptLength(Kept(init), last);
    }
  }

  lemma KeptLength(kept: seq<string>, last: string)
    ensures |RfcStep(kept, last)| ==
      if last == "." then |kept| else if last == ".." then (if |kept| == 0 then 0 else |kept| - 1) else |kept| + 1
  {
  }

  lemma LevelAtTop(init: seq<string>, last: string)
    ensures var segments := init + [last];
      && Level(segments) == (if last == "." then Level(init) else if last == ".." then (if Level(init) == 0 then 0 else Level(init) - 1) else Level(init) + 1)
      && Kept(segments) == RfcStep(Kept(init), last)
      && (last == "." && Level(init) == 0 ==> ClimbedOut(init, |init|))
  {
    var segments := init + [last];
    assert segments[..|init|] == init;
    if Level(init) == 0 {
      forall i | 0 <= i < |init| && init[i] == "" ensures ToTop(init, i) {
        assert init[..|init|] == init;
      }
    }
  }

  /** The last segment, which is never kept empty, may still complete a climb. */
  lemma LastAgainstRemaining(init: seq<string>, last: string)
    ensures Step(Kept(init), last) == Step(Remaining([], init), last) <==> ClimbedOut(init + [last], |init|)
  {
    KeptAgainstRemaining(init);
    hide Remaining, Kept;
    ClimbStep(init, last);
    LevelAtTop(init, last);
    hide ToTop, Level;
    var kept, remaining := Kept(init), Remaining([], init);
    if last == ".." {
      if |kept| > 1 && |kept| == |remaining| { assert ClimbedOut(init, |init|); }
    } else if last != "" && last != "." {
      assert (kept + [last])[..|kept|] == kept && (remaining + [last])[..|remaining|] == remaining;
    }
  }

  lemma {:induction false} PiecesInjective(p: seq<string>, q: seq<string>)
    requires forall i :: 0 <= i < |p| ==> Segment(p[i])
    requires forall i :: 0 <= i < |q| ==> Segment(q[i])
    requires Pieces(p) == Pieces(q)
    ensures p == q
    decreases |p|
  {
    if p != [] && q != [] {
      var m, n := |p| - 1, |q| - 1;
      WithoutLastPiece(Pieces(p[..m]), p[m]);
      WithoutLastPiece(Pieces(q[..n]), q[n]);
      PiecesInjective(p[..m], q[..n]);
      SameTail(Pieces(p[..m]), "/" + p[m], "/" + q[n]);
      assert ("/" + p[m])[1..] == p[m] && ("/" + q[n])[1..] == q[n];
      assert p == p[..m] + [p[m]] && q == q[..n] + [q[n]];
    }
  }

  lemma SameTail(a: string, x: string, y: string)
    requires a + x == a + y
    ensures x == y
  {
    assert (a + x)[|a|..] == x && (a + y)[|a|..] == y;
  }

  lemma {:induction false} RemainingSegments(parts: seq<string>, segments: seq<string>)
    requires forall i :: 0 <= i < |parts| ==> Segment(parts[i])
    requires forall i :: 0 <= i < |segments| ==> Segment(segments[i])
    ensures forall i :: 0 <= i < |Remaining(parts, segments)| ==> Segment(Remaining(parts, segments)[i])
    ensures segments != [] ==> forall i :: 0 <= i < |RfcRemaining(parts, segments)| ==> Segment(RfcRemaining(parts, segments)[i])
    decreases |segments|
  {
    if segments != [] {
      RemainingSegments(Step(parts, segments[0]), segments[1..]);
      RemainingSegments(RfcStep(parts, segments[0]), segments[1..]);
    }
  }

  lemma SegmentsExact(init: seq<string>, last: string)
    ensures Remaining([], init + [last]) == RfcRemaining([], init + [last]) <==> ClimbedOut(init + [last], |init|)
  {
    hide *;
    RfcRemainingLast(init, last);
    RemainingSnoc([], init, last);
    LastAgainstRemaining(init, last);
  }

  lemma PiecesExact(init: seq<string>, last: string)
    requires Segment(last) && forall i :: 0 <= i < |init| ==> Segment(init[i])
    ensures
      var segments := init + [last];
      PathText(Remaining([], segments)) == Pieces(RfcRemaining([], segments)) <==> ClimbedOut(segments, |init|)
  {
    hide *;
    var segments := init + [last];
    SegmentsExact(init, last);
    RemainingSegments([], segments);
    PiecesArePathText(Remaining([], segments));
    if Pieces(Remaining([], segments)) == Pieces(RfcRemaining([], segments)) {
      PiecesInjective(Remaining([], segments), RfcRemaining([], segments));
    }
  }

  /** Code and RFC agree on a path, up to a trailing slash, exactly when behind every empty
      segment but a last one the path climbs back to the top. */
  lemma AgreementExact(path: string)
    requires path != "" && path[0] == '/'
    ensures
      var segments := Split(path[1..]);
      NormalizedPath(path) == WithoutTrailingSlash(RemoveDotSegments(path, "")) <==> ClimbedOut(segments, |segments| - 1)
  {
    hide Split, RemoveDotSegments, WithoutTrailingSlash, Remaining, RfcRemaining, Pieces, PathText, ClimbedOut, Segment;
    RfcPath(path);
    SplitSegments(path[1..]);
    var segments := Split(path[1..]);
    Snoc(segments);
    PiecesExact(segments[..|segments| - 1], segments[|segments| - 1]);
  }

  lemma KeptNothing()
    ensures Kept([]) == []
  {
  }

  lemma EmptySegmentInCode()
    ensures NormalizedPath("//a") == "/a"
  {
    assert "//a"[1..] == "" + ("/" + "a");
    SplitFirst("", "a");
    SplitFirst("a", "");
    assert ["", "a"][1..] == ["a"] && ["a"][1..] == [];
    hide Split;
    assert Remaining(["a"], []) == ["a"] && Remaining([], ["a"]) == ["a"];
  }

  lemma EmptySegmentInRfc()
    ensures RemoveDotSegments("//a", "") == "//a"
  {
    OrdinarySegment("a", "", "/");
    NothingMore("//a");
    assert "/" + "a" + "" == "/a" && "/" + ("/" + "a") == "//a";
    assert RemoveDotSegments("/a", "/") == "//a";
    OrdinarySegment("", "/a", "");
    assert "/" + "" + "/a" == "//a" && "" + ("/" + "") == "/";
  }

  /** The shortest path on which the two part: the RFC keeps its empty segment. */
  lemma EmptySegmentDropped()
    ensures NormalizedPath("//a") == "/a" && WithoutTrailingSlash(RemoveDotSegments("//a", "")) == "//a"
  {
    hide NormalizedPath, RemoveDotSegments;
    EmptySegmentInCode();
    EmptySegmentInRfc();
  }
}
