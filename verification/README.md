# A model of the INTERLIS compiler's core, with proofs

The project models the parts of the compiler whose correctness is hard to see from the code,
and proves what they are for:

- **Session identity and cache keys** (`Sources`, `SourceEffects`, `ContentHashes`, `Keys`): the
  source manager as an object with a session of updates and removals, which refines a plain table
  of texts; the content hash, which notices every change of a single byte; and the
  length-prefixed cache keys. Over a whole session equal root keys mean equal requests, equal URI
  lists and equal bytes.
- **JSON** (`Json`, `JsonRoundTrip`, `JsonParser`, `JsonStrings`, `JsonGrammar`, `JsonPrinted`,
  `JsonStringFailures`, `JsonFailures`): the recursive-descent parser with its cursor and the
  printer. Parsing undoes printing for every value tree, the parser accepts exactly the documents
  of an independent grammar with their values, and the byte it names in a refused text is where
  the text stops being the beginning of a document.
- **Exact decimals** (`ExactDecimals`, `DecimalOrder`, `DecimalLiterals`): digit-string
  arithmetic against rational numbers, with the exact set of operands on which the comparison
  is wrong, and the fit of coordinate types built on it.
- **Import search and cardinalities** (`ImportSearch`, `ImportOrder`, `Cardinality`): depth-first
  search over import graphs that may be cyclic, which definition it finds, and specialisation
  along chains of roles.
- **Text positions** (`Utf8`, `RangeMapper`, `TextPositions`): the UTF-8 decoder against section 4
  of RFC 3629, the position tables against a fold over code points and against counting line
  feeds, the text handed to the lexer, and two further implementations of the same mapping.
- **Formatter** (`Formatter`, `FormatterLines`, `FormatterNesting`, `FormatterWritten`,
  `FormatterIdempotence`, `FormatterIndents`, `FormatterTheorems`, `FormatterEncoding`): the
  line-by-line state machine, its output as a function of the nesting of blocks, exactly when a
  second pass changes nothing, that only whitespace changes, and which texts pass for UTF-8.
- **Compile scheduler** (`Scheduler`): the passes compute a least fixpoint.
- **Repositories** (`Resolver`, `SiteLinks`, `SiteWalk`, `SiteTermination`, `RemoteUri`): the
  dependency resolver, the walk over linked repositories and exactly when it ends, and URI
  normalisation against section 5.2.4 of RFC 3986.
- **Diagnostics** (`Diagnostics`, `DiagnosticIdentity`, `DiagnosticPublication`,
  `DiagnosticTheorems`): which diagnostics count as the same, exactly which candidates are
  published, and that publishing is a canonical form that loses nothing unaccounted.
- **Editor token recovery** (`TokenRecovery`): rewriting the token stream.

`Decimal`, `Lex`, `Bytes` and `Options` hold decimal text, the order of byte strings, blanks
and optional values.

## Conventions

- Byte strings are `string` with one character for each byte, or `seq<Byte>` where the bytes'
  numeric values matter (`Utf8`, `RangeMapper`). Statements hold for every string of characters.
- Counters (`uint64_t`, `size_t`) and C++ `int` are unbounded; `stoi` in an exponent keeps its
  32-bit range. The FNV hash wraps at 2^64.
- A loop of the source is a method with a loop, proved equal to a recursive function; the
  theorems are about that function. Objects that change are classes.
- JSON numbers are the integers from -2^53 to 2^53. A lexeme with a fraction or an exponent, or
  with a greater magnitude, makes the parse `Inexact` (`NotExact` in the parser object): the
  model does not say what it yields. A sign without digits is refused by `stod`, which names no
  byte (`NoNumber`, `NotANumber`).
- `std::stable_sort` is an insertion sort that is proved sorted, stable and a rearrangement,
  which determines the result.
- `toLowerCase` on digests is modelled for ASCII letters, which is all a hexadecimal digest has.
- Finding, loading and cancellation in the resolver (a file that is not UTF-8 is a failed load), and index, site file and link resolution
  in the site walk, are functions given from outside.

## Where the unrestricted property is false

Each has its exact condition, proved in both directions for all inputs, and a failing input.
There are two exceptions: for `listModels`, whose visits depend on the order of the links, there
is a general condition for success and a general one for failure; and for the identity of
diagnostics there is a condition under which it is exact.

- `compare_exact_decimal` ranks zero against a number strictly between 0 and 1 the wrong way
  round, and only then: `DecimalOrder.CompareIsRationalOrder`. The fit of an axis is wrong exactly
  where such a comparison decides: `DecimalLiterals.AxisFitAgrees`,
  `DecimalLiterals.ZeroBoundMisjudged`.
- Formatting twice can differ from formatting once. It does exactly when the indent size is positive, some line opens a block
  before but not after its meta attribute is rewritten (or the reverse), another text line
  follows, and it is not the case that the line stands at the left margin and the next one closes
  a block: `FormatterTheorems.FormatTwice`, `FormatterTheorems.OpenMetaBreaksIdempotence`.
- `findModel` without a hit ends exactly when the links it can follow are finite and have no
  cycle, neither of parents nor of subsidiaries: `SiteTermination.EndsExactly`,
  `SiteTermination.SelfLinkNeverEnds`.
- `listModels` misses what can only be reached through the subsidiaries of a repository that is
  first visited as a parent: `SiteWalk.ListingMisses`, `SiteWalk.ListingMissesRepository`.
- Diagnostics that report different things can have the same identity when a field holds one of
  the separators U+001D, U+001E, U+001F. Without them equal identity means equal report:
  `DiagnosticIdentity.IdentityExact`, `DiagnosticIdentity.SeparatorsConfuse`.
- A primary diagnostic can vanish: an identity is published exactly when the first candidate of
  that identity is not a suppressed cascade: `DiagnosticTheorems.FirstDecides`,
  `DiagnosticTheorems.PrimaryVanishes`.
- The buffer's version and the identity's version part exactly when changed content is
  submitted with version 0: `Sources.VersionAgreementStep`.
- `sourcePosition` agrees with the mapper at all boundaries of a text exactly when every
  ill-formed byte of it lies in 0xc0 to 0xef; `utf8ByteOffset` agrees with the mapper for all
  offsets exactly when every ill-formed byte is a continuation byte, at least 0xf8, or the last
  byte: `RangeMapper.SourcePositionExact`, `RangeMapper.Utf8ByteOffsetExact`, with failing texts
  in `RangeMapper.IllFormedDisagrees` and `RangeMapper.IncompleteLeadSkips`.
- `cardinality_is_subset` is containment except exactly for a candidate that allows no number
  and has an end outside the base: `Cardinality.SubsetIsContainment`,
  `Cardinality.EmptyCardinalityRefused`.
- `normalizeRemote` removes dot segments from the path without its empty segments. It agrees with
  RFC 3986 exactly when behind every empty segment but a last one the path climbs back to the
  top: `RemoteUri.NormalizedIsRfc3986`, `RemoteUri.AgreementExact`, `RemoteUri.EmptySegmentDropped`.
- The formatter's UTF-8 check also accepts overlong forms, surrogates and values above 0x10ffff,
  and nothing else: `FormatterEncoding.ValidExactly`, `FormatterEncoding.OverlongAccepted`.
- Removing a source and registering the same bytes again changes the key:
  `Keys.ReintroductionChangesKey`, with `Keys.KeyEquality` as the exact condition.

## Model

| member | source | states |
|---|---|---|
| `Sources.ComputeContentHash` | source/core/SourceManager.cpp:13-25 | the loop computes the 64-bit FNV-1a value, wrap-around included, as 16 lower-case hexadecimal digits |
| `ContentHashes.XorBits` | source/core/SourceManager.cpp:18-20 | the exclusive or of a round, bit by bit |
| `ContentHashes.RoundUndone` | source/core/SourceManager.cpp:18-21 | a round loses nothing: multiplying by the inverse of the prime modulo 2^64 and the same byte again give back the hash before |
| `ContentHashes.HashText` | source/core/SourceManager.cpp:22-24 | the text of a hash is its number in hexadecimal, most significant digit first; the empty text has the offset |
| `ContentHashes.SingleByteChange` | source/core/SourceManager.cpp:13-25 | two texts that differ in one byte, wherever it is, have different hashes |
| `Sources.SourceManager.Update` | source/core/SourceManager.cpp:34-104 | result and whole new state of an update in each of its cases: rejected, unchanged, version only, content changed, added, reintroduced; what these are worth is stated by the four `SourceEffects` rows about updates |
| `Sources.SourceManager.Remove` | source/core/SourceManager.cpp:111-124 | whether the source was there, and the whole new state with the identity kept among the removed ones |
| `SourceEffects.UpdateEffect` | source/core/SourceManager.cpp:34-104 | accepted if and only if the URI is not empty, holds no NUL, and is not registered or the version is 0 or not older than the known one; a rejected update changes nothing; an accepted one stores exactly the text |
| `SourceEffects.UpdateLeavesOthers` | source/core/SourceManager.cpp:34-104 | all other URIs keep text, version and identity |
| `SourceEffects.UpdateRevises` | source/core/SourceManager.cpp:43-103 | a new content revision and generation if and only if the URI was not registered or its bytes differ; analyses are invalidated exactly then, the parser exactly when it was registered too; versions, hash and length of the new identity |
| `SourceEffects.UpdateReportsPrevious` | source/core/SourceManager.cpp:43-99 | the previous identity that is reported, and when the source counts as added or reintroduced |
| `SourceEffects.RemoveEffect` | source/core/SourceManager.cpp:111-124 | exactly this URI goes; its identity is remembered in a new generation |
| `SourceEffects.SessionRefinesTable` | source/core/SourceManager.cpp:34-124 | after any session the manager shows the texts and versions of a plain table that stores what is accepted |
| `Sources.UpdateKeepsValid` | source/core/SourceManager.cpp:34-104 | an update keeps the invariant: live buffers and identities have the same URIs, removed ones are disjoint, revisions are distinct and bounded by the counter, hash and length match the text |
| `Sources.RemoveKeepsValid` | source/core/SourceManager.cpp:111-124 | so does a removal |
| `Sources.RunValid` | source/core/SourceManager.cpp:34-124 | every state reached by any session satisfies the invariant |
| `Sources.RunIsLater` | source/core/SourceManager.cpp:34-124 | over any stretch of a session counters only grow, and a revision that is not newer belongs to the very text held before |
| `Sources.RevisionDeterminesBytes` | source/core/SourceManager.cpp:73-102 | for one URI, equal content revisions at any two moments of a session mean equal bytes, hash and length |
| `Sources.VersionNeverDecreases` | source/core/SourceManager.cpp:43-52 | one step never lowers the document version of a source that stays registered |
| `Sources.VersionMonotoneOverRun` | source/core/SourceManager.cpp:34-124 | nor does any stretch of a session without a removal of that source |
| `Sources.VersionAgreementStep` | source/core/SourceManager.cpp:50-103 | buffer version and identity version agree after an accepted change if and only if it is not a content change submitted with version 0 over a non-zero version |
| `Keys.ComputeRequestKey` | source/core/CompilationKeys.cpp:39-54 | the loops write the length-prefixed text whose injectivity is proved below |
| `Keys.ComputeRootKey` | source/core/CompilationKeys.cpp:56-67 | the loop writes the base, the fingerprint and one binding for each URI |
| `Keys.RequestKeyUnique` | source/core/CompilationKeys.cpp:39-54 | a request key is uniquely readable: followed by texts that do not start with a digit, equal texts have equal requests, field by field, and equal remainders |
| `Keys.RequestKeyInjective` | source/core/CompilationKeys.cpp:39-54 | different requests have different keys |
| `Keys.BindingUnique` | source/core/CompilationKeys.cpp:62-64 | one binding is uniquely readable although hash and numbers are not length-prefixed |
| `Keys.RootKeyUnique` | source/core/CompilationKeys.cpp:56-67 | equal root keys in two valid states mean equal requests, URI lists, revisions, hashes and lengths |
| `Keys.KeyEquality` | source/core/CompilationKeys.cpp:25-67 | at two moments of a session root keys are equal if and only if the requests and URI lists are and every listed URI has the same revision |
| `Keys.KeySoundness` | source/core/CompilationKeys.cpp:25-67 | equal root keys at two moments of any session: same request, same URIs, and each URI bound to identical bytes at both moments or missing at both |
| `Keys.ReintroductionChangesKey` | source/core/CompilationKeys.cpp:56-67 | the converse fails: removing and registering the same bytes gives another key |
| `JsonParser.Parser.String` | source/abi/Json.cpp:90-137 | reads a string as the grammar function does, with the cursor behind it, or fails with the same message at the same byte |
| `JsonParser.Parser.ParseUnicode` | source/abi/Json.cpp:109-131 | reads the four digits of an escape and yields their encoding, or fails at the byte behind the wrong digit; what the digits mean is stated by `JsonStrings.EscapeRead` |
| `JsonParser.Parser.Number` | source/abi/Json.cpp:139-154 | consumes sign, digits, fraction and exponent and yields the integer; a fraction, an exponent or a magnitude above 2^53 is outside the model |
| `JsonParser.Parser.Array` | source/abi/Json.cpp:77-88 | items in order, cursor behind the bracket, failures with message and byte |
| `JsonParser.Parser.Object` | source/abi/Json.cpp:60-75 | members assigned in order (a later duplicate key wins), cursor behind the brace |
| `JsonParser.Parser.ReadValue` | source/abi/Json.cpp:17-31 | reads one value as the grammar function does; the cursor advances |
| `JsonParser.ParseText` | source/abi/Json.cpp:211-217 | value, or failure message and byte, of a whole text; trailing content is refused. Which texts are accepted with which value is stated by `JsonGrammar.AcceptsExactlyDocuments`, what a failure says by `JsonFailures.FailureIsExact` |
| `JsonParser.QuoteText` | source/abi/Json.cpp:165-188 | the escaping loop writes exactly the text that `StringRoundTrip` reads back |
| `JsonParser.Print` | source/abi/Json.cpp:219-249 | the printing loops write exactly the text that `ValueRoundTrip` reads back |
| `JsonStrings.CodeUnitDecodes` | source/abi/Json.cpp:109-131 | the bytes of a four-digit escape that is no surrogate are the RFC 3629 encoding of its value and decode to it |
| `JsonStrings.EscapeRead` | source/abi/Json.cpp:99-133 | every short escape, the solidus included, and every four-digit escape, in either case of its digits, stands for what it means |
| `JsonStrings.StringRead` | source/abi/Json.cpp:90-137 | however its characters are spelled (raw, short or by digits), a string is read as the concatenation of what they mean, up to the closing quote |
| `JsonStrings.StringSpelling` | source/abi/Json.cpp:90-137 | and nothing else is read as a string |
| `JsonGrammar.DocRead` | source/abi/Json.cpp:17-162 | a document of the grammar, with any blanks, spellings and repeated keys, is read as its value, and the parser stops exactly behind it |
| `JsonGrammar.DocSpelling` | source/abi/Json.cpp:17-162 | whatever the parser reads as a value is such a document behind blanks |
| `JsonGrammar.AcceptsExactlyDocuments` | source/abi/Json.cpp:211-217 | a text is accepted with a value if and only if it is a document with that value between blanks |
| `JsonGrammar.ObjectHoldsLast` | source/abi/Json.cpp:60-75 | an object holds each key once, with the value of the last member of that key |
| `JsonPrinted.PrintedDoc` | source/abi/Json.cpp:219-249 | a printed value is the document with no blanks, shortest escapes and sorted keys that has this value |
| `JsonFailures.FailureIsExact` | source/abi/Json.cpp:43-46 | the byte named for a refused text: what is before it begins some document, the message tells what stands there, and no document begins with what is before it and a wrong byte there |
| `JsonRoundTrip.StringRoundTrip` | source/abi/Json.cpp:90-188 | every byte string, control characters included, is read back from its escaped form, up to the closing quote |
| `JsonRoundTrip.NumberRoundTrip` | source/abi/Json.cpp:139-154 | every integer within 2^53 is read back, stopping before text that does not continue a number |
| `JsonRoundTrip.ValueRoundTrip` | source/abi/Json.cpp:17-249 | parsing a printed value tree followed by such text yields the value and stops exactly at that text |
| `JsonRoundTrip.RoundTrip` | source/abi/Json.cpp:211-249 | `parse(stringify(v)) == v` for every tree with key-sorted objects |
| `JsonRoundTrip.ParsedIsWellFormed` | source/abi/Json.cpp:17-162 | whatever is parsed has sorted, distinct keys and exact numbers |
| `JsonRoundTrip.ReparseIsIdentity` | source/abi/Json.cpp:211-249 | printing a parsed text and parsing again gives the same value |
| `ExactDecimals.ParseMantissaLoop` | source/metamodel/SemanticChecker.cpp:575-606 | the loops over the digits compute sign, digits and scale without leading and trailing zeros, or reject |
| `ExactDecimals.ParseLoop` | source/metamodel/SemanticChecker.cpp:550-606 | the whole parse, with sign, exponent marker, `stoi` and its failures |
| `DecimalOrder.ParseCanonical` | source/metamodel/SemanticChecker.cpp:590-605 | a valid result is canonical: non-zero first and last digit, or zero without sign and scale |
| `DecimalOrder.TextOrderIsNumeric` | source/metamodel/SemanticChecker.cpp:626-630 | comparing padded digit texts compares their numbers |
| `DecimalOrder.CompareIsRationalOrder` | source/metamodel/SemanticChecker.cpp:608-632 | the comparison is the sign of the difference of the rational values if and only if it is not zero against a number strictly between 0 and 1, and there it is exactly reversed |
| `DecimalLiterals.ParseDenotesValue` | source/metamodel/SemanticChecker.cpp:550-606 | every literal (sign, point, e, E or S exponent) parses to the rational number it stands for |
| `DecimalLiterals.ExponentRead` | source/metamodel/SemanticChecker.cpp:566-573 | the exponent of any text: behind whitespace a sign and digits, whatever follows; none if there are no digits or the number is no 32-bit integer |
| `DecimalLiterals.LiteralValidExactly` | source/metamodel/SemanticChecker.cpp:562-573 | a literal of that shape is valid if and only if its exponent fits 32 bits |
| `DecimalLiterals.LiteralOrder` | source/metamodel/SemanticChecker.cpp:608-632 | the same exact statement about the literals' own values |
| `DecimalLiterals.CoordinateFitLoop` | source/metamodel/SemanticChecker.cpp:717-760 | the loop over the axes reports the first failing axis, its kind of failure and the actual and expected values |
| `DecimalLiterals.CoordinateFitExact` | source/metamodel/SemanticChecker.cpp:717-760 | for all bounds whatever: a coordinate type fits if and only if the dimensions agree and every axis passes both bound tests, where a test is the order of the numbers, reversed exactly for zero against a proper fraction, and the order of the texts when one is no decimal |
| `DecimalLiterals.CoordinateReport` | source/metamodel/SemanticChecker.cpp:717-760 | what is reported otherwise: a missing coordinate type, both dimensions when they differ, or the first axis that is missing or fails, counted from one, minimum before maximum, with the actual and the expected bound |
| `DecimalLiterals.AxisFitAgrees` | source/metamodel/SemanticChecker.cpp:739-756 | for decimal bounds the check of an axis is containment of its interval if and only if no reversed comparison decides it |
| `DecimalLiterals.ZeroBoundMisjudged` | source/metamodel/SemanticChecker.cpp:739-747 | a pair that is misjudged in both directions: minimum 0.5 is refused against 0, and 0 is accepted against 0.5 |
| `ImportSearch.DefinitionIn` | source/metamodel/SemanticChecker.cpp:634-652 | the first mapping of the domain in the model's contexts, and none exactly when there is none |
| `ImportSearch.DirectlyImported` | source/metamodel/SemanticChecker.cpp:654-666 | the imported models, most recent import first |
| `ImportSearch.DefinitionInImports` | source/metamodel/SemanticChecker.cpp:668-685 | ends on every finite graph; a result comes from a model reachable by imports; without one, everything newly visited is finished |
| `ImportSearch.VisibleDefinition` | source/metamodel/SemanticChecker.cpp:687-694 | a definition is returned if and only if the model itself or one reachable by one or more imports declares one, and it is one of theirs |
| `ImportOrder.FirstInExact` | source/metamodel/SemanticChecker.cpp:634-652 | the definition of one model is its first in declaration order |
| `ImportOrder.ImportsReversed` | source/metamodel/SemanticChecker.cpp:654-666 | the imported models stand in the reverse order of their import statements |
| `ImportOrder.FoundIsFirst` | source/metamodel/SemanticChecker.cpp:668-694 | the definition found in the imports is that of the model at the end of the first chain, in the order of the search, of different models that leads to one with a definition |
| `Cardinality.EffectiveIsNonNegative` | source/metamodel/SemanticChecker.cpp:405-432 | the effective minimum of a role is never negative |
| `Cardinality.NearestDecides` | source/metamodel/SemanticChecker.cpp:405-432 | the nearest role of the chain that defines a cardinality decides |
| `Cardinality.RootDecides` | source/metamodel/SemanticChecker.cpp:405-432 | if none does: 0..1 for a composition, 1..1 in a 2.4 model, and 0..* for any other role |
| `Cardinality.SubsetIsContainment` | source/metamodel/SemanticChecker.cpp:434-443 | the check agrees with containment of the allowed numbers if and only if the candidate is not an empty cardinality with an end outside the base; it never accepts what is not contained |
| `Cardinality.EmptyCardinalityRefused` | source/metamodel/SemanticChecker.cpp:434-443 | such an empty cardinality: 2..1 against 3..* |
| `Cardinality.ChainStaysWithinRoot` | source/metamodel/SemanticChecker.cpp:405-443 | if every link of a finite chain passes, the leaf's interval lies within the root's |
| `Utf8.DecodeExact` | source/core/SourceRangeMapper.cpp:20-49 | a decoded sequence is the RFC 3629 encoding of its scalar value with the right UTF-16 width; otherwise no prefix is well-formed and U+FFFD of width 1 results |
| `Utf8.DecodeEncode` | source/core/SourceRangeMapper.cpp:20-49 | every scalar value is decoded from its encoding, whatever follows |
| `Utf8.WellFormedIsSound` | source/core/SourceRangeMapper.cpp:20-49 | a text is well-formed by RFC 3629 if and only if nothing in it decodes as invalid |
| `Utf8.ComputeNormalized` | source/core/SourceRangeMapper.cpp:148-171 | the loop computes the text handed to the lexer |
| `Utf8.NormalizedAligns` | source/core/SourceRangeMapper.cpp:148-171 | that text is always well-formed, and its code points are the decoded ones of the source, U+FFFD for each ill-formed byte, plus one optional newline |
| `Utf8.NormalizedOfWellFormed` | source/core/SourceRangeMapper.cpp:152-165 | well-formed text reaches the lexer unchanged, apart from the newline |
| `RangeMapper.FillTables` | source/core/SourceRangeMapper.cpp:53-81 | after the loop every entry of both tables is the specified one, for every byte string |
| `RangeMapper.SourceRangeMapper.constructor` | source/core/SourceRangeMapper.cpp:53-81 | the object holds those tables |
| `RangeMapper.PositionsOfCodepoint` | source/core/SourceRangeMapper.cpp:64-68 | each byte of a code point has its own offset and the line and column of the code point's start |
| `RangeMapper.PositionOfBoundary` | source/core/SourceRangeMapper.cpp:69-77 | at a boundary the position is the fold over the code points before it |
| `TextPositions.PositionCounts` | source/core/SourceRangeMapper.cpp:69-77 | the line of a code point is the number of line feeds before it, its column the UTF-16 length of what stands before it on its line |
| `TextPositions.LastLineIs` | source/core/SourceRangeMapper.cpp:69-77 | which is the longest end of the text before it without a line feed |
| `RangeMapper.SourceRangeMapper.PositionFromByteOffset` | source/core/SourceRangeMapper.cpp:83-88 | lookup, clamped to the end |
| `RangeMapper.SourceRangeMapper.ByteOffsetFromCodepointOffset` | source/core/SourceRangeMapper.cpp:90-95 | the byte boundary of a code point, clamped to the last |
| `RangeMapper.SourceRangeMapper.CodepointRange` | source/core/SourceRangeMapper.cpp:97-115 | start and end of a range are the folds at its clamped ends, never crossing |
| `RangeMapper.TokenBytes` | source/core/SourceRangeMapper.cpp:111-126 | a token's code point range in the lexer's text maps back to exactly the bytes that decode to these code points |
| `RangeMapper.SourcePosition` | source/core/CompilationSourceStore.cpp:8-25 | the byte loop is a fold over the bytes before the clamped offset |
| `RangeMapper.SourcePositionExact` | source/core/CompilationSourceStore.cpp:8-25 | it gives the mapper's position at all boundaries of a text if and only if every ill-formed byte lies in 0xc0 to 0xef, well-formed text included |
| `RangeMapper.SoundIsFoldAligned` | source/core/CompilationSourceStore.cpp:8-25 | well-formed text meets that condition |
| `RangeMapper.IllFormedDisagrees` | source/core/CompilationSourceStore.cpp:13-23 | on a lone continuation byte the columns differ |
| `RangeMapper.Utf8ByteOffset` | source/metamodel/MetaModelBuilder.cpp:370-383 | the loop skips code points by their lead bytes, clamped to the end |
| `RangeMapper.Utf8ByteOffsetExact` | source/metamodel/MetaModelBuilder.cpp:370-383 | it is the mapper's code point table with clamping, for all offsets, if and only if every ill-formed byte is a continuation byte, at least 0xf8, or the last byte |
| `RangeMapper.SoundIsLeadAligned` | source/metamodel/MetaModelBuilder.cpp:370-383 | well-formed text meets that condition |
| `RangeMapper.IncompleteLeadSkips` | source/metamodel/MetaModelBuilder.cpp:375-380 | behind a lead byte without its continuation it skips a character |
| `FormatterLines.TrimParts` | source/core/Formatter.cpp:54-61 | trimming removes a blank prefix and a blank suffix and nothing else, and leaves no blank at either end |
| `FormatterLines.TrimUnique` | source/core/Formatter.cpp:54-61 | only one text results that way |
| `Formatter.SplitLines` | source/core/Formatter.cpp:96-106 | lines without their ends |
| `FormatterIdempotence.LinesOfJoin` | source/core/Formatter.cpp:96-106 | splitting what was written line by line gives the lines back |
| `Formatter.CountLineEndings` | source/core/Formatter.cpp:108-118 | the dominant line ending |
| `FormatterWritten.LineEndingExactly` | source/core/Formatter.cpp:108-118 | CRLF if and only if more line feeds stand behind a carriage return than not |
| `FormatterIdempotence.EndingOfJoin` | source/core/Formatter.cpp:108-118 | a text written with one line ending has that one dominant |
| `Formatter.CheckUtf8` | source/core/Formatter.cpp:120-136 | the loops decide the formatter's notion of valid UTF-8 |
| `FormatterEncoding.ValidExactly` | source/core/Formatter.cpp:120-136 | it accepts exactly the concatenations of RFC 3629 characters, overlong forms, surrogates and values above 0x10ffff |
| `FormatterEncoding.WellFormedIsValid` | source/core/Formatter.cpp:210-219 | well-formed text is accepted and not converted |
| `FormatterEncoding.OverlongAccepted` | source/core/Formatter.cpp:126-133 | an ill-formed text that is accepted |
| `FormatterLines.Latin1IsValid` | source/core/Formatter.cpp:138-150 | whatever is converted is valid afterwards |
| `FormatterEncoding.ConversionDecodes` | source/core/Formatter.cpp:138-150 | the converted text decodes to the bytes of the given one |
| `FormatterLines.CanonicalFixed` | source/core/Formatter.cpp:87-94 | the canonical meta attribute is a fixed point after trimming and keeps first and last character |
| `FormatterWritten.MetaSpacing` | source/core/Formatter.cpp:87-94 | the blanks around the name and the value of a meta attribute go, one comes behind the marker |
| `FormatterLines.CanonicalOpens` | source/core/Formatter.cpp:69-94 | it opens a block exactly when the line did, unless it is a meta attribute ending in `=` |
| `FormatterLines.EraseCanonical` | source/core/Formatter.cpp:87-94 | it changes whitespace only |
| `Formatter.FormatLine` | source/core/Formatter.cpp:259-273 | text written for one line and the next indent and comment state, by the running state; without it by `FormatterWritten.FormatWrites` |
| `Formatter.WriteLines` | source/core/Formatter.cpp:245-276 | the output of the loop over all lines |
| `Formatter.FormatText` | source/core/Formatter.cpp:206-281 | the whole result: text, diagnostics, applicability, change; their meaning is stated by `FormatterWritten.FormatWrites` and `FormatterWritten.AppliesExactly` |
| `FormatterWritten.AppliesExactly` | source/core/Formatter.cpp:206-242 | formatted if and only if the text names version 2.3 or 2.4, otherwise returned as read; both diagnostics and the change flag exactly |
| `FormatterWritten.FormatWrites` | source/core/Formatter.cpp:243-280 | the output as a function of the source without any running state: each line by its depth, blank runs as one line, the dominant line ending |
| `FormatterNesting.BeginsIsOpens` | source/core/Formatter.cpp:63-85 | the lines that begin a block: those ending in `(`, those with one of twelve words as word ending in `=`, and view headers without either |
| `FormatterNesting.EndsIsCloses` | source/core/Formatter.cpp:260-260 | the lines that end one: those whose first word is END, and those starting with `)` |
| `FormatterNesting.LevelIsDepth` | source/core/Formatter.cpp:259-273 | the level of a line is its depth, the number of earlier block lines not matched before or by it |
| `FormatterNesting.InsideDeeper` | source/core/Formatter.cpp:259-273 | lines inside a block lie deeper than its first line, those directly inside by one |
| `FormatterNesting.MatchingLevel` | source/core/Formatter.cpp:259-273 | the line that ends a block lies as deep as the one that begins it |
| `FormatterWritten.WrittenIndent` | source/core/Formatter.cpp:261-267 | a line has indent size times depth leading blanks, and one more if it continues a comment |
| `FormatterWritten.BlockAligned` | source/core/Formatter.cpp:259-273 | first and last line of a block start in the same column, what is directly inside one unit further, everything inside at least that |
| `FormatterIdempotence.SkeletonOfRender` | source/core/Formatter.cpp:251-274 | reading the output back yields the canonical form of what was read first: blank runs, comment state and lines survive |
| `FormatterIdempotence.RenderTwice` | source/core/Formatter.cpp:251-274 | two renderings are equal if and only if their indentations are (or the unit is empty) |
| `FormatterIndents.LevelsExact` | source/core/Formatter.cpp:259-273 | both passes write the same levels if and only if every line that opens a block in only one of them is the last, or stands at the left margin before a closing line |
| `FormatterIndents.TurnsOnlyOpenMeta` | source/core/Formatter.cpp:69-94 | such a line is a meta attribute that ends in `=` |
| `FormatterTheorems.SecondPass` | source/core/Formatter.cpp:243-280 | the output is valid UTF-8, still a supported version, and formatting it again returns it if and only if that condition on the lines holds or the indent size is 0 |
| `FormatterTheorems.FormatTwice` | source/main/ilic_format.cpp:38-42 | for every accepted source the second call succeeds without diagnostics and returns the first result under exactly that condition |
| `FormatterTheorems.FormatIdempotent` | source/main/ilic_format.cpp:38-42 | formatting is idempotent on every accepted source in which no trimmed line starting with `!!@` ends in `=` |
| `FormatterTheorems.OpenMetaBreaksIdempotence` | source/main/ilic_format.cpp:38-42 | a three-line source with such a line for which it is not, for every positive indent size |
| `FormatterTheorems.FormatKeepsText` | source/core/Formatter.cpp:243-280 | input (converted to UTF-8) and output differ in whitespace only |
| `Scheduler.CompileFile` | source/core/CompilationRun.cpp:34-76 | a file is compiled if and only if it is there, supported, not yet compiled and ready; the return value in every case |
| `Scheduler.Pass` | source/core/CompilationRun.cpp:172-177 | a pass only adds files that every fixpoint contains, adds one unless the set is closed, and reports whether all is settled |
| `Scheduler.RunPasses` | source/core/CompilationRun.cpp:168-180 | the loop over the passes ends with the least fixpoint, the built-in file first |
| `Scheduler.Schedule` | source/core/CompilationRun.cpp:168-183 | each file is compiled at most once and after the models it requires; what is compiled is the least fixpoint of "ready", and exactly the files that occur in some admissible order; size + 1 passes suffice; the ordering error is reported if and only if a listed file is missing, or supported and left out |
| `Scheduler.LeastIsUnique` | source/core/CompilationRun.cpp:168-183 | the set is therefore independent of the order of the files |
| `Resolver.Resolution.Refusal` | packages/repository-core/repository-manager-core.js:52-64 | exactly when cancellation, depth limit or cycle is reported, in this order; a reported cycle is one, and reachable from the requested model |
| `Resolver.Resolution.StoreFile` | packages/repository-core/repository-manager-core.js:82-111 | a file is taken once, with the content and digest loaded for it, behind the files of all dependencies; a second model in it is only checked against that digest |
| `Resolver.Resolution.FetchOnStack` | packages/repository-core/repository-manager-core.js:66-111 | on success the model has a usable file and all dependencies are resolved; the stack is as before |
| `Resolver.Resolution.ResolveOne` | packages/repository-core/repository-manager-core.js:50-114 | keeps order and placement, restores the stack, resolves the model or reports a failure that something the root needs explains; ends by remaining depth |
| `Resolver.Resolution.ResolveWorkspace` | packages/repository-core/repository-manager-core.js:116-122 | all requested models are resolved and their files are in the output with the content loaded for them, or the failure is explained; an unobstructed request can only meet the model limit, with that many files in the output, and succeeds when the files it needs number fewer than the limit |
| `Resolver.Resolution.ResolvedContent` | packages/repository-core/repository-manager-core.js:82-111 | the file of every resolved model is in the output with the content loaded from its address; its digest is the announced one when digests are validated, unless it was loaded for this model itself |
| `Resolver.LowerIgnoresCase` | packages/repository-core/repository-manager-core.js:88-92 | digests that differ in the case of letters only count as equal, and no others |
| `Resolver.ReachableIsResolved` | packages/repository-core/repository-manager-core.js:72-112 | everything reachable from a resolved model (INTERLIS excepted) is resolved, strictly earlier |
| `Resolver.SuccessMeansAcyclic` | packages/repository-core/repository-manager-core.js:59-64 | no cycle is reachable from a resolved model |
| `Resolver.OutputDistinct` | packages/repository-core/repository-manager-core.js:86-110 | output URIs are pairwise different |
| `Resolver.OutputFits` | packages/repository-core/repository-manager-core.js:82-110 | every output file belongs to a model that a requested one needs, so there are no more files than needed addresses |
| `Resolver.DependenciesFirst` | packages/repository-core/repository-manager-core.js:72-110 | the files of an entry's dependencies have smaller indices |
| `SiteLinks.NormalizedSeeds` | packages/repository-core/repository-graph-walker.js:11-25 | the seeds that normalise, each once, in order of first occurrence |
| `SiteLinks.SeedsInOrder` | packages/repository-core/repository-graph-walker.js:11-25 | each seed stands in the order of its first spelling |
| `SiteLinks.ResolvedInOrder` | packages/repository-core/repository-graph-walker.js:27-36 | links are resolved one by one, in the order written; what does not resolve is left out |
| `SiteLinks.LinksOf` | packages/repository-core/repository-graph-walker.js:27-36 | parents come from the parent sites of a site file, subsidiaries from its subsidiary sites |
| `SiteLinks.ModelsInOrder` | packages/repository-core/repository-graph-walker.js:102-112 | the models of a listing are those of the visited indexes, one after the other |
| `SiteWalk.Walk.VisitIndex` | packages/repository-core/repository-graph-walker.js:38-51 | an index is asked only when new and within the limit; a hit is the first among all visited |
| `SiteWalk.Walk.Visit` | packages/repository-core/repository-graph-walker.js:102-112 | the same for a listing, with the models collected in visiting order |
| `SiteWalk.Walk.TakeParent` | packages/repository-core/repository-graph-walker.js:71-77 | one round of the search: first in, first out, links followed even when visited before |
| `SiteWalk.Walk.DrainParents` | packages/repository-core/repository-graph-walker.js:123-130 | empties the queue of parents on any link graph |
| `SiteWalk.Walk.ListModels` | packages/repository-core/repository-graph-walker.js:97-144 | ends on every link graph; no index is asked twice nor more than the limit; the models are those of the visited indexes; the visits begin with the seeds; unless the limit is hit, parents are closed; nothing is visited that the seeds do not lead to, nor behind the subsidiaries of an early parent |
| `SiteWalk.ListingExact` | packages/repository-core/repository-graph-walker.js:113-141 | if no repository with subsidiaries of its own is reached both as parent and as subsidiary, a listing visits the least closed region |
| `SiteWalk.ListingMisses` | packages/repository-core/repository-graph-walker.js:131-141 | on any network, what can only be reached through the subsidiaries of a non-seed repository in the parent closure of the seeds is never listed |
| `SiteWalk.ListingMissesRepository` | packages/repository-core/repository-graph-walker.js:131-141 | a network with three repositories of which one is missed, though it lies in every closed region |
| `SiteWalk.Walk.FindModel` | packages/repository-core/repository-graph-walker.js:53-95 | a hit comes from the first repository in visiting order that has one; without a hit and below the limit everything the seeds lead to was visited; without a hit the search is over after a number of rounds if and only if both queues are empty then, and then the links are finite and acyclic |
| `SiteTermination.EndsExactly` | packages/repository-core/repository-graph-walker.js:62-95 | a search without a hit ends if and only if the seeds lie in finite sets closed under the links it follows, without a cycle of parents or of subsidiaries |
| `SiteTermination.EnoughRounds` | packages/repository-core/repository-graph-walker.js:62-95 | then every sufficiently large number of rounds empties both queues, otherwise none does |
| `SiteTermination.AcyclicEnds` | packages/repository-core/repository-graph-walker.js:62-95 | an explicit number of rounds: the unfolded size of what is queued, plus one |
| `SiteTermination.SelfLinkNeverEnds` | packages/repository-core/repository-graph-walker.js:70-93 | a seed that links to itself, as parent or as subsidiary, keeps the search going for ever |
| `RemoteUri.NormalizeSegments` | packages/repository-core/repository-uri.js:45-51 | the loop that drops empty and dot segments and pops for double dots |
| `RemoteUri.NormalizeRemote` | packages/repository-core/repository-uri.js:37-53 | suffix, authority and path taken apart and put together again |
| `RemoteUri.SchemeExactly` | packages/repository-core/repository-uri.js:57-57 | http and https are recognised in any case of their letters, and nothing else is |
| `RemoteUri.PartsKept` | packages/repository-core/repository-uri.js:37-53 | scheme, authority and query or fragment stay as they are; only the path changes |
| `RemoteUri.NormalizedFixed` | packages/repository-core/repository-uri.js:37-53 | normalising is idempotent on every http or https input and keeps the scheme |
| `RemoteUri.NormalizedIsRfc3986` | packages/repository-core/repository-uri.js:45-52 | for every path it is `remove_dot_segments` of section 5.2.4 of RFC 3986 on the path without its empty segments, up to a trailing slash |
| `RemoteUri.AgreementExact` | packages/repository-core/repository-uri.js:45-52 | it agrees with `remove_dot_segments` on the path itself if and only if behind every empty segment but a last one the path climbs back to the top |
| `RemoteUri.AgreesWithRfc3986` | packages/repository-core/repository-uri.js:45-52 | in particular for paths whose only empty segment may be the last |
| `RemoteUri.EmptySegmentDropped` | packages/repository-core/repository-uri.js:47-47 | the shortest path on which the two differ |
| `Diagnostics.NormalizeMessage` | source/diagnostics/DiagnosticPipeline.cpp:36-52 | the loops compute the message with single blanks and none at the end |
| `DiagnosticPublication.MessageKeepsWords` | source/diagnostics/DiagnosticPipeline.cpp:36-52 | a normalised message has the same words in the same order, single blanks between them and none at the end |
| `DiagnosticTheorems.NormalizedMessageFixed` | source/diagnostics/DiagnosticPipeline.cpp:36-52 | message normalisation is idempotent |
| `Diagnostics.NormalizeDiagnostic` | source/diagnostics/DiagnosticPipeline.cpp:73-102 | the normalised diagnostic and the two counts |
| `DiagnosticTheorems.NormalizedFixed` | source/diagnostics/DiagnosticPipeline.cpp:73-102 | normalisation is idempotent in every field, the fingerprint included |
| `DiagnosticPublication.NormalizationKeeps` | source/diagnostics/DiagnosticPipeline.cpp:73-102 | field by field: gaps are filled from defaults and the catalog, an impossible range is repaired, everything else stays |
| `DiagnosticPublication.RelatedRuns` | source/diagnostics/DiagnosticPipeline.cpp:91-97 | of each run of related entries with the same place and message the first stays |
| `DiagnosticPublication.NotesKept` | source/diagnostics/DiagnosticPipeline.cpp:98-100 | empty notes go, all others stay in order |
| `DiagnosticIdentity.RangeKeyExact` | source/diagnostics/DiagnosticPipeline.cpp:29-34 | two ranges have the same key if and only if both are invalid, or both are valid with the same URI, start and end, whatever the URIs are |
| `DiagnosticIdentity.IdentityExact` | source/diagnostics/DiagnosticPipeline.cpp:54-64 | without separators in the fields, two diagnostics have the same identity if and only if code, severity, source, place, normalised message, error flag, related entries and notes agree |
| `DiagnosticIdentity.SameReportSameIdentity` | source/diagnostics/DiagnosticPipeline.cpp:54-64 | agreement in these fields gives the same identity whatever they hold |
| `DiagnosticIdentity.SeparatorsConfuse` | source/diagnostics/DiagnosticPipeline.cpp:54-64 | with a separator in a note, one note and two have the same identity |
| `Diagnostics.Deduplicate` | source/diagnostics/DiagnosticPipeline.cpp:104-114 | first occurrences in order, and how many were removed; what counts as the same is stated by `DiagnosticIdentity.IdentityExact` |
| `DiagnosticPublication.KeptExactly` | source/diagnostics/DiagnosticPipeline.cpp:104-114 | what stays are exactly the candidates that no earlier one agrees with in the reported fields |
| `DiagnosticTheorems.DedupRepresents` | source/diagnostics/DiagnosticPipeline.cpp:104-114 | everything removed has an equal identity with an earlier survivor |
| `Diagnostics.SuppressCascades` | source/diagnostics/DiagnosticPipeline.cpp:116-131 | what survives the causes, in order, and how many do not |
| `DiagnosticTheorems.SuppressedHasCause` | source/diagnostics/DiagnosticPipeline.cpp:116-131 | only cascaded diagnostics are suppressed, and each depends on the cause of a surviving one that is not cascaded |
| `DiagnosticPublication.SuppressedExactly` | source/diagnostics/DiagnosticPipeline.cpp:116-131 | a candidate is suppressed if and only if it is a cascade that depends on the cause of a candidate that is none |
| `DiagnosticTheorems.BeforeIsKeyOrder` | source/diagnostics/DiagnosticPipeline.cpp:133-152 | the comparison is the lexicographic order of keys |
| `DiagnosticTheorems.BeforeIsStrictWeak` | source/diagnostics/DiagnosticPipeline.cpp:133-152 | hence a strict weak order, as the sort demands |
| `DiagnosticPublication.RankTable` | source/diagnostics/DiagnosticPipeline.cpp:133-152 | errors rank before warnings, information and hints, and the phases as the compiler passes through them |
| `DiagnosticTheorems.StableSortCorrect` | source/diagnostics/DiagnosticPipeline.cpp:133-152 | sorted, the same candidates, and equal keys keep their order |
| `Diagnostics.Publish` | source/diagnostics/DiagnosticPipeline.cpp:154-166 | the published sequence, and candidates = published + duplicates removed + cascades suppressed; which candidates these are is stated by `DiagnosticPublication.PublishedExactly` |
| `DiagnosticPublication.PublishedExactly` | source/diagnostics/DiagnosticPipeline.cpp:154-166 | a candidate is published if and only if it is the first to report what it reports and no cascade of such a first candidate |
| `DiagnosticPublication.PublishedReportsDiffer` | source/diagnostics/DiagnosticPipeline.cpp:154-166 | no two published diagnostics report the same |
| `DiagnosticPublication.ErrorsFirst` | source/diagnostics/DiagnosticPipeline.cpp:133-166 | at one place errors are published before everything else |
| `DiagnosticPublication.CountsExactly` | source/diagnostics/DiagnosticPipeline.cpp:73-102 | the statistics count exactly the candidates with an impossible range and those with an unknown code |
| `DiagnosticTheorems.PublishedIsCanonical` | source/diagnostics/DiagnosticPipeline.cpp:154-166 | published diagnostics are sorted, normal and have pairwise different identities |
| `DiagnosticTheorems.RepublishIsIdentity` | source/diagnostics/DiagnosticPipeline.cpp:154-166 | publishing them again as fresh candidates of one producer returns the same sequence |
| `DiagnosticTheorems.NothingLost` | source/diagnostics/DiagnosticPipeline.cpp:104-166 | every candidate is published, or suppressed because of a published diagnostic, or represented by an earlier equal one |
| `DiagnosticTheorems.FirstDecides` | source/diagnostics/DiagnosticPipeline.cpp:104-131 | the identity of a candidate is published if and only if the first candidate of that identity is not a suppressed cascade |
| `DiagnosticTheorems.PrimaryVanishes` | source/diagnostics/DiagnosticPipeline.cpp:104-131 | hence a primary diagnostic can vanish behind an equal cascaded one |
| `TokenRecovery.NextDefault` | source/core/SnapshotParserSupport.h:96-105 | the next token on the default channel, with only hidden ones between |
| `TokenRecovery.BareModelHeaderBefore` | source/core/SnapshotParserSupport.h:107-144 | true if and only if the two visible tokens before are MODEL NAME (a hidden MODEL at the very start of the stream passes for a visible one); the branches for parentheses and NOINCREMENTALTRANSFER never decide |
| `TokenRecovery.BareHeaderOnDefault` | source/core/SnapshotParserSupport.h:107-144 | with NAME and MODEL on the default channel only, both tokens are there |
| `TokenRecovery.EditorRecoveryTokenStream.RecoverBareModelHeaders` | source/core/SnapshotParserSupport.h:59-91 | exactly the bare headers are completed with four tokens, indices are renumbered, and without any the stream is untouched |
| `TokenRecovery.RewrittenLength` | source/core/SnapshotParserSupport.h:74-85 | n + 4k tokens |
| `TokenRecovery.HeaderCompleted` | source/core/SnapshotParserSupport.h:76-85 | the four tokens before a recovered sign are AT "" VERSION "1" at the place of the sign |
| `TokenRecovery.RewritingKeepsReal` | source/core/SnapshotParserSupport.h:74-90 | without the synthetic tokens the stream is the original one |
| `TokenRecovery.SecondRunInsertsNothing` | source/core/SnapshotParserSupport.h:59-91 | in a rewritten stream nothing is left to recover |

## Left out

- `JsonParser.Parser.Number`: JSON numbers with a fraction or an exponent, or beyond 2^53 (`stod`, `setprecision(15)`), and what `\u` surrogate pairs should mean; a `\u` escape is read as the code reads it.
- Syntax validation in the formatter: the ANTLR grammars are not part of this model, so `requireValidSyntax` is off.
- `SiteWalk.Walk.FindModel`: takes a number of rounds, since the original does not end on cyclic or infinite links; the contract says exactly when the rounds suffice.
- `DiagnosticIdentity.IdentityExact`: the condition is sufficient only: a separator in a field need not lead to a confusion.
- `SiteWalk.ListingExact`: the condition is sufficient only, because what a listing visits depends on the order in which parents and subsidiaries are met.
- Caches, impact analysis and invalidation rules of the incremental session.
- Loading of files and models, logging and transcripts; the scheduler takes the loaded file list as given.
- Diagnostics of the repository packages, version selection, transport, MD5 and XML decoding.
- Local, UNC and drive paths in repository URIs.
- Null tokens in the token stream, which the token source never delivers.
- Expression typing, the metamodel visitor, output generators and projections, which would only add easy or repetitive members.
