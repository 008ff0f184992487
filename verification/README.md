# JSON Voorhees in Dafny

A model of the JSON Voorhees library, with proofs. It follows a JSON text through the whole library: the scanner, the
tokenizer, the recursive-descent parser with its three failure modes, the tree, and the compact and pretty encoders.
Beside that pipeline stand the string codec (JSON escapes, UTF-8, UTF-16), the operations on trees (access by path,
traversal, comparison, diff, merge with coercion), the text form of paths, and the registries behind `formats`.

`dafny verify dfyconfig.toml` checks the project. One file is one module; each follows a source file or states
theorems about several.

| files | about |
|---|---|
| `Bytes`, `Json`, `Integers` | byte strings and their order, the tree with the `std::map` operations on members, decimal integers |
| `Utf8`, `StringCodec`, `CodecTheorems`, `Utf16` | char_convert.cpp |
| `TokenPatterns`, `NumberGrammar`, `Tokenizer`, `Scanning` | detail/token_patterns.cpp and tokenizer.cpp; the first token of every text |
| `ParserSpec`, `Parser` | parse.cpp: what the parser does, as functions on the state of `parse_context`, and the class that does it |
| `Grammar`, `GrammarTheorems`, `FailureModes`, `Positions` | the language of the parser over tokens, how its modes relate, where its problems are |
| `Recovery`, `RecoveryRuns`, `RecoveryDerivations`, `RecoveryTheorems`, `RepeatedKeys` | what the parser keeps and reports of every text, good or bad, as a grammar with flaws |
| `Policies` | comments, trailing commas and the two presets |
| `Encoder`, `Layout`, `RoundTrip`, `Reprinting` | encode.cpp, what stands between the tokens, and parsing what was printed |
| `Rfc8259`, `Conformance`, `EncoderConformance` | JSON texts character by character; that the parser accepts them and the encoders write them |
| `StrictConformance`, `Acceptance` | exactly which JSON texts given rules accept; that nothing else is accepted without what RFC 8259 does not know |
| `Paths`, `Traverse`, `Compare`, `Diff`, `Merge` | value.cpp, algorithm_traverse.cpp, algorithm.hpp, algorithm_diff.cpp, algorithm_merge.cpp with coerce.cpp |
| `PathText`, `PathSyntax` | path.cpp: the round trip, and which texts are read as what |
| `Formats` | serialization.cpp |

## How the model is built

A byte is a number below 256, a string is a sequence of bytes, and an object is a list of members in key order, the
order in which `std::map` iterates. Methods carry the loops and the state of the source and are proved equal to
functions; the theorems are about those functions. An exception is a result that says what was thrown.

Masks and shifts are written as division and remainder. `Utf8.MaskRanges`, `Utf8.PayloadMask` and
`StringCodec.HighMarkBits` show on bit vectors that this is the same.

The parser's specification keeps every problem. `fail_immediately` throws the first; the other modes keep the first
`max_failures`, which `collect_all` throws in the end and `ignore` drops with the context. The class `ParseContext` is
proved to do so in all three modes at once.

Two grammars over tokens say what the parser does without mentioning it. `Grammar` derives the texts that are accepted.
`Recovery` derives every text: its derivations have places for invalid tokens, missing commas and colons, keys that are
no strings and containers that are cut off, and they say which value is kept and which problems are reported where.

Things outside the library become parameters or contracts: `isprint`, `isalnum` and `isalpha` are those of the C
locale; `strtoul` and `strtoull` saturate and negate modulo 2^64; `boost::lexical_cast<size_t>` negates modulo 2^64;
how doubles are printed, compared, cut to an integer and found to be zero are functions that the encoders, `compare`
and merging take as arguments, and sums of doubles stay symbolic; integer addition wraps at 64 bits, which is what
two's complement hardware does where the C++ standard leaves overflow undefined.

## What turned out otherwise than the documentation suggests

- Under the two UTF-8 decoders `string_decode(string_encode(s))` is `s` exactly for well-formed UTF-8. Stray bytes and
  overlong forms come back repaired. Lone surrogates do not come back, and code points above U+10FFFF either do not or
  come back as another character.
- Under CESU-8 lone surrogates do come back, and everything outside the basic plane, well-formed or not, comes back as
  six bytes.
- Integers outside int64 are accepted, and what is returned is another integer: the one that is equal modulo 2^64, or -1
  from a magnitude of 2^64 on. `-9223372036854775809` is read as 9223372036854775807.
- Strict UTF-8 refuses an unescaped DEL in a string.
- `match_number` takes leading zeros. Strict numbers refuse a zero before a point or an exponent, such as `0.5`, and
  accept padded negative numbers, such as `-01`.
- `convert_to_narrow` refuses a surrogate pair at the very end of its input, so that the round trip through
  UTF-16 fails exactly for texts that end outside the basic plane.
- `value::path` is all or nothing except for an index equal to the greatest `size_t`: the new size wraps to zero, and
  the array is emptied before out_of_range is thrown.
- Recovery after a problem loses good items: an invalid token uses up the separator after it, so that the next item is
  taken for a missing comma and dropped as well; where a comma is missing the next item is dropped; and a container that
  is cut off keeps its items, but is itself dropped by the one around it.
- At the end of the input each further call of `next` adds a line, so that each array around a cut-off array reports it
  one line further down.
- `diff` drops what two unequal members under one key have in common.
- `path::create` undoes `to_string` exactly for paths whose keys need no escaping and, where they are written after a
  dot, start with a letter.

## Model

| member | source | states |
|---|---|---|
| Bytes.CompareBytesSign | include/jsonv/algorithm.hpp:75-85 | string comparison is zero exactly on equal strings, and swapping the arguments flips its sign |
| Bytes.CompareBytesTransitive | include/jsonv/algorithm.hpp:75-85 | string comparison is transitive, strictly so when either step is strict |
| Bytes.CompareBytesAt | include/jsonv/algorithm.hpp:75-85 | strings are decided by the first byte that differs, unsigned, and a proper prefix is less |
| Json.FindPut | src/jsonv/object.cpp:135-139 | after an assignment to a key, that key holds the value and every other key what it held |
| Json.PutSorted | src/jsonv/object.cpp:135-139 | assignment keeps members in strict key order |
| Json.SameLookups | src/jsonv/object.cpp:189-193 | two objects in key order that answer every lookup alike are the same object |
| Integers.ReadsBack | src/jsonv/parse.cpp:438-460 | every int64 that is printed is read back, negative ones modulo 2^64 |
| Integers.NoLeadingZero | src/jsonv/encode.cpp:122-125 | a printed integer has no leading zero unless it is zero |
| Integers.NaturalFromTheLeft | src/jsonv/parse.cpp:438-460 | the value of a numeral is that of its decimal digits read from the left |
| Utf8.MaskRanges | src/jsonv/char_convert.cpp:112-181 | the bit tests on lead and continuation bytes are range tests |
| Utf8.PayloadMask | src/jsonv/char_convert.cpp:133-205 | the bit masks leave the distance of a byte from the start of its range |
| Utf8.ExtractCode | src/jsonv/char_convert.cpp:183-205 | the loop accumulates six bits per continuation byte and fails on the first byte that is none |
| Utf8.SequenceInfo | src/jsonv/char_convert.cpp:357-389 | the length and first byte of the shortest form of a code |
| Utf8.AppendCode | src/jsonv/char_convert.cpp:391-410 | appends the shortest form of a code, filled in by shifts from the top |
| Utf8.WellFormedUnit | src/jsonv/char_convert.cpp:133-205 | a character that section 4 of RFC 3629 allows is read as the scalar value whose shortest form it is |
| Utf8.ScalarUnit | src/jsonv/char_convert.cpp:391-410 | the shortest form of a scalar value is well-formed and is read back as that value, whatever follows |
| Utf8.UnitIsRead | src/jsonv/char_convert.cpp:112-205 | a unit is a lead byte with its continuation bytes, from two to six, whose payloads are the code's digits in base 64, or a byte that stands for itself |
| Utf8.LongFormIsRead | src/jsonv/char_convert.cpp:357-410 | the forms of five and six bytes are read back as their code |
| StringCodec.HighMarkBits | src/jsonv/char_convert.cpp:218-226 | the arithmetic form of the bit operation that marks a high surrogate |
| StringCodec.EscapesAreOneTable | src/jsonv/char_convert.cpp:60-96 | the letters that are written for bytes and the bytes that letters are read as are one table of eight pairs |
| StringCodec.HexDigits | src/jsonv/char_convert.cpp:207-343 | hexadecimal digits are written in lower case and read in either |
| StringCodec.EncodesUnit | src/jsonv/char_convert.cpp:231-295 | a byte of the table becomes its letter, any other printable byte stays, and the rest becomes one or two escapes of four digits |
| StringCodec.ToHex | src/jsonv/char_convert.cpp:209-216 | four hexadecimal digits from the top, by shifts |
| StringCodec.FromHex | src/jsonv/char_convert.cpp:345-355 | the number four digits spell, or failure on a byte that is no digit |
| StringCodec.ReadUnit | src/jsonv/char_convert.cpp:245-265 | the encoder's reading of one unit: a complete sequence and its code, or a byte that stands for itself |
| StringCodec.StringEncode | src/jsonv/char_convert.cpp:231-295 | the loop writes exactly the concatenation of the units' escapes |
| StringCodec.WriteCode | src/jsonv/char_convert.cpp:272-287 | one escape in the basic plane, or two for a surrogate pair |
| StringCodec.ReadEscape | src/jsonv/char_convert.cpp:456-499 | one escape, with the surrogate pairing and its failures |
| StringCodec.StringDecode | src/jsonv/char_convert.cpp:437-584 | the batched decoder returns, or throws, as the decoder that takes one unit at a time; it never looks past a backslash at the end of its input |
| CodecTheorems.DecodeEncode | src/jsonv/char_convert.cpp:231-584 | for every byte string and encoding, decoding the encoded text is transcoding the UTF-16 units that the encoder wrote |
| CodecTheorems.RoundTrip | src/jsonv/char_convert.cpp:231-584 | by the UTF-8 decoders a string of scalar values decodes to its repair: stray byte b as U+00b, overlong forms shortened |
| CodecTheorems.RoundTripIffWellFormed | src/jsonv/char_convert.cpp:231-584 | by the UTF-8 decoders the round trip is the identity exactly on well-formed UTF-8 |
| CodecTheorems.CesuRoundTrip | src/jsonv/char_convert.cpp:231-584 | by the CESU-8 decoder it is the identity exactly on strings of codes of the basic plane, surrogates included, in their shortest form |
| CodecTheorems.CesuKeepsLoneSurrogate | src/jsonv/char_convert.cpp:437-584 | an example: by the CESU-8 decoder the bytes ED A0 80 come back |
| CodecTheorems.CesuSplitsPair | src/jsonv/char_convert.cpp:437-584 | an example: by the CESU-8 decoder the bytes F0 90 80 80 come back as the six bytes of two surrogates |
| CodecTheorems.RepairFixedPoints | src/jsonv/char_convert.cpp:231-295 | repair is idempotent and changes nothing exactly on well-formed UTF-8 |
| CodecTheorems.TranscodesIffPaired | src/jsonv/char_convert.cpp:437-584 | UTF-16 units transcode exactly if every high surrogate is followed by a low one and every low one follows a high one; CESU-8 takes all |
| CodecTheorems.DecodesIffPaired | src/jsonv/char_convert.cpp:231-584 | an encoded string decodes exactly if the surrogates that the encoder wrote are paired |
| CodecTheorems.LargeCodeUnits | src/jsonv/char_convert.cpp:218-229 | for every code point above U+10FFFF: the two units are a pair exactly if bits 20 and 23 of its distance from U+10000 are zero, and then they stand for another character |
| CodecTheorems.LargeCodeDecodes | src/jsonv/char_convert.cpp:231-584 | so by the UTF-8 decoders a sequence for such a code point decodes, to that other character, exactly under that condition |
| CodecTheorems.LoneSurrogateFails | src/jsonv/char_convert.cpp:437-584 | an example: by the UTF-8 decoder the bytes ED A0 80 do not come back |
| CodecTheorems.LargeCodeFails | src/jsonv/char_convert.cpp:218-229 | an example: by the UTF-8 decoder the bytes F4 90 80 80, U+110000, do not come back |
| CodecTheorems.LargeCodeAliases | src/jsonv/char_convert.cpp:218-229 | an example: by the UTF-8 decoder the bytes FA 80 90 80 80, U+2010000, come back as U+10000 |
| CodecTheorems.TranscodeIsWellFormed | src/jsonv/char_convert.cpp:437-584 | what the UTF-8 decoders read from an encoded string is well-formed UTF-8 |
| CodecTheorems.DecodedIsComplete | src/jsonv/char_convert.cpp:437-584 | any successful decoding outside CESU-8 consists of complete UTF-8 sequences |
| CodecTheorems.RawBytesDecode | src/jsonv/char_convert.cpp:500-584 | exactly which bytes without a backslash each decoder passes on, and that it changes none |
| Utf16.ConvertToWide | src/jsonv/char_convert.cpp:600-687 | both loops together give the UTF-16 of the decoded characters, or throw; the reserved size is the final length |
| Utf16.ReadWideUnit | src/jsonv/char_convert.cpp:607-660 | one character, with every check in the order of the source |
| Utf16.ConvertToNarrow | src/jsonv/char_convert.cpp:689-736 | both loops together give the UTF-8 of the decoded characters, or throw; the reserved size is the final length |
| Utf16.ReadNarrowUnit | src/jsonv/char_convert.cpp:696-719 | one character; a high surrogate is refused unless two more units follow it |
| Utf16.CodesAreUnits | src/jsonv/char_convert.cpp:600-687 | what `convert_to_wide` accepts is made of scalar values, and its output is the UTF-16 that the JSON encoder escapes |
| Utf16.NarrowOfWide | src/jsonv/char_convert.cpp:600-736 | narrow after wide is the repaired input, or throws exactly if the last character is outside the basic plane |
| Utf16.WideRoundTrip | src/jsonv/char_convert.cpp:600-736 | narrow after wide is the identity exactly on well-formed UTF-8 whose fourth byte from the end is no lead of four |
| Utf16.WideIsCodes | src/jsonv/char_convert.cpp:600-687 | all well-formed UTF-8 is accepted |
| Utf16.WideUnitIsScalar | src/jsonv/char_convert.cpp:607-660 | `convert_to_wide` takes exactly sequences of up to four bytes for scalar values, overlong ones included |
| Utf16.FinalPairIsLost | src/jsonv/char_convert.cpp:600-736 | an example: U+10000 widens to D800 DC00, and that pair does not narrow |
| Utf16.NarrowsIffHighsLead | src/jsonv/char_convert.cpp:689-736 | `convert_to_narrow` throws exactly if some high surrogate has no low one after it, or a pair ends the string |
| Utf16.ScalarIffLowsFollow | src/jsonv/char_convert.cpp:689-736 | the characters read are scalar values exactly if every low surrogate follows a high one |
| Utf16.WideOfNarrow | src/jsonv/char_convert.cpp:600-736 | of what narrows, wide after narrow is the identity exactly if every low surrogate follows a high one, and otherwise throws |
| TokenPatterns.MatchLiteral | src/jsonv/detail/token_patterns.cpp:23-31 | complete exactly if the literal is a prefix; the length is that of the common prefix |
| TokenPatterns.MatchNumber | src/jsonv/detail/token_patterns.cpp:63-321 | the state machine consumes exactly what an automaton for the grammar reads, and completes exactly in its accepting states |
| TokenPatterns.MatchExponent | src/jsonv/detail/token_patterns.cpp:247-320 | the same from the mark of the exponent on |
| TokenPatterns.MatchString | src/jsonv/detail/token_patterns.cpp:323-352 | complete exactly at the first quote that no backslash escapes |
| TokenPatterns.MatchSimpleString | src/jsonv/detail/token_patterns.cpp:354-385 | the longest identifier, if one starts here |
| TokenPatterns.MatchWhitespace | src/jsonv/detail/token_patterns.cpp:387-404 | the longest run of whitespace |
| TokenPatterns.MatchComment | src/jsonv/detail/token_patterns.cpp:406-443 | a comment up to its first asterisk and slash |
| TokenPatterns.AttemptMatch | src/jsonv/detail/token_patterns.cpp:445-494 | the dispatch on the first byte |
| TokenPatterns.MatchLength | src/jsonv/detail/token_patterns.cpp:445-494 | a token has at least one byte and no more than are left |
| Bytes.Alphabet | src/jsonv/detail/token_patterns.cpp:452-493 | the bytes and literals that have names are these characters |
| Bytes.Classes | src/jsonv/detail/token_patterns.cpp:354-404 | printable bytes, digits, letters and blanks as ranges of characters |
| TokenPatterns.StringEnds | src/jsonv/detail/token_patterns.cpp:323-352 | a string ends at the first quote with an even number of backslashes before it; without one it takes the whole text but for a last backslash that escapes nothing |
| TokenPatterns.CommentEnds | src/jsonv/detail/token_patterns.cpp:406-443 | a comment ends at the first asterisk and slash after the ones that open it, or is incomplete to the end of the text |
| Scanning.FirstTokenIsScanned | src/jsonv/detail/token_patterns.cpp:445-494 | the kind, length and error flag of the first token of every text, in terms of its bytes |
| NumberGrammar.AcceptsIffNumber | src/jsonv/detail/token_patterns.cpp:63-321 | the automaton accepts exactly the numbers -?D+(.D+)?([eE][+-]?D+)? |
| NumberGrammar.ViableIffRead | src/jsonv/detail/token_patterns.cpp:63-321 | the automaton reads a text to its end exactly if the text can be extended to a number |
| NumberGrammar.LongestViablePrefix | src/jsonv/detail/token_patterns.cpp:63-321 | `match_number` returns the longest viable prefix, and complete exactly if that prefix is a number |
| NumberGrammar.RfcIffNotPadded | src/jsonv/detail/token_patterns.cpp:63-321 | a number of the scanner is a number of section 6 of RFC 8259 exactly if its whole part has no leading zero |
| Tokenizing.LexTiles | src/jsonv/tokenizer.cpp:157-184 | the token texts, put together, are the input |
| Tokenizing.Tokenizer.Next | src/jsonv/tokenizer.cpp:157-184 | hands out the first token of the rest and moves past it; at the end it returns false and keeps the last token; the tokens handed out and the rest always tile the input |
| Tokenizing.LexedString | src/jsonv/detail/token_patterns.cpp:323-352 | in the contents of every string token each backslash is followed by the byte it escapes, as the decoder needs |
| Parser.ParseContext.ParseError | src/jsonv/parse.cpp:336-371 | throws, or clears `successful` and keeps the problem if there is room |
| Parser.ParseContext.StepOver | src/jsonv/parse.cpp:278-299 | line, column and character move over the current token |
| Parser.ParseContext.Next | src/jsonv/parse.cpp:278-324 | moves to the next significant token, reporting comments that are not allowed |
| Parser.ParseContext.CheckTokenText | src/jsonv/parse.cpp:376-383 | compares the text of a literal and would report a difference; a literal that is cut short carries the error flag and is skipped as an invalid token instead |
| Parser.ParseContext.ParseBooleanToken | src/jsonv/parse.cpp:376-402 | a boolean and the check of its text |
| Parser.ParseContext.ParseNumberToken | src/jsonv/parse.cpp:412-475 | a number: the strict check, decimals by their text, integers by their bits |
| Parser.ParseContext.ParseStringToken | src/jsonv/parse.cpp:477-503 | the decoded contents, or the raw contents and a problem |
| Parser.ParseContext.ForwardToSeparator | src/jsonv/parse.cpp:633-656 | error recovery: skips to a structural token |
| Parser.ParseContext.ParseArray | src/jsonv/parse.cpp:505-558 | an array, with recovery and the comma policy |
| Parser.ParseContext.ParseObject | src/jsonv/parse.cpp:560-628 | an object, with recovery, duplicate keys and the comma policy |
| Parser.ParseContext.ParseObjectKey | src/jsonv/parse.cpp:567-584 | a key, or the text of another token in its place |
| Parser.ParseContext.ParseFieldValue | src/jsonv/parse.cpp:586-600 | delimiter and value of a field, and the two ways they can be missing |
| Parser.ParseContext.ParseField | src/jsonv/parse.cpp:586-624 | one field and what follows it |
| Parser.ParseContext.ParseCurrent | src/jsonv/parse.cpp:663-690 | dispatch on the current token |
| Parser.ParseContext.ParseScalar | src/jsonv/parse.cpp:667-676 | the cases of the dispatch that take a single token |
| Parser.ParseContext.SkipInvalid | src/jsonv/parse.cpp:681-690 | an invalid token is reported and skipped |
| Parser.ParseContext.ParseGeneric | src/jsonv/parse.cpp:658-691 | a value, from the next token or the current one |
| Parser.ParseContext.DrainInput | src/jsonv/parse.cpp:746-762 | under complete_parse only NUL bytes may follow |
| Parser.ParseContext.CheckResult | src/jsonv/parse.cpp:742-776 | trailing data, the kind of the root and the depth, in this order and under these conditions |
| Parser.ParseContext.Finish | src/jsonv/parse.cpp:742-782 | the value or the exception, by mode |
| Parser.DepthChecker.IncreaseDepth | src/jsonv/parse.cpp:723-729 | reports at exactly the maximal depth |
| Parser.DepthChecker.Encode | src/jsonv/parse.cpp:693-734 | reports once for every container at the maximal depth and restores its counter |
| Parser.Parse | src/jsonv/parse.cpp:784-792 | in every mode the run on a tokenizer is the one specified |
| Parser.ParseText | src/jsonv/parse.cpp:784-806 | in every mode and on every text the class computes the specified outcome, and terminates |
| GrammarTheorems.AdvanceStream | src/jsonv/parse.cpp:278-324 | moving on yields the next token of the stream of significant tokens |
| GrammarTheorems.ParsedIsDerived | src/jsonv/parse.cpp:505-792 | soundness: an accepted text has a derivation that means the returned value |
| GrammarTheorems.DerivedIsParsed | src/jsonv/parse.cpp:505-792 | completeness: a text with a derivation is accepted, and its meaning is returned |
| GrammarTheorems.ParseIffGrammar | src/jsonv/parse.cpp:505-792 | under all options except `on_error::ignore`, `parse` returns v exactly if some derivation of the text means v and the rules accept it |
| GrammarTheorems.GrammarIsUnambiguous | src/jsonv/parse.cpp:505-792 | a text has at most one meaning |
| GrammarTheorems.ValuesEndTogether | src/jsonv/parse.cpp:505-691 | two derivations of values at the start of one text have the same tokens |
| GrammarTheorems.StrictNumbers | src/jsonv/parse.cpp:412-423 | for every number token, the strict check agrees with section 6 of RFC 8259 exactly outside two families: a zero before a point or an exponent, and a minus before a padded number |
| GrammarTheorems.StrictExamples | src/jsonv/parse.cpp:412-423 | an example of each: strict numbers refuse 0.5 and take -01 for -1 |
| FailureModes.ModesAgree | src/jsonv/parse.cpp:344-364 | the modes throw on the same texts and return the same values; collect_all keeps within its limit and starts with the problem that fail_immediately throws |
| FailureModes.LimitsNest | src/jsonv/parse.cpp:344-364 | a larger limit only adds problems at the end |
| FailureModes.FailureIsReported | src/jsonv/parse.cpp:505-691 | no value fails without a new problem |
| RecoveryRuns.RunValue | src/jsonv/parse.cpp:505-691 | from any point of a text, the parser reads a derivation to its end, keeps its value and reports its problems |
| RecoveryDerivations.EveryTextIsDerived | src/jsonv/parse.cpp:505-691 | every text with a significant token has such a derivation |
| RecoveryTheorems.ValueIsKept | src/jsonv/parse.cpp:784-792 | whatever the rules, the value of a run is what the derivation of the text keeps, and the problems of the value come first, in order, each with its reason, line, column and character |
| RecoveryTheorems.ProblemsAreFaults | src/jsonv/parse.cpp:742-792 | where comments are permitted or absent, the problems of a run, with those about the rest of the text, the root and the depth, are exactly those of the derivation, in order, each with its reason, line, column and character |
| RecoveryTheorems.ParseRecovers | src/jsonv/parse.cpp:742-792 | what `parse` then returns or throws in each of the three modes |
| RecoveryTheorems.IgnoringKeeps | src/jsonv/parse.cpp:742-792 | under `on_error::ignore` comments that are not permitted change nothing |
| RecoveryTheorems.EmptyText | src/jsonv/parse.cpp:784-792 | a text without significant tokens gives null and the one problem that there is no input |
| RecoveryTheorems.LastFieldWins | src/jsonv/parse.cpp:601-614 | of the fields with one key the last one that is not cut off is kept |
| RecoveryTheorems.InvalidTokenTakesTheNext | src/jsonv/parse.cpp:633-691 | an invalid token, a comma and an item in brackets: null is kept, the item is lost |
| RecoveryTheorems.MissingCommaDropsTheNext | src/jsonv/parse.cpp:505-558 | two items in brackets without a comma: the second is lost |
| RecoveryTheorems.CutArrayIsDropped | src/jsonv/parse.cpp:505-558 | an inner array that the input cuts off is not in the outer one |
| RepeatedKeys.TreeIsNode | src/jsonv/parse.cpp:560-628 | a derivation that is valid but for repeated keys keeps its meaning, and its problems are one for each repetition |
| RepeatedKeys.RepeatedKeysAreReplaced | src/jsonv/parse.cpp:601-614 | for a text with such a derivation that meaning, in which the last value of a key counts, is returned under `on_error::ignore`, and is the partial result under `on_error::collect_all`, with one problem for each repetition |
| Policies.CommentInFront | src/jsonv/parse.cpp:300-306 | a comment in front of a text changes nothing where comments are permitted, and otherwise the text is refused |
| Policies.CommaAtTheEnd | src/jsonv/parse.cpp:519-524 | a comma after the last item of an array is accepted exactly where the rules permit it |
| Policies.PresetsChoose | include/jsonv/parse.hpp:267-275 | the default options permit both, the strict ones neither |
| Policies.PresetsStopAtOnce | include/jsonv/parse.hpp:267-275 | both presets throw the first problem and nothing else |
| Policies.DataBehindIsRefused | src/jsonv/parse.cpp:742-765 | where the whole text is to be parsed, a text with anything but NUL bytes behind its value is refused |
| Policies.PresetsReadToTheEnd | include/jsonv/parse.hpp:267-275 | both presets demand that |
| Policies.StrictMindsDel | src/jsonv/parse.cpp:127-139 | only the strict preset minds an unescaped DEL in a string |
| Positions.ProblemsAreLocated | src/jsonv/parse.cpp:278-364 | in every run every problem is at a token of the kind that its reason is about, or at the end of the text, and character, column and line are closed forms over the tokens before it |
| Positions.LiteralsMatch | src/jsonv/parse.cpp:376-410 | the text of a literal token always matches |
| Positions.NoTokenMismatch | src/jsonv/parse.cpp:376-383 | so no run on any text reports a mismatch |
| Encoders.OstreamEncoder.Encode | src/jsonv/encode.cpp:28-156 | the compact encoder writes the text of any tree |
| Encoders.OstreamEncoder.WriteDecimal | src/jsonv/encode.cpp:113-120 | what is not finite is written as null |
| Encoders.OstreamEncoder.EncodeArray | src/jsonv/encode.cpp:32-46 | items with delimiters between them, by the flag `first` |
| Encoders.OstreamEncoder.EncodeObject | src/jsonv/encode.cpp:59-75 | members with delimiters between them, by the flag `first` |
| Encoders.PrettyEncoder.WriteEol | src/jsonv/encode.cpp:185-190 | a line end and the indentation |
| Encoders.PrettyEncoder.WritePrefix | src/jsonv/encode.cpp:176-183 | the indentation that is due, once |
| Encoders.PrettyEncoder.WriteBegin | src/jsonv/encode.cpp:192-198 | a bracket, deeper indentation, and a line end that is put off |
| Encoders.PrettyEncoder.WriteEnd | src/jsonv/encode.cpp:200-209 | indentation never underflows, and an empty container stays on one line |
| Encoders.PrettyEncoder.WriteArrayDelimiter | src/jsonv/encode.cpp:211-216 | a comma and a line end |
| Encoders.PrettyEncoder.Encode | src/jsonv/encode.cpp:167-278 | the pretty encoder writes the indented text of any tree, restores `_indent`, and leaves nothing put off |
| Encoders.PrettyEncoder.EncodeArray | src/jsonv/encode.cpp:192-216 | the same for an array |
| Encoders.PrettyEncoder.EncodeObject | src/jsonv/encode.cpp:242-272 | the same for an object |
| Layout.TextIsTokens | src/jsonv/encode.cpp:28-162 | the compact text of any tree is its tokens put together |
| Layout.CompactIsTokens | src/jsonv/encode.cpp:28-162 | the compact text is exactly the significant tokens that the scanner finds in it: there is no whitespace |
| Layout.TextIsLaid | src/jsonv/encode.cpp:167-278 | the pretty text of any tree, at any depth, is its tokens with, between each two, what the two and the depth say |
| Layout.PrettyIsLaid | src/jsonv/encode.cpp:167-278 | it is the tokens of the compact text with a line end and the indentation after an opening bracket or a comma and before a closing bracket, a space after a colon, and nothing inside empty brackets |
| RoundTrip.EncodedIsOneToken | src/jsonv/char_convert.cpp:231-295 | the encoding of any byte string, quoted, is exactly one string token, whatever follows |
| RoundTrip.EncodedIsPrintable | src/jsonv/char_convert.cpp:231-295 | the encoding of any byte string is printable ASCII |
| RoundTrip.TextStream | src/jsonv/encode.cpp:28-278 | the significant tokens of an encoded tree are the yield of its derivation, in either style and at any indentation, whatever its doubles, as long as those that are printed are printed as numbers of RFC 8259; the others are null |
| RoundTrip.PrettyHasCompactTokens | src/jsonv/encode.cpp:167-278 | pretty and compact text have the same significant tokens, under the same premise on doubles |
| RoundTrip.ParserUndoesPrinter | src/jsonv/parse.cpp:412-691 | under all options outside CESU-8 and `on_error::ignore`, the text of a decimal-free tree in well-formed UTF-8 is parsed to that tree exactly if depth and document rules admit it |
| RoundTrip.ParseToString | src/jsonv/parse.cpp:412-691 | with the default options `parse(to_string(v)) == v` for decimal-free trees in well-formed UTF-8 |
| Reprinting.DecodeKeepsWellFormed | src/jsonv/char_convert.cpp:437-584 | by the UTF-8 decoders well-formed contents decode to a well-formed string |
| Reprinting.FirstTokenIsWellFormed | src/jsonv/tokenizer.cpp:157-184 | tokenizing does not cut a character of well-formed UTF-8 |
| Reprinting.ParsedIsUtf8 | src/jsonv/parse.cpp:477-691 | outside CESU-8 and `on_error::ignore`, the parser returns from well-formed UTF-8 objects in key order and strings in well-formed UTF-8 |
| Reprinting.ReprintIsStable | src/jsonv/parse.cpp:505-792 | outside CESU-8 and `on_error::ignore`, a decimal-free value parsed from well-formed UTF-8 can be printed in either style and parsed again to the same value |
| Reprinting.PrintedIsParsedBack | src/jsonv/encode.cpp:28-278 | outside CESU-8 and `on_error::ignore`, exactly which decimal-free trees come back from their text: those in well-formed UTF-8 that depth and document rules admit |
| Conformance.CharsDecode | src/jsonv/char_convert.cpp:437-584 | the UTF-8 decoders read the characters of a string as section 7 of RFC 8259 means them, and refuse exactly unpaired surrogate escapes; the strict one also an unescaped DEL |
| Conformance.NumbersRead | src/jsonv/parse.cpp:412-475 | an integer is read as what it denotes exactly if that is an int64; otherwise as its equal modulo 2^64, or as -1 from a magnitude of 2^64 on; any other number as the double of its text |
| Conformance.TooSmallIntegerWraps | src/jsonv/parse.cpp:412-475 | an example: -9223372036854775809 is read as 9223372036854775807 |
| Conformance.PhraseStream | src/jsonv/tokenizer.cpp:157-184 | the significant tokens of any JSON value, with any whitespace, are the yield of its derivation |
| Conformance.PhraseMeans | src/jsonv/parse.cpp:505-691 | that derivation is valid under rules whose strict checks admit it, and means the value that is read |
| Conformance.DescribedIsRead | src/jsonv/parse.cpp:412-691 | a JSON value describes at most one tree, and it can only be the value that is read |
| Conformance.ReadIsDescribed | src/jsonv/parse.cpp:412-691 | the value that is read is the tree that the text describes exactly if all its integers are int64 |
| Conformance.ItemIsParsed | src/jsonv/parse.cpp:505-792 | a JSON text with unique names and paired surrogates that the strict checks admit is parsed to the value that is read, if it meets the depth and document demands |
| Conformance.TextIsParsed | src/jsonv/parse.cpp:505-792 | every text that describes a tree, with unique names and paired surrogates, is accepted, and that tree is returned, by rules that read UTF-8 without the strict checks, if it meets their depth and document demands; such texts have int64 integers |
| Conformance.DefaultParsesJson | src/jsonv/parse.cpp:784-806 | the default options accept every JSON text with unique names and paired surrogates; what they return is what the text describes exactly if all its integers are int64 |
| Conformance.DefaultParsesText | src/jsonv/parse.cpp:784-806 | the default options return the tree that a text describes |
| StrictConformance.AcceptsExactly | src/jsonv/parse.cpp:505-792 | of the JSON texts with unique names and paired surrogates, all rules outside CESU-8 accept exactly those whose numbers and unescaped DELs pass the strict checks and that meet the depth and document demands; they return the value that is read |
| StrictConformance.StrictPresetAccepts | src/jsonv/parse.cpp:127-139 | the strict preset accepts exactly those without a number such as 0.5 and without an unescaped DEL that are containers nested less than 20 deep |
| StrictConformance.ReturnedIsRead | src/jsonv/parse.cpp:505-792 | what is returned for a JSON text, under any rules outside CESU-8 and `on_error::ignore`, is what is read from it |
| StrictConformance.StrictDecodeAgrees | src/jsonv/char_convert.cpp:437-584 | what the strict decoder accepts, the lenient one reads alike |
| Acceptance.BodyIsChars | src/jsonv/char_convert.cpp:437-584 | well-formed string contents without control characters that decode are characters of section 7 of RFC 8259 |
| Acceptance.ValueIsPhrase | src/jsonv/parse.cpp:505-691 | in a plain text, every valid derivation comes from a JSON value with whitespace before it |
| Acceptance.PlainIsItem | src/jsonv/parse.cpp:505-792 | an accepted plain text is a JSON text with unique names and paired surrogates |
| Acceptance.JsonIsPlain | src/jsonv/tokenizer.cpp:157-184 | every JSON text is plain |
| Acceptance.PlainAndAcceptedIffJson | src/jsonv/parse.cpp:505-792 | under rules outside CESU-8 and `on_error::ignore` that parse the whole text, a text is accepted and plain exactly if it is a JSON text with unique names and paired surrogates that the strict checks admit and that meets the demands; what is returned is what is read. Plain is well-formed UTF-8 without comments, trailing commas, padded numbers, control characters in strings and runs of NUL bytes |
| Acceptance.DefaultAcceptsJson | src/jsonv/parse.cpp:784-806 | by the default options, a text is accepted and plain exactly if it is a JSON text with unique names and paired surrogates |
| EncoderConformance.TextIsPhrase | src/jsonv/encode.cpp:28-278 | what an encoder writes for any tree, even one with malformed strings or with doubles that are not finite, is a JSON value of RFC 8259, as long as doubles are printed as numbers of RFC 8259 |
| EncoderConformance.EncodedIsText | src/jsonv/encode.cpp:28-278 | for a decimal-free tree in well-formed UTF-8 it is a JSON text that describes that tree |
| Paths.WalkPath | src/jsonv/value.cpp:224-250 | `walk_path` with either callback |
| Paths.CreateChild | src/jsonv/value.cpp:305-320 | the creating callback, whose new array size is a `size_t` |
| Paths.Document.ReadAt | src/jsonv/value.cpp:252-264 | `at_path` |
| Paths.Document.CountPath | src/jsonv/value.cpp:334-350 | one exactly if `at_path` returns |
| Paths.Document.CreateAt | src/jsonv/value.cpp:300-322 | `path` throws kind_error exactly when `at_path` does and then changes nothing; when it returns, `at_path` finds what it returned |
| Paths.Document.Assign | src/jsonv/value.cpp:300-322 | an assignment through the reference that `path` returns |
| Paths.PathOutcome | src/jsonv/value.cpp:300-322 | the three outcomes of `path`, decided by `at_path` and by whether the indexes leave room |
| Paths.OneStep | src/jsonv/value.cpp:224-264 | what `at_path` finds in one step, for every kind of value |
| Paths.StepByStep | src/jsonv/value.cpp:224-264 | a longer path is followed one part after the other |
| Paths.WrapEmptiesTheArray | src/jsonv/value.cpp:305-320 | for the greatest index every array, and null, is an empty array by the time out_of_range is thrown |
| Paths.WalkFinds | src/jsonv/value.cpp:300-322 | after `path` returns, `at_path` finds the same value |
| Paths.PathKeepsOthers | src/jsonv/value.cpp:300-322 | a path that is not a prefix keeps its value, and the only new ones are nulls in gaps below an index |
| Paths.WalkIsWellFormed | src/jsonv/value.cpp:300-322 | objects stay in key order |
| Paths.PutGet | src/jsonv/value.cpp:300-322 | what is assigned is read back |
| Paths.GetPut | src/jsonv/value.cpp:300-322 | assigning what is there changes nothing |
| Paths.PutPutAt | src/jsonv/value.cpp:300-322 | of two assignments to a path only the second shows |
| Paths.WriteKeepsOthers | src/jsonv/value.cpp:300-322 | an assignment keeps every path that is neither above nor below |
| Traversal.Recorder.Traverse | src/jsonv/algorithm_traverse.cpp:18-47 | the recursion in loops calls the visitor in depth-first order with paths below the base |
| Traversal.VisitedIffReached | src/jsonv/algorithm_traverse.cpp:18-47 | visits are exactly the paths that `at_path` resolves, with the value it returns; leaves only, if asked |
| Traversal.EachPathOnce | src/jsonv/algorithm_traverse.cpp:18-47 | no path is visited twice |
| Traversal.VisitsAreInOrder | src/jsonv/algorithm_traverse.cpp:18-47 | a value is visited before what it holds, items by index and fields by key |
| Traversal.LeavesRebuild | src/jsonv/algorithm_traverse.cpp:18-47 | assigning every leaf to its path, starting from null, gives back the tree, and no assignment throws |
| Ordering.Compare | include/jsonv/algorithm.hpp:123-177 | the recursion in iterator loops computes the lexicographic order on any trees, for any comparison of doubles |
| Ordering.CompareSign | include/jsonv/algorithm.hpp:38-177 | on decimal-free trees, swapping the arguments flips the sign, and zero means the same tree |
| Ordering.CompareTransitive | include/jsonv/algorithm.hpp:38-177 | on decimal-free trees the order is transitive, strictly so when either step is strict |
| Ordering.ScalarsCompare | include/jsonv/algorithm.hpp:38-146 | kinds decide first: null, booleans, numbers, strings, arrays, objects; false before true; integers by value; doubles by the given comparison |
| Ordering.StringsCompare | include/jsonv/algorithm.hpp:75-78 | strings by the first byte that differs |
| Ordering.ArraysCompare | include/jsonv/algorithm.hpp:149-157 | arrays by the first items that differ; a proper prefix is less |
| Ordering.ObjectsCompare | include/jsonv/algorithm.hpp:158-173 | objects by the first fields that differ, their keys before their values; a proper prefix is less |
| Differences.Diff | src/jsonv/algorithm_diff.cpp:17-100 | dispatch on equality and kind; equality is a comparison |
| Differences.DiffArrays | src/jsonv/algorithm_diff.cpp:39-61 | the array loop and the tail of the longer side |
| Differences.DiffObjects | src/jsonv/algorithm_diff.cpp:62-97 | both object loops, which erase as they go |
| Differences.WholeParts | src/jsonv/algorithm_diff.cpp:17-38 | equal values are the same part, and unequal ones that are not both arrays or both objects are each on its side |
| Differences.ArrayParts | src/jsonv/algorithm_diff.cpp:39-61 | unequal arrays give arrays of the parts of their items, and each side keeps what it has left over |
| Differences.KeysPartition | src/jsonv/algorithm_diff.cpp:62-97 | same and left partition the left keys, likewise on the right, and the keys on both sides are the shared ones with unequal values |
| Differences.DiffSymmetric | src/jsonv/algorithm_diff.cpp:17-100 | on decimal-free trees, exchanging the inputs exchanges the sides |
| Differences.LeftIsAll | src/jsonv/algorithm_diff.cpp:17-100 | on decimal-free trees, the left part is the whole left input exactly if the two have nothing in common |
| Differences.RebuildsLeft | src/jsonv/algorithm_diff.cpp:17-100 | on decimal-free trees, same overlaid with left is the left input exactly if no shared key has unequal values with a common part |
| Differences.RebuildsRight | src/jsonv/algorithm_diff.cpp:17-100 | the same on the right |
| Differences.ArraysRebuild | src/jsonv/algorithm_diff.cpp:29-61 | decimal-free trees of arrays and scalars are conserved on both sides |
| Differences.SharedPartIsLost | src/jsonv/algorithm_diff.cpp:81-87 | an example: of [1,2] and [1,3] under one key the 1 is nowhere in the result |
| Merging.SwapsOnce | src/jsonv/coerce.cpp:198-206 | `coerce_merge` does not swap its arguments twice in a row |
| Merging.MergeExplicit | src/jsonv/algorithm_merge.cpp:61-125 | under recursive rules a merged value, under throwing rules a value or the path of the clash; terminates |
| Merging.MergeObjects | src/jsonv/algorithm_merge.cpp:75-103 | both object loops, which erase as they go |
| Merging.ResolveTypeConflict | src/jsonv/algorithm_merge.cpp:40-59 | throw, or coerce |
| Merging.ResolveSameKey | src/jsonv/algorithm_merge.cpp:46-54 | throw, or merge |
| Merging.CoerceMerge | src/jsonv/coerce.cpp:185-217 | the recursion through merge and through the swap terminates with the coerced value |
| Merging.MergedContents | src/jsonv/algorithm_merge.cpp:104-125 | under either rules, what two values of one kind merge into: strings and arrays one after the other, item by item; booleans by or; integers to the sum modulo 2^64; doubles to a symbolic sum |
| Merging.CoercedContents | src/jsonv/coerce.cpp:177-217 | for other kinds, a clash under throwing rules, and under recursive rules what becomes of them for each kind on the left |
| Merging.NumberWithString | src/jsonv/coerce.cpp:45-71 | a number takes in a string exactly if `parse` finds it to be a number, and otherwise is appended to it |
| Merging.NumberGoesInto | src/jsonv/coerce.cpp:198-206 | where the swap leads: the number is coerced into the other value |
| Merging.MergedObject | src/jsonv/algorithm_merge.cpp:75-103 | a merged object has, key by key, one side's value, or both merged with the left one first |
| Merging.MergeIsWellFormed | src/jsonv/algorithm_merge.cpp:61-125 | merging keeps key order |
| Merging.MergeMakesNoDecimals | src/jsonv/algorithm_merge.cpp:61-125 | merging trees without decimals makes none, even where a string spells one |
| Merging.NullIsIdentity | src/jsonv/coerce.cpp:185-211 | null is the identity on both sides |
| Merging.MergeIsAssociative | src/jsonv/algorithm_merge.cpp:51-125 | merging is associative where, at every shared path of keys, kinds agree and are not decimal, or one is null |
| Merging.MixedKindsAssociateDifferently | src/jsonv/coerce.cpp:185-217 | an example of different kinds: grouping 1, [] and 2 gives [1,2] or [2,1] |
| Merging.FirstSharedIsShared | src/jsonv/algorithm_merge.cpp:46-49 | the key at which throwing rules stop is in both objects, and there is none exactly if they share no key |
| Merging.StopsAtFirstShared | src/jsonv/algorithm_merge.cpp:75-90 | throwing rules stop at the first field whose key the other object has, and name its path |
| Merging.ThrowingMerges | src/jsonv/algorithm_merge.cpp:40-49 | throwing rules merge two objects exactly if they share no key, into their union |
| PathText.MatchPath | src/jsonv/detail/token_patterns.cpp:496-537 | the kind and length of the first step of a path text |
| PathText.StreamPathElement | src/jsonv/path.cpp:214-229 | a step after a dot or in brackets |
| PathText.StreamPath | src/jsonv/path.cpp:329-336 | the text of a path, step by step |
| PathText.CreatePath | src/jsonv/path.cpp:272-300 | the loop returns the path of the text or throws at the first step it cannot read |
| PathText.DecodeShrinks | src/jsonv/char_convert.cpp:437-584 | decoding neither lengthens a text nor loses a quote, and a backslash shortens it |
| PathText.StepIsRead | src/jsonv/path.cpp:272-300 | a step that reads back is read first; any other fails or gives a different step |
| PathText.PathRoundTrip | src/jsonv/path.cpp:214-300 | `path::create(to_string(p)) == p` exactly if every key of p is alphanumeric and starts with a letter, or is quoted without quote, backslash or incomplete UTF-8 |
| PathSyntax.SpellingIsRead | src/jsonv/path.cpp:272-300 | a dot and an identifier of letters, digits, underscores and dollar signs is that key; a string in brackets is the key that it decodes to, or an error; a number in brackets is the index, modulo 2^64 if negative, or an error |
| PathSyntax.UnspelledIsRefused | src/jsonv/path.cpp:272-300 | any other text is a syntax error |
| PathSyntax.StepIsWritten | src/jsonv/path.cpp:214-229 | `to_string` writes a dot and a key exactly if the key is not empty and alphanumeric, otherwise the key in quotes and brackets, and an index in decimal |
| PathText.QuotedKeyIsRefused | src/jsonv/path.cpp:214-300 | an example: the text of a key with a quote is refused |
| PathText.EscapedKeyIsAnother | src/jsonv/path.cpp:214-300 | an example: the text of the key of a backslash and an n is read as a line feed |
| Formats.Data.constructor | src/jsonv/serialization.cpp:314-331 | a composed node links to older nodes only, and starts empty |
| Formats.Data.Lookup | src/jsonv/serialization.cpp:203-225 | the recursive search finds what the specification finds, and terminates |
| Formats.Data.InsertExtractor | src/jsonv/serialization.cpp:228-249 | the three duplicate policies |
| Formats.Data.InsertSerializer | src/jsonv/serialization.cpp:259-280 | the three duplicate policies |
| Formats.Data.InsertAdapter | src/jsonv/serialization.cpp:298-307 | both registries change, or, when either insertion throws, neither |
| Formats.FindIsFirstHit | src/jsonv/serialization.cpp:203-225 | a lookup returns the first hit in depth-first order from left to right |
| Formats.OwnThenFirstBase | src/jsonv/serialization.cpp:203-225 | a node's own entry comes first, then what the first of its bases finds that finds any |
| Formats.ResolvesIffRegistered | src/jsonv/serialization.cpp:203-225 | a type resolves exactly if a node in that order has an entry |
| Formats.InsertedKeeps | src/jsonv/serialization.cpp:228-280 | a registration fails exactly on a duplicate under `exception`, and never loses a type |
| Formats.FindResolves | src/jsonv/serialization.cpp:203-225 | a lookup depends only on what the reachable registries hold at that moment |
| Formats.StillResolves | src/jsonv/serialization.cpp:203-307 | a type that resolves still resolves after registries have grown |
| Formats.OtherTypesKeep | src/jsonv/serialization.cpp:203-307 | a registration does not change what other types resolve to |
| Formats.RegisterAdapter | src/jsonv/serialization.cpp:406-409 | seen from any composed format, a registration anywhere, failed or not, loses no type and changes no other; the node itself finds what the duplicate policy says |
| Formats.RegisterExtractor | src/jsonv/serialization.cpp:381-389 | the same for an extractor, and serializers stay as they are |
| Formats.RegisterSerializer | src/jsonv/serialization.cpp:391-399 | the same for a serializer, and extractors stay as they are |

## Left out

- Positions.ProblemsAreLocated: for a problem at the end of the input only a lower bound of the line, which RecoveryTheorems.ProblemsAreFaults gives exactly; reports of duplicate keys, of the kind of the root and of the depth are at the last token read, whatever it is.
- Ordering.Compare: what `compare_decimals` makes of two doubles is a parameter, and the laws of the order are stated without decimals, because mixed numbers are not transitively ordered; no `compare_icase` or custom traits, and no shortcut for one object compared with itself.
- Differences.RebuildsLeft: without decimals, because `diff` keeps only the left one of two numbers that compare equal.
- Merging.MergeExplicit: sums of doubles are symbolic; no `dynamic_merge_rules`, whose conflict hook calls the function for equal keys; no more than two values.
- Merging.CoerceMerge: overflow of integers wraps, where the C++ standard leaves it undefined.
- Encoders.OstreamEncoder.Encode: how a double is printed is a parameter; `ensure_ascii = false` is not modelled, because no encoder can select it.
- RoundTrip.ParserUndoesPrinter: without decimals, because printing a double loses digits.
- Acceptance.PlainAndAcceptedIffJson: not for rules that stop after the value, which accept a JSON text with anything behind it.
- StrictConformance.AcceptsExactly: not for CESU-8, which also takes unpaired surrogates.
- RecoveryTheorems.ProblemsAreFaults: for a text with comments that are not permitted only the problems of the value are given, comments aside, in ValueIsKept.
- Layout.PrettyIsLaid: for trees whose doubles are printed as numbers of RFC 8259; TextIsLaid has no such premise.
- Paths.Document.Assign: stands for an assignment through the reference that `path` returns; several references into one tree are not modelled.
- Formats.Data.InsertAdapter: rollback after a duplicate, not after a failure to allocate; there it would erase an entry that had replaced an older one.
- Parser.ParseContext.ParseNumberToken: keeps a decimal as its text, and leaves out the branch after a failed conversion (src/jsonv/parse.cpp:462-474), which is not reached because `strtoul` and `strtoull` saturate but consume the token.
- Parser.ParseContext.ParseError: a problem carries its position and a reason, not the text of the message; decode_error carries no offset.
- Failures to allocate, stack depth, and sizes beyond the memory of the machine.
- Streams, files and the loading of input; locales other than "C"; wide characters beyond sixteen bits.
- Memory management of the value union, iterators, hashing and demangling.
- Extraction and serialization of C++ types: the serialization builder, the default formats, `extract` and `to_json`.
- The functions `map` and `validate` and the optional, chrono and functional helpers, which are small wrappers without a property that spans several functions.
- The functions coerce_object, coerce_array and coerce_null, which merging does not call.
