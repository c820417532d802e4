# myjson (tutorial07) in Dafny

A model of the final stage of the small C JSON library: `tutorial07/myjson.c`
and the types of `tutorial07/myjson.h`. The model has four parts.

- **Value model** (`json.dfy`, `values.dfy`).
  - The seven type tags and the tagged value tree, in which arrays own their elements and objects own their members, in order and with duplicate keys allowed.
  - The fourteen parse result codes and the read accessors.
  - `my_free`, `my_init` and the setters as methods of a `Slot` class. A ghost `Heap` ledger counts the live `malloc` blocks.
- **Scratch stack** (`stack.dfy`).
  - `my_context` as a class holding the input cursor and a growable `array` stack, with `top` and `size`.
  - `my_context_push` (growth by `size >> 1` from 256) and `my_context_pop`, together with PUTC and PUTS.
- **Parser.**
  - The whole parser as total functions over a byte sequence (`grammar.dfy`). Every position at or past the end reads as the NUL terminator.
  - The imperative parser over the context (`parser.dfy`). Each C routine becomes a method proved to agree with its function. The proof covers:
    - the cursor it leaves;
    - the stack it restores;
    - the blocks it leaves live.
  - Facts about the grammar: the number grammar of section 6 of RFC 8259 (`number_facts.dfy`); literals (`grammar_facts.dfy`).
  - Facts about `\uXXXX`: surrogate pairs (section 2.2 of RFC 2781) and UTF-8 (section 3 of RFC 3629), in `unicode.dfy`.
- **Serializer.**
  - Compact rendering as functions (`writer.dfy`), with their properties (`writer_facts.dfy`).
  - The imperative `my_stringify` over the same stack, proved to write exactly those bytes (`serializer.dfy`).
  - The round trip `Parse(Stringify(v)) == (Ok, v)` (`round_trip.dfy`).
  - Worked inputs and their outcomes (`samples.dfy`).

`strtod` and `sprintf("%.17g")` become parameters:
- `strtod` (a `Strtod`) is applied to the validated number lexeme and reports a double and the ERANGE flag.
- `sprintf("%.17g")` (a `Format`) maps a double to its text.

A double is carried as its 64-bit pattern and never interpreted.

## Model

| member | source | states |
|---|---|---|
| Json.TypeOrdinal | tutorial07/myjson.h:5 | the seven tags have distinct ordinals 0..6 in declaration order; only MY_NULL is 0 |
| Json.TypeFromOrdinal | tutorial07/myjson.h:5 | each ordinal below 7 names exactly one tag |
| Json.CodeValue | tutorial07/myjson.h:28-47 | MY_PARSE_OK is 0 and the thirteen error codes take 1..13 |
| Json.CodeValueInjective | tutorial07/myjson.h:28-47 | the result codes are pairwise distinct |
| Json.GetType | tutorial07/myjson.c:410-413 | the tag names exactly the payload the value holds |
| Json.GetNumber | tutorial07/myjson.c:506-509 | on a number it returns that number |
| Json.GetString | tutorial07/myjson.c:518-521 | on a string it returns its bytes |
| Json.GetStringLength | tutorial07/myjson.c:523-526 | the length is that of the string's bytes |
| Json.GetBoolean | tutorial07/myjson.c:538-541 | 1 exactly for true, 0 for false |
| Json.GetArraySize | tutorial07/myjson.c:549-552 | the number of elements |
| Json.GetArrayElement | tutorial07/myjson.c:554-557 | element `index` of the array, which is part of the array |
| Json.GetObjectSize | tutorial07/myjson.c:560-563 | the number of members |
| Json.GetObjectKey | tutorial07/myjson.c:564-567 | exactly the key of member `index` (so the key of some member) |
| Json.GetObjectKeyLength | tutorial07/myjson.c:568-571 | `klen` is the length of that key |
| Json.GetObjectValue | tutorial07/myjson.c:572-575 | member `index` is that key with that value |
| Json.Blocks | tutorial07/myjson.c:383-408 | the heap blocks a value owns: one for a string, none for null, booleans and numbers |
| Values.Heap.Allocate | tutorial07/myjson.c:531 | one more live block |
| Values.Heap.Release | tutorial07/myjson.c:389 | one fewer live block |
| Values.FreeValue | tutorial07/myjson.c:383-406 | my_free releases exactly the blocks the value owns |
| Values.Slot.constructor | tutorial07/myjson.h:50 | a fresh slot is Null |
| Values.Slot.Init | tutorial07/myjson.h:50 | my_init makes the tag Null and frees nothing |
| Values.Slot.Free | tutorial07/myjson.c:383-408 | my_free and my_set_null (tutorial07/myjson.h:54) leave Null and release the old payload |
| Values.Slot.SetNumber | tutorial07/myjson.c:511-515 | the old payload is released, then the value is that number |
| Values.Slot.SetString | tutorial07/myjson.c:528-536 | the old payload is released, one block is allocated, the value holds a copy of the `len` bytes |
| Values.Slot.SetBoolean | tutorial07/myjson.c:543-546 | true exactly when `b` is non-zero; the old payload is released |
| Stack.Bytes | tutorial07/myjson.c:25-26 | one slot per staged byte |
| Stack.Unstage | tutorial07/myjson.c:500-502 | the bytes a run of slots hands back |
| Stack.UnstageBytes | tutorial07/myjson.c:500-502 | staged bytes read back as themselves |
| Stack.GrowFits | tutorial07/myjson.c:42-44 | growing by half repeatedly makes the request fit strictly and never shrinks |
| Stack.CapacityFits | tutorial07/myjson.c:38-45 | after push the capacity holds `top + n` strictly, starts at 256, and is unchanged when it already fitted |
| Stack.CapacityExamples | tutorial07/myjson.c:13-19 | 256 on first use, then 384 and 576 |
| Stack.Context.constructor | tutorial07/myjson.c:365-367 | the parse context: cursor at the start, empty stack of size 0 |
| Stack.Context.Sized | tutorial07/myjson.c:495-497 | the stringify context: an empty stack of 256 slots |
| Stack.Context.Push | tutorial07/myjson.c:35-50 | top advances by exactly `n`, `top < size` afterwards, size is the grown capacity, pushed contents are kept |
| Stack.Context.Pop | tutorial07/myjson.c:52-56 | top drops by `n` and the last `n` pushed slots are returned |
| Stack.Context.PutC | tutorial07/myjson.c:25 | the contents gain that byte |
| Stack.Context.PutS | tutorial07/myjson.c:26 | the contents gain those bytes in order |
| Grammar.SkipWhitespace | tutorial07/myjson.c:58-63 | the cursor passes exactly the spaces, tabs, LFs and CRs under it |
| Grammar.DigitsEnd | tutorial07/myjson.c:82-83 | the end of the maximal digit run |
| Grammar.NumberEnd | tutorial07/myjson.c:78-95 | an accepted number ends past its start and inside the input |
| Grammar.Hex4 | tutorial07/myjson.c:106-118 | succeeds exactly when four hex digits follow, with a value below 0x10000 |
| Grammar.UnicodeEscape | tutorial07/myjson.c:167-186 | a decoded code point is at most 0x10FFFF and never a high surrogate; a high surrogate not followed by `\u`, or followed by one whose four digits are not a low surrogate, is InvalidUnicodeSurrogate; InvalidUnicodeHex only when one of the two hex groups is malformed; a code point of 0x10000 or more came from a pair, and that pair is its RFC 2781 split |
| Grammar.EscapeStep | tutorial07/myjson.c:156-190 | an escape stages 1 to 4 bytes; failures are the three escape errors |
| Grammar.ScanString | tutorial07/myjson.c:149-201 | a scan ends past its start inside the input; failures carry an error code |
| Grammar.ParseString | tutorial07/myjson.c:204-211 | success yields a string and moves the cursor forward |
| Grammar.ParseValue | tutorial07/myjson.c:216-227 | success moves the cursor forward inside the input; failure is an error code |
| Grammar.ParseArray | tutorial07/myjson.c:229-276 | the same for arrays |
| Grammar.ElementStep | tutorial07/myjson.c:243-253 | one round of the element loop stages at least one more element |
| Grammar.ElementSeparator | tutorial07/myjson.c:254-270 | `,` goes on with the same elements, `]` closes the array of exactly the staged elements |
| Grammar.ParseElements | tutorial07/myjson.c:243-271 | the result is an array with more elements than were staged |
| Grammar.ParseObject | tutorial07/myjson.c:278-360 | success moves the cursor forward; failure is an error code |
| Grammar.MemberStep | tutorial07/myjson.c:296-316 | one round of the member loop stages at least one more member |
| Grammar.MemberValue | tutorial07/myjson.c:317-322 | after the colon the value completes a member |
| Grammar.MemberSeparator | tutorial07/myjson.c:323-348 | `,` goes on with the same members, `}` closes the object of exactly the staged members |
| Grammar.ParseMembers | tutorial07/myjson.c:296-349 | the result is an object with more members than were staged |
| Grammar.Parse | tutorial07/myjson.c:362-381 | a failed parse leaves Null |
| GrammarFacts.SkipRun | tutorial07/myjson.c:58-63 | the whitespace skip ends exactly at the first byte of a run that is not whitespace |
| GrammarFacts.BlankInput | tutorial07/myjson.c:362-381 | an empty or whitespace-only input is ExpectValue with Null, for every such input |
| GrammarFacts.ParseRoot | tutorial07/myjson.c:362-381 | Ok exactly when a value is read and only whitespace lies between it and the terminator, and then the value is the result; an error of the value is the error of the parse |
| GrammarFacts.TrailingBlank | tutorial07/myjson.c:369-372 | a value followed by whitespace to the end of the input is accepted as the result |
| GrammarFacts.TrailingByte | tutorial07/myjson.c:369-375 | a value followed, after whitespace, by any other byte than the terminator is RootNotSingular with Null |
| GrammarFacts.LiteralMatch | tutorial07/myjson.c:65-74 | the byte-by-byte comparison matches exactly when the input slice equals the literal |
| NumberFacts.DigitsShift | tutorial07/myjson.c:80-95 | digit runs of a lexeme are digit runs of the input at shifted positions |
| NumberFacts.SplitShift | tutorial07/myjson.c:78-95 | a split of a lexeme into its parts is a split of the input at shifted positions |
| NumberFacts.DigitsEndRun | tutorial07/myjson.c:82-83 | DigitsEnd passes only digits |
| NumberFacts.DigitsEndExact | tutorial07/myjson.c:82-83 | DigitsEnd stops exactly where a run ends |
| NumberFacts.IntegerSound | tutorial07/myjson.c:80-84 | an accepted integer part is `0` or a non-zero digit and digits |
| NumberFacts.FractionSound | tutorial07/myjson.c:85-89 | an accepted fraction is empty or `.` and at least one digit |
| NumberFacts.ExponentSound | tutorial07/myjson.c:90-95 | an accepted exponent is empty or `e`/`E`, an optional sign and at least one digit |
| NumberFacts.NumberEndSound | tutorial07/myjson.c:78-95 | everything validation accepts is an RFC 8259 number lexeme |
| NumberFacts.NumberEndOfParts | tutorial07/myjson.c:78-95 | validation is sign, integer, fraction, exponent in sequence |
| NumberFacts.IntegerComplete | tutorial07/myjson.c:80-84 | a well-formed integer part is accepted up to its end |
| NumberFacts.FractionComplete | tutorial07/myjson.c:85-89 | a well-formed fraction is accepted up to its end |
| NumberFacts.ExponentComplete | tutorial07/myjson.c:90-95 | a well-formed exponent is accepted up to its end |
| NumberFacts.PartsComplete | tutorial07/myjson.c:78-95 | well-formed parts followed by a non-number byte are accepted as a whole |
| NumberFacts.NumberEndComplete | tutorial07/myjson.c:78-95 | every number lexeme followed by a byte that cannot extend it is accepted, up to exactly its end |
| NumberFacts.NumberEndNone | tutorial07/myjson.c:78-95 | rejection means no prefix that ends the number is a lexeme (InvalidValue for `+1`, `.5`, `1.`, `inf`) |
| Unicode.HexValue | tutorial07/myjson.c:112-114 | the value of a hex digit of either case |
| Unicode.Combine | tutorial07/myjson.c:183 | a surrogate pair combines into 0x10000..0x10FFFF |
| Unicode.Split | tutorial07/myjson.c:170-184 | every supplementary code point has a high and low surrogate |
| Unicode.CombineSplit | tutorial07/myjson.c:183 | combining and splitting are inverse |
| Unicode.Utf8 | tutorial07/myjson.c:120-139 | 1, 2, 3 or 4 bytes according to the range of the code point |
| Unicode.Utf8RoundTrip | tutorial07/myjson.c:120-139 | the bytes written decode back to the code point |
| Unicode.ThreeByteRoundTrip | tutorial07/myjson.c:127-131 | the three-byte form decodes back |
| Unicode.FourByteRoundTrip | tutorial07/myjson.c:132-138 | the four-byte form decodes back |
| Unicode.Utf8Injective | tutorial07/myjson.c:120-139 | distinct code points give distinct bytes |
| Unicode.LoneLowSurrogateEncoded | tutorial07/myjson.c:170-184 | a lone low surrogate is not rejected: it is written as a 3-byte ED A0..BF sequence |
| Unicode.Utf8Examples | tutorial07/myjson.c:120-139 | U+20AC is E2 82 AC; D834 DD1E is F0 9D 84 9E |
| Writer.HexDigit | tutorial07/myjson.c:416-437 | an uppercase hex digit that reads back as its value |
| Writer.EscapeByte | tutorial07/myjson.c:423-441 | one byte escapes to 1 to 6 bytes |
| WriterFacts.EscapeSnoc | tutorial07/myjson.c:422-442 | escaping goes byte by byte |
| WriterFacts.ElementsSnoc | tutorial07/myjson.c:468-475 | each element follows a comma unless it is the first |
| WriterFacts.MembersSnoc | tutorial07/myjson.c:476-485 | each member follows a comma unless it is the first |
| WriterFacts.EscapeBound | tutorial07/myjson.c:420 | the escape of `len` bytes takes `len` to `6 * len` bytes, so `len * 6 + 2` always suffices |
| WriterFacts.EscapeNoControl | tutorial07/myjson.c:428-438 | no control byte survives escaping |
| WriterFacts.EscapeQuotesEscaped | tutorial07/myjson.c:426 | every quote inside an escaped string follows a backslash |
| WriterFacts.StringifyNoNul | tutorial07/myjson.c:490-503 | the output has no NUL, so `length` is its strlen |
| Serializer.PutEscaped | tutorial07/myjson.c:424-441 | one byte's escape written in the reserved area |
| Serializer.EscapeInto | tutorial07/myjson.c:422-442 | the loop writes exactly the escape of the string, within `6 * len` bytes |
| Serializer.QuoteInto | tutorial07/myjson.c:421-443 | the quoted escape is written from the head |
| Serializer.StringifyString | tutorial07/myjson.c:415-445 | the stack gains exactly the quoted escape of the string |
| Serializer.StringifyNumber | tutorial07/myjson.c:461-464 | the stack gains exactly the text `sprintf` writes |
| Serializer.StringifyValue | tutorial07/myjson.c:448-488 | the stack gains exactly the rendering of the value |
| Serializer.StringifyArray | tutorial07/myjson.c:468-475 | `[`, the elements separated by commas, `]` |
| Serializer.StringifyMemberTo | tutorial07/myjson.c:478-482 | key string, colon, value |
| Serializer.StringifyObject | tutorial07/myjson.c:476-485 | `{`, the members separated by commas, `}` |
| Serializer.Stringify | tutorial07/myjson.c:490-503 | the output is the rendering and a NUL; `length` excludes the NUL |
| Parser.ParseWhitespace | tutorial07/myjson.c:58-63 | the cursor lands where SkipWhitespace says |
| Parser.ParseLiteral | tutorial07/myjson.c:65-74 | agrees with Literal: exact match or InvalidValue, cursor moved by the literal's length |
| Parser.SkipDigits | tutorial07/myjson.c:82-83 | the digit loop stops at DigitsEnd |
| Parser.ValidateInteger | tutorial07/myjson.c:80-84 | the integer check agrees with IntegerEnd |
| Parser.ValidateFraction | tutorial07/myjson.c:85-89 | the fraction check agrees with FractionEnd |
| Parser.ValidateExponent | tutorial07/myjson.c:90-95 | the exponent check agrees with ExponentEnd |
| Parser.ValidateNumber | tutorial07/myjson.c:78-95 | the validation agrees with NumberEnd |
| Parser.ParseNumber | tutorial07/myjson.c:76-104 | agrees with Grammar.ParseNumber: InvalidValue, NumberTooBig, or the number with the cursor past the lexeme |
| Parser.ParseHex4 | tutorial07/myjson.c:106-118 | the accumulating loop agrees with Hex4 |
| Parser.EncodeUtf8 | tutorial07/myjson.c:120-139 | the stack gains exactly Utf8(u) |
| Parser.ParseUnicodeEscape | tutorial07/myjson.c:167-186 | agrees with UnicodeEscape, including both surrogate errors |
| Parser.ParseEscape | tutorial07/myjson.c:156-190 | agrees with EscapeStep and stages the bytes it names |
| Parser.ScanLoop | tutorial07/myjson.c:149-201 | the `for(;;)` loop agrees with ScanString and stages the string read |
| Parser.ParseStringRaw | tutorial07/myjson.c:141-202 | corrected: every outcome restores `top`; success returns the scanned bytes |
| Parser.ParseStringRawAsWritten | tutorial07/myjson.c:141-202 | as written: the InvalidStringChar path leaves the bytes scanned so far on the stack |
| Parser.StringCharResidueExample | tutorial07/myjson.c:196-197 | on `"a` 0x01 the scan fails with `a` staged |
| Parser.ParseString | tutorial07/myjson.c:204-211 | agrees with Grammar.ParseString, restores the stack, allocates one block on success |
| Parser.ParseValue | tutorial07/myjson.c:216-227 | agrees with Grammar.ParseValue, restores the stack, allocates exactly the result's blocks |
| Parser.StageElement | tutorial07/myjson.c:252-253 | the element is copied onto the stack |
| Parser.StageMember | tutorial07/myjson.c:319-320 | the member is copied onto the stack |
| Parser.CollectElements | tutorial07/myjson.c:263-264 | the staged elements are popped as one block, in order |
| Parser.CollectMembers | tutorial07/myjson.c:329-342 | the staged members are popped as one block, in order |
| Parser.DropElements | tutorial07/myjson.c:272-274 | on failure every staged element is popped and freed |
| Parser.DropMembers | tutorial07/myjson.c:350-356 | on failure every staged member is popped and freed, key and value |
| Parser.ElementRound | tutorial07/myjson.c:243-253 | one round agrees with ElementStep |
| Parser.ElementTail | tutorial07/myjson.c:254-270 | the separator agrees with ElementSeparator |
| Parser.ElementLoop | tutorial07/myjson.c:243-271 | the loop agrees with ParseElements and keeps exactly the staged elements on the stack |
| Parser.ParseArray | tutorial07/myjson.c:229-276 | agrees with Grammar.ParseArray (`[ ]` included); the stack returns to its entry state on every path |
| Parser.MemberKey | tutorial07/myjson.c:298-307 | MissKey off a quote, otherwise the key string or its error |
| Parser.MemberRound | tutorial07/myjson.c:296-322 | one round agrees with MemberStep |
| Parser.MemberValueRound | tutorial07/myjson.c:317-322 | the value half agrees with MemberValue |
| Parser.MemberTail | tutorial07/myjson.c:323-348 | the separator agrees with MemberSeparator |
| Parser.MemberLoop | tutorial07/myjson.c:296-349 | the loop agrees with ParseMembers |
| Parser.ParseObject | tutorial07/myjson.c:278-360 | agrees with Grammar.ParseObject (`{}` included); the stack returns to its entry state and no key leaks |
| Parser.Parse | tutorial07/myjson.c:362-381 | corrected: the result is Grammar.Parse and exactly the value's blocks stay live |
| Parser.ParseAsWritten | tutorial07/myjson.c:362-381 | as written: RootNotSingular drops the tag but leaks the payload's blocks |
| Parser.RootLeakExample | tutorial07/myjson.c:373-376 | `"a" x` is RootNotSingular and leaks one block |
| RoundTrip.StringRoundTrip | tutorial07/myjson.c:415-445 | a serialized string scans back to its bytes, up to its closing quote |
| RoundTrip.ValueRoundTrip | tutorial07/myjson.c:448-488 | wherever the rendering of a value appears, ParseValue reads that value back and stops at its end |
| RoundTrip.ArrayRoundTrip | tutorial07/myjson.c:468-475 | a rendered array parses back to itself |
| RoundTrip.ObjectRoundTrip | tutorial07/myjson.c:476-485 | a rendered object parses back to itself |
| RoundTrip.RoundTrip | tutorial07/myjson.c:490-503 | my_parse of my_stringify's output is Ok with the same value, provided numbers read back |
| RoundTrip.PaddedRoundTrip | tutorial07/myjson.c:362-381 | any whitespace before and after a rendered value leaves my_parse's result Ok with the same value |
| Samples.ExpectValueSamples | tutorial07/myjson.c:216-227 | empty and blank input give ExpectValue |
| Samples.InvalidValueSamples | tutorial07/myjson.c:65-95 | `nul`, `?`, `+0`, `1.` give InvalidValue |
| Samples.TrailingWordSample | tutorial07/myjson.c:372-376 | `null x` gives RootNotSingular |
| Samples.LeadingZeroSample | tutorial07/myjson.c:80-84 | `0123` stops after `0` and gives RootNotSingular |
| Samples.TooBigSample | tutorial07/myjson.c:97-100 | `1e309` gives NumberTooBig when strtod overflows |
| Samples.UnclosedStringSample | tutorial07/myjson.c:191-193 | a missing closing quote gives MissQuotationMark |
| Samples.BadEscapeSample | tutorial07/myjson.c:187-188 | `\v` gives InvalidStringEscape |
| Samples.ControlByteSample | tutorial07/myjson.c:194-197 | a raw control byte gives InvalidStringChar |
| Samples.ShortHexSample | tutorial07/myjson.c:168-169 | `\u0` gives InvalidUnicodeHex |
| Samples.LoneHighSurrogateSample | tutorial07/myjson.c:170-175 | `\uD800` with no low half gives InvalidUnicodeSurrogate |
| Samples.UnclosedArraySample | tutorial07/myjson.c:254-270 | `[[]` gives MissCommaOrSquareBracket |
| Samples.MissingKeySample | tutorial07/myjson.c:298-301 | `{1` gives MissKey |
| Samples.MissingColonSample | tutorial07/myjson.c:310-315 | `{"a"}` gives MissColon |
| Samples.UnclosedObjectSample | tutorial07/myjson.c:323-348 | `{"a":null` gives MissCommaOrCurlyBracket |
| Samples.NewlineSample | tutorial07/myjson.c:164 | `\n` stages a line feed |
| Samples.EuroSample | tutorial07/myjson.c:167-186 | `€` stages E2 82 AC |
| Samples.ArraySample | tutorial07/myjson.c:229-276 | `[null, true]` parses to a two-element array in order |
| Samples.ObjectSample | tutorial07/myjson.c:278-360 | `{"a":null}` parses to a one-member object |
| Samples.ArrayRendering | tutorial07/myjson.c:468-475 | the array of null and true renders as `[null,true]` |
| Samples.EscapeRendering | tutorial07/myjson.c:415-445 | a quote and 0x01 render as `"\"\u0001"` |

## Left out

- The floating-point conversions. `strtod` is the `Strtod` parameter; `errno` and `HUGE_VAL` are the ERANGE flag and two bit patterns it reports. `sprintf("%.17g")` is the `Format` parameter.
- Parser.ParseNumber: C hands `strtod` the whole rest of the input. The model hands it only the validated lexeme. The two differ where `strtod` reads further than the lexeme the validation accepted. Hex floats such as `0x1p5000` are one case. Plain decimal input is another: for `01e400` the validation stops after `0`, C's `strtod` reads all of `01e400`, overflows and gives NumberTooBig, while the model converts `0` and then gives RootNotSingular (and `[01e400]` gives MissCommaOrSquareBracket instead of NumberTooBig).
- RoundTrip.RoundTrip: requires every number of the value to be written by `sprintf` as a JSON number lexeme that `strtod` reads back exactly. Infinities and NaNs are written as `inf` and `nan`, which do not parse, and the round trip does not hold for them.
- Serializer.StringifyNumber: requires `sprintf` to write fewer than 32 bytes (`FormatFits`); the C code reserves 32 and relies on `%.17g` staying within them.
- Serializer.StringifyNumber: `c->top -= 32 - sprintf(my_context_push(c, 32), ...)` reads `c->top` unsequenced with the push that changes it; the model fixes one order, the push first and then the subtraction from the pushed `top`, which is the order the surrounding code evidently assumes.
- Raw memory. The stack holds one `Cell` per staged byte or per whole staged `my_value`/`my_member`, instead of the bytes of the struct copied by `memcpy`. Pointer aliasing into the stack is not modelled.
- Heap bookkeeping. `malloc`/`free` are counted on a ghost ledger of live blocks. The stack buffer itself and the `realloc` of the stack are not on the ledger. Nor is the buffer `my_stringify` hands back.
- Integer width. `size_t` lengths and sizes are unbounded naturals, so overflow of `len * 6 + 2` or of the stack growth is not modelled.
- The `assert` calls of the C code (non-NULL pointers, matching tags, `index < size`, `top >= n`) become `requires` clauses.
- my_stringify's `length` out-parameter is always returned. The C code accepts a NULL pointer for it.
- The `_WINDOWS` `<crtdbg.h>` hooks are debug plumbing.
- The earlier tutorial stages are superseded by tutorial07 and are not part of this model. The test programs serve only as sources of the sample outcomes.
- Unicode.LoneLowSurrogateEncoded: the library accepts a lone low surrogate `\uDC00`..`\uDFFF` and encodes it as UTF-8 bytes that are not valid UTF-8. The model keeps that behaviour and does not call it a finding.

## Findings

| source | as written | input that shows it | evidently intended | confidence | as-written member | corrected member |
|---|---|---|---|---|---|---|
| tutorial07/myjson.c:196-197 | the InvalidStringChar path returns without restoring `top`, unlike every other error path of my_parse_string_raw | `"a` followed by byte 0x01 and `"`: `a` stays on the stack (and the `assert(c.top == 0)` of my_parse fails); inside an array or object the leftover bytes also sit above the staged elements, so the cleanup pops of `sizeof(my_value)` and `sizeof(my_member)` at myjson.c:270-273 and 352-357 read misaligned records and `my_free` runs on them (the model stops at the residue and does not follow that cleanup) | restore `top` to its entry value as the other paths do (tutorial06/myjson.c:190-193 does) | not executed | Parser.ParseStringRawAsWritten, Parser.StringCharResidueExample | Parser.ParseStringRaw |
| tutorial07/myjson.c:374 | RootNotSingular sets the tag to Null without freeing the parsed value | `"a" x`: the string's block is never freed | free the value (my_free) before reporting RootNotSingular | not executed | Parser.ParseAsWritten, Parser.RootLeakExample | Parser.Parse |
