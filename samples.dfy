/** Concrete inputs and outputs: one input for each result code of
    my_parse, a few that parse, and a few renderings of my_stringify.
    Each byte sequence is spelled out with its text in a comment. */
module Samples {

  import opened Json
  import opened Wrappers
  import opened Unicode
  import opened Grammar
  import opened Writer

  // ---------------------------------------------------------- parse errors

  /** "" and " ": no value at all. */
  lemma ExpectValueSamples(strtod: Strtod)
    ensures Parse([], strtod) == (ExpectValue, Null)
    ensures Parse([Space], strtod) == (ExpectValue, Null)
  {
  }

  /** "nul", "?", "+0" and "1.": neither a literal nor a number. */
  lemma InvalidValueSamples(strtod: Strtod)
    ensures Parse([LowerN, LowerU, 0x6C], strtod) == (InvalidValue, Null)
    ensures Parse([0x3F], strtod) == (InvalidValue, Null)
    ensures Parse([Plus, Zero], strtod) == (InvalidValue, Null)
    ensures Parse([0x31, Dot], strtod) == (InvalidValue, Null)
  {
  }

  /** "null x": a value followed by more than whitespace. */
  lemma TrailingWordSample(strtod: Strtod)
    ensures Parse([LowerN, LowerU, 0x6C, 0x6C, Space, 0x78], strtod) == (RootNotSingular, Null)
  {
    var s: seq<byte> := [LowerN, LowerU, 0x6C, 0x6C, Space, 0x78];
    assert s[0..4] == NullLiteral;
    assert ParseValue(s, 0, strtod) == Done(Null, 4);
    assert SkipWhitespace(s, 4) == 5;
  }

  /** "0123": a number ends after a leading zero, so the digits after it are
      a second value. */
  lemma LeadingZeroSample(strtod: Strtod)
    requires !Overflows(strtod([Zero]))
    ensures Parse([Zero, 0x31, 0x32, 0x33], strtod) == (RootNotSingular, Null)
  {
    var s: seq<byte> := [Zero, 0x31, 0x32, 0x33];
    assert NumberEnd(s, 0) == Some(1);
    assert s[0..1] == [Zero];
    assert ParseValue(s, 0, strtod) == Done(Number(strtod([Zero]).value), 1);
  }

  /** "1e309": strtod overflows to HUGE_VAL with ERANGE. */
  lemma TooBigSample(strtod: Strtod)
    requires Overflows(strtod([0x31, LowerE, 0x33, Zero, 0x39]))
    ensures Parse([0x31, LowerE, 0x33, Zero, 0x39], strtod) == (NumberTooBig, Null)
  {
    var s: seq<byte> := [0x31, LowerE, 0x33, Zero, 0x39];
    assert DigitsEnd(s, 1) == 1;
    assert DigitsEnd(s, 3) == 5;
    assert NumberEnd(s, 0) == Some(5);
    assert s[0..5] == s;
  }

  /** "\"a": the input ends inside a string. */
  lemma UnclosedStringSample(strtod: Strtod)
    ensures Parse([Quote, 0x61], strtod) == (MissQuotationMark, Null)
  {
    var s: seq<byte> := [Quote, 0x61];
    assert ScanString(s, 1, []) == ScanString(s, 2, [0x61]);
  }

  /** "\"\\v\"": \v is not one of JSON's escapes. */
  lemma BadEscapeSample(strtod: Strtod)
    ensures Parse([Quote, Backslash, 0x76, Quote], strtod) == (InvalidStringEscape, Null)
  {
    var s: seq<byte> := [Quote, Backslash, 0x76, Quote];
    assert EscapeStep(s, 1) == Fail(InvalidStringEscape);
  }

  /** "\"" 0x01 "\"": a raw control byte inside a string. */
  lemma ControlByteSample(strtod: Strtod)
    ensures Parse([Quote, 0x01, Quote], strtod) == (InvalidStringChar, Null)
  {
  }

  /** "\"\\u0\"": fewer than four hex digits. */
  lemma ShortHexSample(strtod: Strtod)
    ensures Parse([Quote, Backslash, LowerU, Zero, Quote], strtod) == (InvalidUnicodeHex, Null)
  {
    var s: seq<byte> := [Quote, Backslash, LowerU, Zero, Quote];
    assert Hex4(s, 3) == None;
    assert EscapeStep(s, 1) == Fail(InvalidUnicodeHex);
  }

  /** "\"\\uD800\"": a high surrogate without its low half. */
  lemma LoneHighSurrogateSample(strtod: Strtod)
    ensures Parse([Quote, Backslash, LowerU, 0x44, 0x38, Zero, Zero, Quote], strtod) == (InvalidUnicodeSurrogate, Null)
  {
    var s: seq<byte> := [Quote, Backslash, LowerU, 0x44, 0x38, Zero, Zero, Quote];
    assert Hex4(s, 3) == Some(0xD800);
    assert UnicodeEscape(s, 3) == Fail(InvalidUnicodeSurrogate);
    assert EscapeStep(s, 1) == Fail(InvalidUnicodeSurrogate);
  }

  /** "[[]": the outer array is never closed. */
  lemma UnclosedArraySample(strtod: Strtod)
    ensures Parse([LeftBracket, LeftBracket, RightBracket], strtod) == (MissCommaOrSquareBracket, Null)
  {
    var s: seq<byte> := [LeftBracket, LeftBracket, RightBracket];
    assert ParseValue(s, 1, strtod) == Done(Array([]), 3);
    assert [] + [Array([])] == [Array([])];
    assert ElementSeparator(s, 3, [Array([])]) == Stop(Fail(MissCommaOrSquareBracket));
    assert ElementStep(s, 1, [], strtod) == Stop(Fail(MissCommaOrSquareBracket));
    assert ParseElements(s, 1, [], strtod) == Fail(MissCommaOrSquareBracket);
    assert ParseValue(s, 0, strtod) == Fail(MissCommaOrSquareBracket);
  }

  /** "{1": a member must start with a key. */
  lemma MissingKeySample(strtod: Strtod)
    ensures Parse([LeftBrace, 0x31], strtod) == (MissKey, Null)
  {
    var s: seq<byte> := [LeftBrace, 0x31];
    assert ParseMembers(s, 1, [], strtod) == Fail(MissKey);
    assert ParseValue(s, 0, strtod) == Fail(MissKey);
  }

  /** "{\"a\"}": a key without a colon. */
  lemma MissingColonSample(strtod: Strtod)
    ensures Parse([LeftBrace, Quote, 0x61, Quote, RightBrace], strtod) == (MissColon, Null)
  {
    var s: seq<byte> := [LeftBrace, Quote, 0x61, Quote, RightBrace];
    assert ScanString(s, 2, []) == Scanned([0x61], 4);
    assert MemberStep(s, 1, [], strtod) == Stop(Fail(MissColon));
    assert ParseMembers(s, 1, [], strtod) == Fail(MissColon);
    assert ParseValue(s, 0, strtod) == Fail(MissColon);
  }

  /** "{\"a\":null": the object is never closed. */
  lemma UnclosedObjectSample(strtod: Strtod)
    ensures Parse([LeftBrace, Quote, 0x61, Quote, Colon, LowerN, LowerU, 0x6C, 0x6C], strtod) == (MissCommaOrCurlyBracket, Null)
  {
    var s: seq<byte> := [LeftBrace, Quote, 0x61, Quote, Colon, LowerN, LowerU, 0x6C, 0x6C];
    assert ScanString(s, 2, []) == Scanned([0x61], 4);
    assert s[5..9] == NullLiteral;
    assert ParseValue(s, 5, strtod) == Done(Null, 9);
    assert MemberValue(s, 5, [0x61], [], strtod) == Stop(Fail(MissCommaOrCurlyBracket));
    assert MemberStep(s, 1, [], strtod) == Stop(Fail(MissCommaOrCurlyBracket));
    assert ParseMembers(s, 1, [], strtod) == Fail(MissCommaOrCurlyBracket);
    assert ParseValue(s, 0, strtod) == Fail(MissCommaOrCurlyBracket);
  }

  // -------------------------------------------------------- parse results

  /** "\"Hi\\n\"": a two-character escape becomes its byte. */
  lemma NewlineSample(strtod: Strtod)
    ensures Parse([Quote, 0x48, 0x69, Backslash, LowerN, Quote], strtod) == (Ok, String([0x48, 0x69, LineFeed]))
  {
    var s: seq<byte> := [Quote, 0x48, 0x69, Backslash, LowerN, Quote];
    assert [] + [0x48] == [0x48] && [0x48] + [0x69] == [0x48, 0x69];
    assert [0x48, 0x69] + [LineFeed] == [0x48, 0x69, LineFeed];
    assert EscapeStep(s, 3) == Done([LineFeed], 5);
    assert ScanString(s, 3, [0x48, 0x69]) == Scanned([0x48, 0x69, LineFeed], 6);
    assert ScanString(s, 1, []) == Scanned([0x48, 0x69, LineFeed], 6);
  }

  /** "\"\\u20AC\"": the euro sign, three bytes of UTF-8. */
  lemma EuroSample(strtod: Strtod)
    ensures Parse([Quote, Backslash, LowerU, 0x32, Zero, 0x41, 0x43, Quote], strtod) == (Ok, String([0xE2, 0x82, 0xAC]))
  {
    var s: seq<byte> := [Quote, Backslash, LowerU, 0x32, Zero, 0x41, 0x43, Quote];
    assert Hex4(s, 3) == Some(0x20AC);
    assert UnicodeEscape(s, 3) == Done(0x20AC, 7);
    assert Utf8(0x20AC) == [0xE2, 0x82, 0xAC];
    assert EscapeStep(s, 1) == Done([0xE2, 0x82, 0xAC], 7);
    assert ScanString(s, 1, []) == Scanned([0xE2, 0x82, 0xAC], 8);
  }

  /** "[null, true]": elements in order, whitespace after the comma. */
  lemma ArraySample(strtod: Strtod)
    ensures Parse([LeftBracket, LowerN, LowerU, 0x6C, 0x6C, Comma, Space, LowerT, LowerR, LowerU, LowerE, RightBracket], strtod)
            == (Ok, Array([Null, True]))
  {
    var s: seq<byte> := [LeftBracket, LowerN, LowerU, 0x6C, 0x6C, Comma, Space, LowerT, LowerR, LowerU, LowerE, RightBracket];
    ArraySampleTail(s, strtod);
    assert s[1..5] == NullLiteral;
    assert ParseValue(s, 1, strtod) == Done(Null, 5);
    assert SkipWhitespace(s, 6) == 7;
    assert ElementSeparator(s, 5, [Null]) == More([Null], 7);
    assert ElementStep(s, 1, [], strtod) == More([Null], 7);
    assert ParseElements(s, 1, [], strtod) == Done(Array([Null, True]), 12);
    assert ParseValue(s, 0, strtod) == Done(Array([Null, True]), 12);
  }

  /** The same input from its second element on. */
  lemma ArraySampleTail(s: seq<byte>, strtod: Strtod)
    requires s == [LeftBracket, LowerN, LowerU, 0x6C, 0x6C, Comma, Space, LowerT, LowerR, LowerU, LowerE, RightBracket]
    ensures ParseElements(s, 7, [Null], strtod) == Done(Array([Null, True]), 12)
  {
    assert s[7..11] == TrueLiteral;
    assert ParseValue(s, 7, strtod) == Done(True, 11);
    assert [Null] + [True] == [Null, True];
    assert ElementSeparator(s, 11, [Null, True]) == Stop(Done(Array([Null, True]), 12));
    assert ElementStep(s, 7, [Null], strtod) == Stop(Done(Array([Null, True]), 12));
  }

  /** "{\"a\":null}": one member. */
  lemma ObjectSample(strtod: Strtod)
    ensures Parse([LeftBrace, Quote, 0x61, Quote, Colon, LowerN, LowerU, 0x6C, 0x6C, RightBrace], strtod)
            == (Ok, Object([Member([0x61], Null)]))
  {
    var s: seq<byte> := [LeftBrace, Quote, 0x61, Quote, Colon, LowerN, LowerU, 0x6C, 0x6C, RightBrace];
    var m := [Member([0x61], Null)];
    assert ScanString(s, 2, []) == Scanned([0x61], 4);
    assert s[5..9] == NullLiteral;
    assert ParseValue(s, 5, strtod) == Done(Null, 9);
    assert [] + [Member([0x61], Null)] == m;
    assert MemberSeparator(s, 9, m) == Stop(Done(Object(m), 10));
    assert MemberValue(s, 5, [0x61], [], strtod) == Stop(Done(Object(m), 10));
    assert MemberStep(s, 1, [], strtod) == Stop(Done(Object(m), 10));
    assert ParseMembers(s, 1, [], strtod) == Done(Object(m), 10);
    assert ParseValue(s, 0, strtod) == Done(Object(m), 10);
  }

  // ------------------------------------------------------------ renderings

  /** [null,true], with no whitespace. */
  lemma ArrayRendering(fmt: Format)
    ensures Stringify(Array([Null, True]), fmt) ==
            [LeftBracket, LowerN, LowerU, 0x6C, 0x6C, Comma, LowerT, LowerR, LowerU, LowerE, RightBracket]
  {
    assert [Null, True][..1] == [Null];
    assert [Null][..0] == [];
  }

  /** A quote and the control byte 0x01 become \" and \u0001. */
  lemma EscapeRendering(fmt: Format)
    ensures Stringify(String([Quote, 0x01]), fmt) ==
            [Quote, Backslash, Quote, Backslash, LowerU, Zero, Zero, Zero, 0x31, Quote]
  {
    EscapeQuoteControl();
  }

  /** The body of the string above: the escaped quote, then \u0001. */
  lemma EscapeQuoteControl()
    ensures Escape([Quote, 0x01]) == [Backslash, Quote, Backslash, LowerU, Zero, Zero, Zero, 0x31]
  {
    assert [Quote, 0x01][..1] == [Quote];
    assert [Quote][..0] == [];
    assert HexDigit(0) == Zero && HexDigit(1) == 0x31;
    assert EscapeByte(0x01) == [Backslash, LowerU, Zero, Zero, Zero, 0x31];
    assert Escape([Quote]) == [Backslash, Quote];
  }
}
