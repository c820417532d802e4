/** The parser of myjson.c as functions: recursive descent over a byte
    string with a cursor.  The C input is NUL-terminated; here it is any byte
    sequence and every position at or past its end reads as the NUL byte, so
    a sequence with an embedded 0 stands for the C string that ends there.
    These functions are the specification the imperative parser in
    parser.dfy is proved against. */
module Grammar {

  import opened Json
  import opened Wrappers
  import opened Unicode

  const Nul: byte := 0x00
  const Tab: byte := 0x09
  const LineFeed: byte := 0x0A
  const CarriageReturn: byte := 0x0D
  const Space: byte := 0x20
  const Quote: byte := 0x22      // "
  const Plus: byte := 0x2B       // +
  const Comma: byte := 0x2C      // ,
  const Minus: byte := 0x2D      // -
  const Dot: byte := 0x2E        // .
  const Slash: byte := 0x2F      // /
  const Zero: byte := 0x30       // 0
  const Colon: byte := 0x3A      // :
  const UpperE: byte := 0x45     // E
  const LeftBracket: byte := 0x5B   // [
  const Backslash: byte := 0x5C     // \
  const RightBracket: byte := 0x5D  // ]
  const LowerB: byte := 0x62     // b
  const LowerE: byte := 0x65     // e
  const LowerF: byte := 0x66     // f
  const LowerN: byte := 0x6E     // n
  const LowerR: byte := 0x72     // r
  const LowerT: byte := 0x74     // t
  const LowerU: byte := 0x75     // u
  const LeftBrace: byte := 0x7B  // {
  const RightBrace: byte := 0x7D // }

  const NullLiteral: seq<byte> := [0x6E, 0x75, 0x6C, 0x6C]          // null
  const TrueLiteral: seq<byte> := [0x74, 0x72, 0x75, 0x65]          // true
  const FalseLiteral: seq<byte> := [0x66, 0x61, 0x6C, 0x73, 0x65]   // false

  /** The byte under the cursor; past the end of the input it is the terminator. */
  function At(s: seq<byte>, i: nat): byte
  {
    if i < |s| then s[i] else Nul
  }

  predicate IsWhitespace(b: byte)
  {
    b == Space || b == Tab || b == LineFeed || b == CarriageReturn
  }

  /** my_parse_whitespace: the end of the run of whitespace starting at `i`. */
  function SkipWhitespace(s: seq<byte>, i: nat): (j: nat)
    ensures i <= j && (i <= |s| ==> j <= |s|)
    ensures forall k :: i <= k < j ==> IsWhitespace(At(s, k))
    ensures !IsWhitespace(At(s, j))
    decreases |s| - i
  {
    if IsWhitespace(At(s, i)) then SkipWhitespace(s, i + 1) else i
  }

  /** The outcome of a production: the value and the cursor after it, or an error. */
  datatype Parsed<T> = Done(val: T, next: nat) | Fail(code: Code)

  /** my_parse_literal: the literal must appear in full at the cursor. */
  function Literal(s: seq<byte>, i: nat, lit: seq<byte>, v: Value): Parsed<Value>
  {
    if i + |lit| <= |s| && s[i..i + |lit|] == lit then Done(v, i + |lit|) else Fail(InvalidValue)
  }

  // ---------------------------------------------------------------- numbers

  predicate IsDigit(b: byte) { 0x30 <= b <= 0x39 }

  predicate IsDigit1To9(b: byte) { 0x31 <= b <= 0x39 }

  predicate IsExponentMark(b: byte) { b == LowerE || b == UpperE }

  /** The end of the run of digits starting at `i`. */
  function DigitsEnd(s: seq<byte>, i: nat): (j: nat)
    ensures i <= j && (i <= |s| ==> j <= |s|)
    ensures forall k :: i <= k < j ==> IsDigit(At(s, k))
    ensures !IsDigit(At(s, j))
    decreases |s| - i
  {
    if IsDigit(At(s, i)) then DigitsEnd(s, i + 1) else i
  }

  /** The integer part at `p`: a single 0, or a non-zero digit and more digits. */
  function IntegerEnd(s: seq<byte>, p: nat): Option<nat>
  {
    if At(s, p) == Zero then Some(p + 1)
    else if IsDigit1To9(At(s, p)) then Some(DigitsEnd(s, p + 1))
    else None
  }

  /** The optional fraction at `p`: a dot must be followed by a digit. */
  function FractionEnd(s: seq<byte>, p: nat): Option<nat>
  {
    if At(s, p) != Dot then Some(p)
    else if IsDigit(At(s, p + 1)) then Some(DigitsEnd(s, p + 2))
    else None
  }

  /** The optional exponent at `p`: e or E, an optional sign, at least one digit. */
  function ExponentEnd(s: seq<byte>, p: nat): Option<nat>
  {
    if !IsExponentMark(At(s, p)) then Some(p)
    else
      var q := if At(s, p + 1) == Plus || At(s, p + 1) == Minus then p + 2 else p + 1;
      if IsDigit(At(s, q)) then Some(DigitsEnd(s, q + 1)) else None
  }

  /** The validation part of my_parse_number: the end of the number at `i`,
      or None where the C code returns InvalidValue. */
  function NumberEnd(s: seq<byte>, i: nat): (r: Option<nat>)
    ensures r.Some? ==> i < r.value && (i <= |s| ==> r.value <= |s|)
  {
    var p := if At(s, i) == Minus then i + 1 else i;
    match IntegerEnd(s, p)
    case None => None
    case Some(q) =>
      match FractionEnd(s, q)
      case None => None
      case Some(r) => ExponentEnd(s, r)
  }

  /** Positions x up to y of `t` are decimal digits (none when x == y). */
  predicate DigitsBetween(t: seq<byte>, x: nat, y: nat)
  {
    x <= y <= |t| && forall k :: x <= k < y ==> IsDigit(t[k])
  }

  /** t[x..y] is empty or a minus sign. */
  predicate IsSignPart(t: seq<byte>, x: nat, y: nat)
  {
    y <= |t| && (y == x || (y == x + 1 && t[x] == Minus))
  }

  /** t[x..y] is 0, or a non-zero digit followed by digits. */
  predicate IsIntegerPart(t: seq<byte>, x: nat, y: nat)
  {
    x < y <= |t| && ((t[x] == Zero && y == x + 1) || (IsDigit1To9(t[x]) && DigitsBetween(t, x + 1, y)))
  }

  /** t[x..y] is empty, or a dot followed by at least one digit. */
  predicate IsFractionPart(t: seq<byte>, x: nat, y: nat)
  {
    y <= |t| && (y == x || (x + 2 <= y && t[x] == Dot && DigitsBetween(t, x + 1, y)))
  }

  /** t[x..y] is empty, or e or E, an optional sign and at least one digit. */
  predicate IsExponentPart(t: seq<byte>, x: nat, y: nat)
  {
    y <= |t| &&
    (y == x ||
     (x + 2 <= y && IsExponentMark(t[x]) && DigitsBetween(t, x + 1, y)) ||
     (x + 3 <= y && IsExponentMark(t[x]) && (t[x + 1] == Plus || t[x + 1] == Minus) && DigitsBetween(t, x + 2, y)))
  }

  /** The number grammar of RFC 8259 section 6,
      -?(0|[1-9][0-9]*)(\.[0-9]+)?([eE][+-]?[0-9]+)?, as a predicate on a lexeme. */
  ghost predicate IsNumber(t: seq<byte>)
  {
    exists a, b, c :: NumberSplit(t, a, b, c)
  }

  /** The lexeme splits at `a`, `b` and `c` into sign, integer, fraction and exponent. */
  predicate NumberSplit(t: seq<byte>, a: nat, b: nat, c: nat)
  {
    a <= b <= c <= |t| &&
    IsSignPart(t, 0, a) && IsIntegerPart(t, a, b) && IsFractionPart(t, b, c) && IsExponentPart(t, c, |t|)
  }

  /** A byte that could not extend a number lexeme. */
  predicate EndsNumber(b: byte)
  {
    !IsDigit(b) && b != Dot && !IsExponentMark(b)
  }

  // ------------------------------------------------------- number oracle

  /** What strtod reports: the double it produced and whether errno became ERANGE. */
  datatype Conversion = Conversion(value: Double, erange: bool)

  /** strtod, applied to a validated lexeme; the library cannot see into it. */
  type Strtod = seq<byte> -> Conversion

  const HugeVal: Double := 0x7FF0_0000_0000_0000
  const NegHugeVal: Double := 0xFFF0_0000_0000_0000

  /** The overflow test of my_parse_number: ERANGE with a result of plus or minus HUGE_VAL. */
  predicate Overflows(c: Conversion)
  {
    c.erange && (c.value == HugeVal || c.value == NegHugeVal)
  }

  /** my_parse_number: validate, convert, reject overflow. */
  function ParseNumber(s: seq<byte>, i: nat, strtod: Strtod): Parsed<Value>
  {
    match NumberEnd(s, i)
    case None => Fail(InvalidValue)
    case Some(j) =>
      var c := strtod(s[i..if j <= |s| then j else |s|]);
      if Overflows(c) then Fail(NumberTooBig) else Done(Number(c.value), j)
  }

  // ---------------------------------------------------------------- strings

  /** my_parse_hex4: four hexadecimal digits at `p`, either case. */
  function Hex4(s: seq<byte>, p: nat): (r: Option<nat>)
    ensures r.Some? ==> r.value < 0x10000 && p + 4 <= |s|
    ensures r.Some? <==> (forall k :: p <= k < p + 4 ==> IsHexDigit(At(s, k)))
  {
    if IsHexDigit(At(s, p)) && IsHexDigit(At(s, p + 1)) && IsHexDigit(At(s, p + 2)) && IsHexDigit(At(s, p + 3)) then
      Some(0x1000 * HexValue(At(s, p)) + 0x100 * HexValue(At(s, p + 1))
           + 0x10 * HexValue(At(s, p + 2)) + HexValue(At(s, p + 3)))
    else
      None
  }

  /** The code point of a \u escape whose hex digits start at `p`, with the
      second half of a surrogate pair when the first is a high surrogate. */
  function UnicodeEscape(s: seq<byte>, p: nat): (r: Parsed<nat>)
    ensures r.Done? ==> r.val <= MaxCodePoint && p < r.next <= |s|
    ensures r.Fail? ==> r.code == InvalidUnicodeHex || r.code == InvalidUnicodeSurrogate
    ensures r.Done? ==> !IsHighSurrogate(r.val)
    ensures r.Fail? && r.code == InvalidUnicodeHex ==> Hex4(s, p).None? || Hex4(s, p + 6).None?
    ensures (Hex4(s, p).Some? && IsHighSurrogate(Hex4(s, p).value)
             && (At(s, p + 4) != Backslash || At(s, p + 5) != LowerU))
            ==> r == Fail(InvalidUnicodeSurrogate)
    ensures (Hex4(s, p).Some? && IsHighSurrogate(Hex4(s, p).value) && At(s, p + 4) == Backslash && At(s, p + 5) == LowerU
             && Hex4(s, p + 6).Some? && !IsLowSurrogate(Hex4(s, p + 6).value))
            ==> r == Fail(InvalidUnicodeSurrogate)
    ensures r.Done? && r.val >= 0x10000
            ==> (r.next == p + 10 && Hex4(s, p).Some? && Hex4(s, p + 6).Some?
                 && Split(r.val) == (Hex4(s, p).value, Hex4(s, p + 6).value))
  {
    match Hex4(s, p)
    case None => Fail(InvalidUnicodeHex)
    case Some(u) =>
      if !IsHighSurrogate(u) then Done(u, p + 4)
      else if At(s, p + 4) != Backslash || At(s, p + 5) != LowerU then Fail(InvalidUnicodeSurrogate)
      else
        match Hex4(s, p + 6)
        case None => Fail(InvalidUnicodeHex)
        case Some(u2) =>
          if !IsLowSurrogate(u2) then Fail(InvalidUnicodeSurrogate)
          else CombineSplit(u, u2, Combine(u, u2)); Done(Combine(u, u2), p + 10)
  }

  /** The byte a two-character escape stands for. */
  function EscapeTarget(b: byte): Option<byte>
  {
    if b == Quote then Some(Quote)
    else if b == Backslash then Some(Backslash)
    else if b == Slash then Some(Slash)
    else if b == LowerB then Some(0x08)
    else if b == LowerF then Some(0x0C)
    else if b == LowerN then Some(LineFeed)
    else if b == LowerR then Some(CarriageReturn)
    else if b == LowerT then Some(Tab)
    else None
  }

  /** The bytes a backslash escape at `p` stands for and the cursor after it:
      a \u escape (one code point, UTF-8 encoded) or a two-character escape. */
  function EscapeStep(s: seq<byte>, p: nat): (r: Parsed<seq<byte>>)
    ensures r.Done? ==> p + 2 <= r.next <= |s| && 1 <= |r.val| <= 4
    ensures r.Fail? ==> r.code in {InvalidStringEscape, InvalidUnicodeHex, InvalidUnicodeSurrogate}
  {
    var e := At(s, p + 1);
    if e == LowerU then
      match UnicodeEscape(s, p + 2)
      case Fail(c) => Fail(c)
      case Done(u, q) => Done(Utf8(u), q)
    else
      match EscapeTarget(e)
      case None => Fail(InvalidStringEscape)
      case Some(b) => Done([b], p + 2)
  }

  /** The outcome of scanning a string body: its bytes and the cursor after the
      closing quote, or an error with the bytes staged when it occurred. */
  datatype Scan = Scanned(bytes: seq<byte>, next: nat) | ScanFailed(code: Code, staged: seq<byte>)

  /** The loop of my_parse_string_raw from `p`, with `acc` already staged. */
  function ScanString(s: seq<byte>, p: nat, acc: seq<byte>): (r: Scan)
    ensures r.Scanned? ==> p < r.next <= |s|
    ensures r.ScanFailed? ==> r.code != Ok
    decreases |s| - p
  {
    var ch := At(s, p);
    if ch == Quote then
      Scanned(acc, p + 1)
    else if ch == Backslash then
      match EscapeStep(s, p)
      case Fail(c) => ScanFailed(c, acc)
      case Done(b, q) => ScanString(s, q, acc + b)
    else if ch == Nul then
      ScanFailed(MissQuotationMark, acc)
    else if ch < 0x20 then
      ScanFailed(InvalidStringChar, acc)
    else
      ScanString(s, p + 1, acc + [ch])
  }

  // ----------------------------------------------------------------- values

  /** my_parse_string, from the cursor on the opening quote. */
  function ParseString(s: seq<byte>, i: nat): (r: Parsed<Value>)
    ensures r.Done? ==> i < r.next <= |s| && r.val.String?
    ensures r.Fail? ==> r.code != Ok
  {
    match ScanString(s, i + 1, [])
    case ScanFailed(c, _) => Fail(c)
    case Scanned(b, j) => Done(String(b), j)
  }

  /** my_parse_value: dispatch on the byte under the cursor. */
  function ParseValue(s: seq<byte>, i: nat, strtod: Strtod): (r: Parsed<Value>)
    ensures r.Done? ==> i < r.next <= |s|
    ensures r.Fail? ==> r.code != Ok
    decreases |s| - i, 1
  {
    var ch := At(s, i);
    if ch == LowerN then Literal(s, i, NullLiteral, Null)
    else if ch == LowerT then Literal(s, i, TrueLiteral, True)
    else if ch == LowerF then Literal(s, i, FalseLiteral, False)
    else if ch == Quote then ParseString(s, i)
    else if ch == LeftBracket then ParseArray(s, i, strtod)
    else if ch == LeftBrace then ParseObject(s, i, strtod)
    else if ch == Nul then Fail(ExpectValue)
    else ParseNumber(s, i, strtod)
  }

  /** my_parse_array, from the cursor on its opening bracket. */
  function ParseArray(s: seq<byte>, i: nat, strtod: Strtod): (r: Parsed<Value>)
    requires i < |s|
    ensures r.Done? ==> i < r.next <= |s|
    ensures r.Fail? ==> r.code != Ok
    decreases |s| - i, 0
  {
    var j := SkipWhitespace(s, i + 1);
    if At(s, j) == RightBracket then Done(Array([]), j + 1)
    else ParseElements(s, j, [], strtod)
  }

  /** Where one round of an element or member loop leads: on to the next
      round with the records parsed so far, or out of the loop with a result. */
  datatype Step<T> = More(acc: seq<T>, next: nat) | Stop(result: Parsed<Value>)

  /** One round of the element loop of my_parse_array at `j`: a value, then a
      comma (go on) or a closing bracket (done). */
  function ElementStep(s: seq<byte>, j: nat, acc: seq<Value>, strtod: Strtod): (r: Step<Value>)
    requires j <= |s|
    ensures r.More? ==> j < r.next <= |s| && |r.acc| > |acc|
    ensures r.Stop? && r.result.Done? ==> j < r.result.next <= |s|
    ensures r.Stop? && r.result.Done? ==> r.result.val.Array? && |r.result.val.e| > |acc|
    ensures r.Stop? && r.result.Fail? ==> r.result.code != Ok
    decreases |s| - j, 2
  {
    match ParseValue(s, j, strtod)
    case Fail(c) => Stop(Fail(c))
    case Done(v, k) => ElementSeparator(s, k, acc + [v])
  }

  /** What follows an element at `k`: a comma (go on) or a closing bracket. */
  function ElementSeparator(s: seq<byte>, k: nat, acc: seq<Value>): (r: Step<Value>)
    requires k <= |s|
    ensures r.More? ==> k < r.next <= |s| && r.acc == acc
    ensures r.Stop? && r.result.Done? ==> r.result.val == Array(acc)
    ensures r.Stop? && r.result.Done? ==> k < r.result.next <= |s|
    ensures r.Stop? && r.result.Fail? ==> r.result.code != Ok
  {
    var k1 := SkipWhitespace(s, k);
    if At(s, k1) == Comma then More(acc, SkipWhitespace(s, k1 + 1))
    else if At(s, k1) == RightBracket then Stop(Done(Array(acc), k1 + 1))
    else Stop(Fail(MissCommaOrSquareBracket))
  }

  /** The element loop of my_parse_array from `j`, with `acc` parsed so far. */
  function ParseElements(s: seq<byte>, j: nat, acc: seq<Value>, strtod: Strtod): (r: Parsed<Value>)
    requires j <= |s|
    ensures r.Done? ==> j < r.next <= |s|
    ensures r.Done? ==> r.val.Array? && |r.val.e| > |acc|
    ensures r.Fail? ==> r.code != Ok
    decreases |s| - j, 3
  {
    match ElementStep(s, j, acc, strtod)
    case More(a, n) => ParseElements(s, n, a, strtod)
    case Stop(r) => r
  }

  /** my_parse_object, from the cursor on its opening brace. */
  function ParseObject(s: seq<byte>, i: nat, strtod: Strtod): (r: Parsed<Value>)
    requires i < |s|
    ensures r.Done? ==> i < r.next <= |s|
    ensures r.Fail? ==> r.code != Ok
    decreases |s| - i, 0
  {
    var j := SkipWhitespace(s, i + 1);
    if At(s, j) == RightBrace then Done(Object([]), j + 1)
    else ParseMembers(s, j, [], strtod)
  }

  /** One round of the member loop of my_parse_object at `j`: a key and a
      colon, then the rest of the member. */
  function MemberStep(s: seq<byte>, j: nat, acc: seq<Member>, strtod: Strtod): (r: Step<Member>)
    requires j <= |s|
    ensures r.More? ==> j < r.next <= |s| && |r.acc| > |acc|
    ensures r.Stop? && r.result.Done? ==> j < r.result.next <= |s|
    ensures r.Stop? && r.result.Done? ==> r.result.val.Object? && |r.result.val.m| > |acc|
    ensures r.Stop? && r.result.Fail? ==> r.result.code != Ok
    decreases |s| - j, 2
  {
    if At(s, j) != Quote then Stop(Fail(MissKey))
    else
      match ScanString(s, j + 1, [])
      case ScanFailed(c, _) => Stop(Fail(c))
      case Scanned(key, k) =>
        var k1 := SkipWhitespace(s, k);
        if At(s, k1) != Colon then Stop(Fail(MissColon))
        else MemberValue(s, SkipWhitespace(s, k1 + 1), key, acc, strtod)
  }

  /** The value of a member whose key and colon have been read, then what
      follows it. */
  function MemberValue(s: seq<byte>, j: nat, key: seq<byte>, acc: seq<Member>, strtod: Strtod): (r: Step<Member>)
    requires j <= |s|
    ensures r.More? ==> j < r.next <= |s| && |r.acc| > |acc|
    ensures r.Stop? && r.result.Done? ==> j < r.result.next <= |s|
    ensures r.Stop? && r.result.Done? ==> r.result.val.Object? && |r.result.val.m| > |acc|
    ensures r.Stop? && r.result.Fail? ==> r.result.code != Ok
    decreases |s| - j, 2
  {
    match ParseValue(s, j, strtod)
    case Fail(c) => Stop(Fail(c))
    case Done(v, k2) => MemberSeparator(s, k2, acc + [Member(key, v)])
  }

  /** What follows a member at `k`: a comma (go on) or a closing brace. */
  function MemberSeparator(s: seq<byte>, k: nat, acc: seq<Member>): (r: Step<Member>)
    requires k <= |s|
    ensures r.More? ==> k < r.next <= |s| && r.acc == acc
    ensures r.Stop? && r.result.Done? ==> r.result.val == Object(acc)
    ensures r.Stop? && r.result.Done? ==> k < r.result.next <= |s|
    ensures r.Stop? && r.result.Fail? ==> r.result.code != Ok
  {
    var k3 := SkipWhitespace(s, k);
    if At(s, k3) == Comma then More(acc, SkipWhitespace(s, k3 + 1))
    else if At(s, k3) == RightBrace then Stop(Done(Object(acc), k3 + 1))
    else Stop(Fail(MissCommaOrCurlyBracket))
  }

  /** The member loop of my_parse_object from `j`, with `acc` parsed so far. */
  function ParseMembers(s: seq<byte>, j: nat, acc: seq<Member>, strtod: Strtod): (r: Parsed<Value>)
    requires j <= |s|
    ensures r.Done? ==> j < r.next <= |s|
    ensures r.Done? ==> r.val.Object? && |r.val.m| > |acc|
    ensures r.Fail? ==> r.code != Ok
    decreases |s| - j, 3
  {
    match MemberStep(s, j, acc, strtod)
    case More(a, n) => ParseMembers(s, n, a, strtod)
    case Stop(r) => r
  }

  /** my_parse: whitespace, one value, whitespace, then the end of the input.
      The value is Null unless the code is Ok. */
  function Parse(s: seq<byte>, strtod: Strtod): (r: (Code, Value))
    ensures r.0 != Ok ==> r.1 == Null
  {
    match ParseValue(s, SkipWhitespace(s, 0), strtod)
    case Fail(c) => (c, Null)
    case Done(v, j) => if At(s, SkipWhitespace(s, j)) != Nul then (RootNotSingular, Null) else (Ok, v)
  }
}
