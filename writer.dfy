/** The serializer of myjson.c as functions: compact rendering of a value
    tree, with no whitespace.  Number formatting (sprintf "%.17g") is a
    parameter.  These functions are the specification the imperative
    serializer (module Serializer) is proved against.  Runs are defined by
    their last item, the order in which the library's loops emit them. */
module Writer {

  import opened Json
  import opened Grammar

  /** sprintf("%.17g", n): the library cannot see into it. */
  type Format = Double -> seq<byte>

  /** The upper-case hexadecimal digit of a value below 16. */
  function HexDigit(d: nat): (b: byte)
    requires d < 16
    ensures Unicode.IsHexDigit(b) && Unicode.HexValue(b) == d
  {
    if d < 10 then 0x30 + d else 0x41 + d - 10
  }

  /** The rendering of one string byte: the seven named escapes, \u00XX for the
      other control characters, and every other byte as it is. */
  function EscapeByte(b: byte): (r: seq<byte>)
    ensures 1 <= |r| <= 6
  {
    if b == Quote then [Backslash, Quote]
    else if b == Backslash then [Backslash, Backslash]
    else if b == 0x08 then [Backslash, LowerB]
    else if b == 0x0C then [Backslash, LowerF]
    else if b == LineFeed then [Backslash, LowerN]
    else if b == CarriageReturn then [Backslash, LowerR]
    else if b == Tab then [Backslash, LowerT]
    else if b < 0x20 then [Backslash, LowerU, Zero, Zero, HexDigit(b / 16), HexDigit(b % 16)]
    else [b]
  }

  /** The escaped bytes of a string body. */
  function Escape(b: seq<byte>): seq<byte>
  {
    if b == [] then [] else Escape(b[..|b| - 1]) + EscapeByte(b[|b| - 1])
  }

  /** my_stringify_string: a string in quotes. */
  function StringifyString(b: seq<byte>): seq<byte>
  {
    [Quote] + Escape(b) + [Quote]
  }

  /** my_stringify_value. */
  function Stringify(v: Value, fmt: Format): seq<byte>
    decreases v
  {
    match v
    case Null => NullLiteral
    case False => FalseLiteral
    case True => TrueLiteral
    case Number(n) => fmt(n)
    case String(b) => StringifyString(b)
    case Array(e) => [LeftBracket] + StringifyElements(e, fmt) + [RightBracket]
    case Object(m) => [LeftBrace] + StringifyMembers(m, fmt) + [RightBrace]
  }

  /** Elements joined by commas: a comma before every element but the first. */
  function StringifyElements(e: seq<Value>, fmt: Format): seq<byte>
    decreases e
  {
    if e == [] then []
    else StringifyElements(e[..|e| - 1], fmt) + (if |e| > 1 then [Comma] else []) + Stringify(e[|e| - 1], fmt)
  }

  /** One member: its key as a string, a colon, its value. */
  function StringifyMember(m: Member, fmt: Format): seq<byte>
    decreases m
  {
    StringifyString(m.k) + [Colon] + Stringify(m.v, fmt)
  }

  /** Members joined by commas. */
  function StringifyMembers(m: seq<Member>, fmt: Format): seq<byte>
    decreases m
  {
    if m == [] then []
    else StringifyMembers(m[..|m| - 1], fmt) + (if |m| > 1 then [Comma] else []) + StringifyMember(m[|m| - 1], fmt)
  }
}
