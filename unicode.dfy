/** Code-point arithmetic used by the string scanner: hexadecimal digits,
    UTF-16 surrogate pairs (RFC 2781, section 2.2) and UTF-8 (RFC 3629,
    section 3).  The C code works on `unsigned` with shifts, masks and `|`;
    every operand here is small enough that `x >> k` is `x / 2^k`,
    `x & (2^k - 1)` is `x % 2^k`, and each `|` joins disjoint bits, so it is
    written as `+`. */
module Unicode {

  import opened Json
  import opened Wrappers

  const MaxCodePoint := 0x10FFFF

  predicate IsHexDigit(b: byte)
  {
    (0x30 <= b <= 0x39) || (0x41 <= b <= 0x46) || (0x61 <= b <= 0x66)
  }

  /** The value of one hexadecimal digit, either case. */
  function HexValue(b: byte): (d: nat)
    requires IsHexDigit(b)
    ensures d < 16
    ensures 0x30 <= b <= 0x39 ==> d == b - 0x30
    ensures 0x41 <= b <= 0x46 ==> d == b - 0x41 + 10
    ensures 0x61 <= b <= 0x66 ==> d == b - 0x61 + 10
  {
    if b <= 0x39 then b - 0x30 else if b <= 0x46 then b - 0x41 + 10 else b - 0x61 + 10
  }

  predicate IsHighSurrogate(u: nat) { 0xD800 <= u <= 0xDBFF }

  predicate IsLowSurrogate(u: nat) { 0xDC00 <= u <= 0xDFFF }

  /** The code point a surrogate pair stands for. */
  function Combine(high: nat, low: nat): (u: nat)
    requires IsHighSurrogate(high) && IsLowSurrogate(low)
    ensures 0x10000 <= u <= MaxCodePoint
  {
    (high - 0xD800) * 0x400 + (low - 0xDC00) + 0x10000
  }

  /** The surrogate pair of a supplementary code point, as RFC 2781 section 2.1
      encodes it; the independent reference for `Combine`. */
  function Split(u: nat): (pair: (nat, nat))
    requires 0x10000 <= u <= MaxCodePoint
    ensures IsHighSurrogate(pair.0) && IsLowSurrogate(pair.1)
  {
    (0xD800 + (u - 0x10000) / 0x400, 0xDC00 + (u - 0x10000) % 0x400)
  }

  /** Combining is the inverse of RFC 2781 encoding, in both directions. */
  lemma CombineSplit(high: nat, low: nat, u: nat)
    requires IsHighSurrogate(high) && IsLowSurrogate(low)
    requires 0x10000 <= u <= MaxCodePoint
    ensures Split(Combine(high, low)) == (high, low)
    ensures Combine(Split(u).0, Split(u).1) == u
  {
    var d := (high - 0xD800) * 0x400 + (low - 0xDC00);
    assert d / 0x400 == high - 0xD800 && d % 0x400 == low - 0xDC00;
  }

  /** my_encode_utf8: one, two, three or four bytes by range. */
  function Utf8(u: nat): (r: seq<byte>)
    requires u <= MaxCodePoint
    ensures |r| == if u <= 0x7F then 1 else if u <= 0x7FF then 2 else if u <= 0xFFFF then 3 else 4
  {
    if u <= 0x7F then
      [u]
    else if u <= 0x7FF then
      [0xC0 + u / 0x40, 0x80 + u % 0x40]
    else if u <= 0xFFFF then
      [0xE0 + u / 0x1000, 0x80 + (u / 0x40) % 0x40, 0x80 + u % 0x40]
    else
      [0xF0 + u / 0x40000, 0x80 + (u / 0x1000) % 0x40, 0x80 + (u / 0x40) % 0x40, 0x80 + u % 0x40]
  }

  predicate IsContinuation(b: byte) { 0x80 <= b < 0xC0 }

  /** A reference decoder for one UTF-8 sequence following the bit patterns of
      RFC 3629 section 3: it refuses overlong forms and values above U+10FFFF,
      and, like the encoder above, does not single out the surrogate range. */
  function DecodeUtf8(b: seq<byte>): Option<nat>
  {
    if |b| == 1 && b[0] < 0x80 then
      Some(b[0])
    else if |b| == 2 && 0xC0 <= b[0] < 0xE0 && IsContinuation(b[1]) then
      var u := (b[0] as int - 0xC0) * 0x40 + (b[1] - 0x80);
      if u >= 0x80 then Some(u) else None
    else if |b| == 3 && 0xE0 <= b[0] < 0xF0 && IsContinuation(b[1]) && IsContinuation(b[2]) then
      var u := (b[0] as int - 0xE0) * 0x1000 + (b[1] as int - 0x80) * 0x40 + (b[2] - 0x80);
      if u >= 0x800 then Some(u) else None
    else if |b| == 4 && 0xF0 <= b[0] < 0xF8 && IsContinuation(b[1]) && IsContinuation(b[2])
            && IsContinuation(b[3]) then
      var u := (b[0] as int - 0xF0) * 0x40000 + (b[1] as int - 0x80) * 0x1000 + (b[2] as int - 0x80) * 0x40 + (b[3] - 0x80);
      if 0x10000 <= u <= MaxCodePoint then Some(u) else None
    else
      None
  }

  /** The bytes the encoder emits decode back to the code point. */
  lemma Utf8RoundTrip(u: nat)
    requires u <= MaxCodePoint
    ensures DecodeUtf8(Utf8(u)) == Some(u)
  {
    if 0x7FF < u <= 0xFFFF {
      ThreeByteRoundTrip(u);
    } else if 0xFFFF < u {
      FourByteRoundTrip(u);
    }
  }

  /** The three-byte form: 4 + 6 + 6 payload bits. */
  lemma ThreeByteRoundTrip(u: nat)
    requires 0x7FF < u <= 0xFFFF
    ensures DecodeUtf8(Utf8(u)) == Some(u)
  {
    var a, b, c := u / 0x1000, (u / 0x40) % 0x40, u % 0x40;
    Recompose3(u);
    Decode3(a, b, c);
  }

  /** Shifting right by 6 twice is shifting right by 12. */
  lemma ShiftTwice(x: nat)
    ensures x / 0x40 / 0x40 == x / 0x1000
  {
    var q, r := x / 0x1000, x % 0x1000;
    assert x == q * 0x1000 + r;
    assert x / 0x40 == q * 0x40 + r / 0x40;
  }

  /** Shifting right by 12 and then by 6 is shifting right by 18. */
  lemma ShiftThrice(x: nat)
    ensures x / 0x1000 / 0x40 == x / 0x40000
  {
    var q, r := x / 0x40000, x % 0x40000;
    assert x == q * 0x40000 + r;
    assert x / 0x1000 == q * 0x40 + r / 0x1000;
  }

  /** A code point below 0x10000 is its 4 + 6 + 6 bit groups put back together. */
  lemma Recompose3(u: nat)
    requires u <= 0xFFFF
    ensures u / 0x1000 < 0x10
    ensures u == u / 0x1000 * 0x1000 + (u / 0x40) % 0x40 * 0x40 + u % 0x40
  {
    var q1 := u / 0x40;
    var q2 := q1 / 0x40;
    ShiftTwice(u);
    assert u == q1 * 0x40 + u % 0x40;
    assert q1 == q2 * 0x40 + q1 % 0x40;
  }

  /** The decoder reassembles three bit groups. */
  lemma Decode3(a: nat, b: nat, c: nat)
    requires a < 0x10 && b < 0x40 && c < 0x40 && a * 0x1000 + b * 0x40 + c > 0x7FF
    ensures DecodeUtf8([0xE0 + a, 0x80 + b, 0x80 + c]) == Some(a * 0x1000 + b * 0x40 + c)
  {
  }

  /** The four-byte form: 3 + 6 + 6 + 6 payload bits. */
  lemma FourByteRoundTrip(u: nat)
    requires 0xFFFF < u <= MaxCodePoint
    ensures DecodeUtf8(Utf8(u)) == Some(u)
  {
    var a, b, c, d := u / 0x40000, (u / 0x1000) % 0x40, (u / 0x40) % 0x40, u % 0x40;
    Recompose4(u);
    Decode4(a, b, c, d);
  }

  /** A code point is its 3 + 6 + 6 + 6 bit groups put back together. */
  lemma Recompose4(u: nat)
    requires u <= MaxCodePoint
    ensures u / 0x40000 < 0x8
    ensures u == u / 0x40000 * 0x40000 + (u / 0x1000) % 0x40 * 0x1000 + (u / 0x40) % 0x40 * 0x40 + u % 0x40
  {
    var q1 := u / 0x40;
    var q2 := q1 / 0x40;
    var q3 := q2 / 0x40;
    ShiftTwice(u);
    ShiftThrice(u);
    assert u == q1 * 0x40 + u % 0x40;
    assert q1 == q2 * 0x40 + q1 % 0x40;
    assert q2 == q3 * 0x40 + q2 % 0x40;
  }

  /** The decoder reassembles four bit groups. */
  lemma Decode4(a: nat, b: nat, c: nat, d: nat)
    requires a < 0x8 && b < 0x40 && c < 0x40 && d < 0x40
    requires 0x10000 <= a * 0x40000 + b * 0x1000 + c * 0x40 + d <= MaxCodePoint
    ensures DecodeUtf8([0xF0 + a, 0x80 + b, 0x80 + c, 0x80 + d]) == Some(a * 0x40000 + b * 0x1000 + c * 0x40 + d)
  {
  }

  /** Different code points have different encodings. */
  lemma Utf8Injective(u1: nat, u2: nat)
    requires u1 <= MaxCodePoint && u2 <= MaxCodePoint
    ensures Utf8(u1) == Utf8(u2) ==> u1 == u2
  {
    Utf8RoundTrip(u1);
    Utf8RoundTrip(u2);
  }

  /** A lone low surrogate is not rejected but encoded into the three-byte form
      ED A0..BF xx that RFC 3629 section 3 excludes. */
  lemma LoneLowSurrogateEncoded(u: nat)
    requires IsLowSurrogate(u)
    ensures |Utf8(u)| == 3 && Utf8(u)[0] == 0xED && 0xA0 <= Utf8(u)[1] <= 0xBF
  {
  }

  /** The two encodings the library's tests check: U+20AC and the pair D834 DD1E. */
  lemma Utf8Examples()
    ensures Utf8(0x20AC) == [0xE2, 0x82, 0xAC]
    ensures Utf8(Combine(0xD834, 0xDD1E)) == [0xF0, 0x9D, 0x84, 0x9E]
  {
    assert Combine(0xD834, 0xDD1E) == 0x1D11E;
  }
}
