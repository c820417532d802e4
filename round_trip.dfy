/** Parsing what the serializer writes gives the value back: for every value
    whose numbers sprintf("%.17g") writes as a JSON number that strtod reads
    back exactly, Parse(Stringify(v)) == (Ok, v).  The proof follows the
    parser forward over the serializer's output, one production at a time. */
module RoundTrip {

  import opened Json
  import opened Unicode
  import opened Grammar
  import opened Writer
  import opened WriterFacts
  import opened NumberFacts
  import opened Wrappers
  import GrammarFacts

  // ------------------------------------------------------------ occurrences

  /** `w` appears in `s` from position `p` on. */
  predicate Occurs(s: seq<byte>, p: nat, w: seq<byte>)
  {
    p + |w| <= |s| && forall k {:trigger w[k]} :: 0 <= k < |w| ==> s[p + k] == w[k]
  }

  /** An occurrence of `a + b` is an occurrence of `a` followed by one of `b`. */
  lemma OccursSplit(s: seq<byte>, p: nat, a: seq<byte>, b: seq<byte>)
    requires Occurs(s, p, a + b)
    ensures Occurs(s, p, a) && Occurs(s, p + |a|, b)
  {
    forall k | 0 <= k < |a| ensures s[p + k] == a[k] {
      assert (a + b)[k] == a[k];
    }
    forall k | 0 <= k < |b| ensures s[p + |a| + k] == b[k] {
      assert (a + b)[|a| + k] == b[k];
    }
  }

  /** An occurrence of a sequence is an occurrence of each of its prefixes. */
  lemma OccursPrefix(s: seq<byte>, p: nat, w: seq<byte>, u: seq<byte>)
    requires Occurs(s, p, w) && u <= w
    ensures Occurs(s, p, u)
  {
    forall k | 0 <= k < |u| ensures s[p + k] == u[k] {
      assert u[k] == w[k];
    }
  }

  /** Each byte of an occurrence is under the cursor at its offset. */
  lemma OccursAt(s: seq<byte>, p: nat, w: seq<byte>, k: nat)
    requires Occurs(s, p, w) && k < |w|
    ensures At(s, p + k) == w[k]
  {
  }

  /** A piece of an occurrence, after a given part of it, occurs right after that part. */
  lemma OccursPiece(s: seq<byte>, p: nat, w: seq<byte>, pre: seq<byte>, piece: seq<byte>, q: nat)
    requires Occurs(s, p, w) && pre + piece <= w && q == p + |pre|
    ensures Occurs(s, q, piece)
  {
    OccursPrefix(s, p, w, pre + piece);
    OccursSplit(s, p, pre, piece);
  }

  /** The byte of an occurrence that follows a given part of it. */
  lemma OccursNext(s: seq<byte>, p: nat, w: seq<byte>, pre: seq<byte>, b: byte)
    requires Occurs(s, p, w) && pre + [b] <= w
    ensures At(s, p + |pre|) == b
  {
    OccursPiece(s, p, w, pre, [b], p + |pre|);
    OccursAt(s, p + |pre|, [b], 0);
  }
  /** An occurrence as the slice the grammar compares with. */
  lemma OccursSlice(s: seq<byte>, p: nat, w: seq<byte>)
    requires Occurs(s, p, w)
    ensures s[p..p + |w|] == w
  {
    forall k | 0 <= k < |w| ensures s[p..p + |w|][k] == w[k] {
      assert s[p..p + |w|][k] == s[p + k];
    }
  }

  /** A prefix one item longer is the prefix and that item. */
  lemma PrefixSnoc<T>(q: seq<T>, k: nat)
    requires k < |q|
    ensures q[..k] + [q[k]] == q[..k + 1]
  {
    assert q[..k + 1] == q[..k] + [q[k]];
  }

  // ---------------------------------------------------------------- strings

  /** The hex digits of \u00XX read back as XX. */
  lemma ControlHex(s: seq<byte>, p: nat, x: byte)
    requires x < 0x20
    requires Occurs(s, p, [Zero, Zero, HexDigit(x / 16), HexDigit(x % 16)])
    ensures Hex4(s, p) == Some(x)
  {
    var w := [Zero, Zero, HexDigit(x / 16), HexDigit(x % 16)];
    OccursAt(s, p, w, 0);
    OccursAt(s, p, w, 1);
    OccursAt(s, p, w, 2);
    OccursAt(s, p, w, 3);
  }

  /** Scanning the escape of one byte stages that byte. */
  lemma ScanEscapedByte(s: seq<byte>, p: nat, x: byte, acc: seq<byte>, q: nat, acc2: seq<byte>)
    requires Occurs(s, p, EscapeByte(x)) && q == p + |EscapeByte(x)| && acc2 == acc + [x]
    ensures ScanString(s, p, acc) == ScanString(s, q, acc2)
  {
    var w := EscapeByte(x);
    OccursAt(s, p, w, 0);
    if |w| == 2 {
      OccursAt(s, p, w, 1);
    } else if |w| == 6 {
      OccursAt(s, p, w, 1);
      assert w == [Backslash, LowerU] + [Zero, Zero, HexDigit(x / 16), HexDigit(x % 16)];
      OccursSplit(s, p, [Backslash, LowerU], [Zero, Zero, HexDigit(x / 16), HexDigit(x % 16)]);
      ControlHex(s, p + 2, x);
      assert UnicodeEscape(s, p + 2) == Done(x, p + 6);
      assert EscapeStep(s, p) == Done([x], p + 6);
    }
  }

  /** The escape of byte `j` follows the escapes of the bytes before it:
      it lies from `q` to `q2`. */
  lemma EscapedByteAt(s: seq<byte>, p: nat, b: seq<byte>, j: nat, q: nat, q2: nat)
    requires Occurs(s, p, Escape(b)) && j < |b|
    requires q == p + |Escape(b[..j])| && q2 == p + |Escape(b[..j + 1])|
    ensures Occurs(s, q, EscapeByte(b[j])) && q2 == q + |EscapeByte(b[j])|
  {
    EscapePiece(b, j);
    OccursPiece(s, p, Escape(b), Escape(b[..j]), EscapeByte(b[j]), q);
  }

  /** The escape of byte `j` follows the escape of the bytes before it,
      inside the escape of the whole string. */
  lemma EscapePiece(b: seq<byte>, j: nat)
    requires j < |b|
    ensures Escape(b[..j]) + EscapeByte(b[j]) <= Escape(b)
    ensures |Escape(b[..j + 1])| == |Escape(b[..j])| + |EscapeByte(b[j])|
  {
    EscapeSnoc(b, j);
    EscapePrefix(b, j + 1);
  }

  /** The escape of a prefix is a prefix of the escape. */
  lemma {:induction false} EscapePrefix(b: seq<byte>, k: nat)
    requires k <= |b|
    ensures Escape(b[..k]) <= Escape(b)
    decreases |b|
  {
    if k < |b| {
      var init := b[..|b| - 1];
      EscapePrefix(init, k);
      assert init[..k] == b[..k];
    } else {
      assert b[..k] == b;
    }
  }

  /** The escapes of the bytes of `b` lie in `s` one after the other, the
      escape of `b[j]` from `at[j]` on. */
  predicate LaidOut(s: seq<byte>, at: seq<nat>, b: seq<byte>)
  {
    |at| == |b| + 1 &&
    forall j :: 0 <= j < |b| ==> Occurs(s, at[j], EscapeByte(b[j])) && at[j + 1] == at[j] + |EscapeByte(b[j])|
  }

  /** Where the escape of each byte of `b` starts, when the escape of `b` is at `p`. */
  lemma EscapeLayout(s: seq<byte>, p: nat, b: seq<byte>) returns (at: seq<nat>)
    requires Occurs(s, p, Escape(b))
    ensures LaidOut(s, at, b) && at[0] == p && at[|b|] == p + |Escape(b)|
  {
    at := seq(|b| + 1, j requires 0 <= j <= |b| => p + |Escape(b[..j])|);
    forall j | 0 <= j < |b|
      ensures Occurs(s, at[j], EscapeByte(b[j])) && at[j + 1] == at[j] + |EscapeByte(b[j])|
    {
      EscapedByteAt(s, p, b, j, at[j], at[j + 1]);
    }
    assert b[..0] == [] && b[..|b|] == b;
  }

  /** Chaining steps: an outcome `f` that no step of a run changes is the
      same before the run and after its first `k` steps. */
  lemma {:induction false} Chain(f: (nat, seq<byte>) -> Scan, at: seq<nat>, b: seq<byte>, acc: seq<byte>, k: nat)
    requires |at| == |b| + 1 && k <= |b|
    requires forall j :: 0 <= j < |b| ==> f(at[j], acc + b[..j]) == f(at[j + 1], acc + b[..j + 1])
    ensures f(at[0], acc) == f(at[k], acc + b[..k])
    decreases k
  {
    if k == 0 {
      assert acc + b[..0] == acc;
    } else {
      Chain(f, at, b, acc, k - 1);
    }
  }

  /** The closing quote ends the scan with what is staged. */
  lemma ScanClose(s: seq<byte>, q: nat, a: seq<byte>)
    requires At(s, q) == Quote
    ensures ScanString(s, q, a) == Scanned(a, q + 1)
  {
  }

  /** Scanning the escapes laid out from `p` to `end`, up to a closing quote
      at `end`, stages all of `b`. */
  lemma ScanLaidOut(s: seq<byte>, at: seq<nat>, b: seq<byte>, acc: seq<byte>, p: nat, end: nat)
    requires LaidOut(s, at, b) && at[0] == p && at[|b|] == end && At(s, end) == Quote
    ensures ScanString(s, p, acc) == Scanned(acc + b, end + 1)
  {
    var f := (q: nat, a: seq<byte>) => ScanString(s, q, a);
    forall j | 0 <= j < |b|
      ensures f(at[j], acc + b[..j]) == f(at[j + 1], acc + b[..j + 1])
    {
      PrefixSnoc(b, j);
      ScanEscapedByte(s, at[j], b[j], acc + b[..j], at[j + 1], acc + b[..j + 1]);
    }
    Chain(f, at, b, acc, |b|);
    assert b[..|b|] == b;
    ScanClose(s, end, acc + b);
  }

  /** Scanning an escaped string body up to its closing quote at `close`
      stages the body. */
  lemma ScanEscaped(s: seq<byte>, p: nat, b: seq<byte>, acc: seq<byte>, close: nat)
    requires Occurs(s, p, Escape(b)) && close == p + |Escape(b)| && At(s, close) == Quote
    ensures ScanString(s, p, acc) == Scanned(acc + b, close + 1)
  {
    var at := EscapeLayout(s, p, b);
    ScanLaidOut(s, at, b, acc, p, close);
  }

  /** A serialized string at `p`: a quote, the escaped body, and a quote at `close`. */
  lemma QuotedAt(s: seq<byte>, p: nat, b: seq<byte>, close: nat)
    requires Occurs(s, p, StringifyString(b)) && close + 1 == p + |StringifyString(b)|
    ensures At(s, p) == Quote && At(s, close) == Quote
    ensures Occurs(s, p + 1, Escape(b)) && close == p + 1 + |Escape(b)|
  {
    var w := StringifyString(b);
    OccursAt(s, p, w, 0);
    OccursAt(s, p, w, |w| - 1);
    assert w == [Quote] + Escape(b) + [Quote];
    OccursSplit(s, p, [Quote] + Escape(b), [Quote]);
    OccursSplit(s, p, [Quote], Escape(b));
  }

  /** A serialized string, ending at `end`, parses back to itself. */
  lemma StringRoundTrip(s: seq<byte>, p: nat, b: seq<byte>, end: nat)
    requires Occurs(s, p, StringifyString(b)) && end == p + |StringifyString(b)|
    ensures At(s, p) == Quote
    ensures ScanString(s, p + 1, []) == Scanned(b, end)
  {
    QuotedAt(s, p, b, end - 1);
    ScanEscaped(s, p + 1, b, [], end - 1);
    assert [] + b == b;
  }

  // ---------------------------------------------------------------- numbers

  /** sprintf writes `n` as a number lexeme that strtod reads back exactly. */
  ghost predicate ReadsBack(n: Double, fmt: Format, strtod: Strtod)
  {
    IsNumber(fmt(n)) && strtod(fmt(n)) == Conversion(n, false)
  }

  /** Every number in the tree reads back. */
  ghost predicate NumbersReadBack(v: Value, fmt: Format, strtod: Strtod)
    decreases v
  {
    match v
    case Number(n) => ReadsBack(n, fmt, strtod)
    case Array(e) => forall k :: 0 <= k < |e| ==> NumbersReadBack(e[k], fmt, strtod)
    case Object(m) => forall k :: 0 <= k < |m| ==> NumbersReadBack(m[k].v, fmt, strtod)
    case _ => true
  }

  /** A number lexeme starts with a minus sign or a digit. */
  lemma NumberStart(t: seq<byte>)
    requires IsNumber(t)
    ensures |t| > 0 && (t[0] == Minus || IsDigit(t[0]))
  {
    var a, b, c :| NumberSplit(t, a, b, c);
  }

  /** The bytes a serialized value can start with. */
  predicate Lead(b: byte)
  {
    b == LowerN || b == LowerT || b == LowerF || b == Quote || b == LeftBracket || b == LeftBrace
    || b == Minus || IsDigit(b)
  }

  /** A serialized value is never empty and starts with a byte that is not
      whitespace, a separator or a closing bracket. */
  lemma FirstByte(v: Value, fmt: Format, strtod: Strtod)
    requires NumbersReadBack(v, fmt, strtod)
    ensures |Stringify(v, fmt)| > 0 && Lead(Stringify(v, fmt)[0])
  {
    if v.Number? {
      NumberStart(fmt(v.n));
    }
  }

  // ----------------------------------------------------------------- values

  /** A serialized value, followed by a byte that cannot extend a number,
      parses back to itself and ends at `end`, where its rendering ends. */
  lemma {:induction false} ValueRoundTrip(s: seq<byte>, i: nat, v: Value, end: nat, fmt: Format, strtod: Strtod)
    requires NumbersReadBack(v, fmt, strtod)
    requires Occurs(s, i, Stringify(v, fmt)) && end == i + |Stringify(v, fmt)| && EndsNumber(At(s, end))
    ensures ParseValue(s, i, strtod) == Done(v, end)
    decreases v, 2
  {
    var w := Stringify(v, fmt);
    FirstByte(v, fmt, strtod);
    assert At(s, i) == w[0];
    match v
    case Null => OccursSlice(s, i, w);
    case True => OccursSlice(s, i, w);
    case False => OccursSlice(s, i, w);
    case Number(n) =>
      OccursSlice(s, i, w);
      NumberEndComplete(s, i, end);
    case String(b) =>
      StringRoundTrip(s, i, b, end);
    case Array(e) =>
      ArrayRoundTrip(s, i, e, fmt, strtod);
    case Object(m) =>
      ObjectRoundTrip(s, i, m, fmt, strtod);
  }

  // ------------------------------------------------------------ loop rounds

  /** A round of the element loop whose value parses is decided by the separator after it. */
  lemma ElementStepFrom(s: seq<byte>, j: nat, acc: seq<Value>, strtod: Strtod, v: Value, end: nat, acc2: seq<Value>)
    requires j <= |s| && ParseValue(s, j, strtod) == Done(v, end) && acc2 == acc + [v]
    ensures ElementStep(s, j, acc, strtod) == ElementSeparator(s, end, acc2)
  {
  }

  /** A member whose key and colon have been read: the loop round is decided
      by its value and the separator after it. */
  lemma MemberValueFrom(s: seq<byte>, j: nat, key: seq<byte>, acc: seq<Member>, strtod: Strtod, v: Value, end: nat, acc2: seq<Member>)
    requires j <= |s| && ParseValue(s, j, strtod) == Done(v, end) && acc2 == acc + [Member(key, v)]
    ensures MemberValue(s, j, key, acc, strtod) == MemberSeparator(s, end, acc2)
  {
  }

  /** A member round at a key that scans and is followed by a colon goes on
      to the member's value. */
  lemma MemberStepFrom(s: seq<byte>, j: nat, acc: seq<Member>, strtod: Strtod, key: seq<byte>, colon: nat, at: nat)
    requires j <= |s| && At(s, j) == Quote && ScanString(s, j + 1, []) == Scanned(key, colon)
    requires At(s, colon) == Colon && SkipWhitespace(s, colon + 1) == at
    ensures at <= |s|
    ensures MemberStep(s, j, acc, strtod) == MemberValue(s, at, key, acc, strtod)
  {
    assert SkipWhitespace(s, colon) == colon;
  }

  /** A whole member round: key, colon and value parse, and the separator
      after the value decides what follows. */
  lemma MemberRound(s: seq<byte>, j: nat, acc: seq<Member>, strtod: Strtod, key: seq<byte>, colon: nat, at: nat,
                    v: Value, end: nat, acc2: seq<Member>)
    requires j <= |s| && At(s, j) == Quote && ScanString(s, j + 1, []) == Scanned(key, colon)
    requires At(s, colon) == Colon && SkipWhitespace(s, colon + 1) == at
    requires ParseValue(s, at, strtod) == Done(v, end) && acc2 == acc + [Member(key, v)]
    ensures MemberStep(s, j, acc, strtod) == MemberSeparator(s, end, acc2)
  {
    MemberStepFrom(s, j, acc, strtod, key, colon, at);
    MemberValueFrom(s, at, key, acc, strtod, v, end, acc2);
  }

  // ----------------------------------------------------------------- arrays

  /** What precedes element `k` in a serialized array: the bracket, the
      earlier elements and the comma before it. */
  function ElementHead(e: seq<Value>, k: nat, fmt: Format): seq<byte>
    requires k <= |e|
  {
    [LeftBracket] + StringifyElements(e[..k], fmt) + (if k > 0 then [Comma] else [])
  }

  /** Where element `k` of a serialized array starting at `i` begins. */
  function ElementStart(i: nat, e: seq<Value>, k: nat, fmt: Format): nat
    requires k <= |e|
  {
    i + |ElementHead(e, k, fmt)|
  }

  /** Where element `k` of a serialized array starting at `i` ends. */
  function ElementEnd(i: nat, e: seq<Value>, k: nat, fmt: Format): nat
    requires k < |e|
  {
    i + 1 + |StringifyElements(e[..k + 1], fmt)|
  }

  /** The byte after element `k`: a comma, or the bracket after the last one. */
  function ElementAfter(e: seq<Value>, k: nat): byte
  {
    if k + 1 < |e| then Comma else RightBracket
  }

  /** The elements rendered so far are a prefix of the rendering of all of them. */
  lemma {:induction false} ElementsPrefix(e: seq<Value>, k: nat, fmt: Format)
    requires k <= |e|
    ensures StringifyElements(e[..k], fmt) <= StringifyElements(e, fmt)
    decreases |e|
  {
    if k < |e| {
      var init := e[..|e| - 1];
      ElementsPrefix(init, k, fmt);
      assert init[..k] == e[..k];
    } else {
      assert e[..k] == e;
    }
  }

  /** The layout of a serialized array around element `k`. */
  lemma ElementLayout(e: seq<Value>, k: nat, fmt: Format)
    requires k < |e|
    ensures ElementHead(e, k, fmt) + Stringify(e[k], fmt) == [LeftBracket] + StringifyElements(e[..k + 1], fmt)
    ensures [LeftBracket] + StringifyElements(e[..k + 1], fmt) + [ElementAfter(e, k)] <= Stringify(Array(e), fmt)
  {
    var upto := [LeftBracket] + StringifyElements(e[..k + 1], fmt);
    ElementsSnoc([LeftBracket], e, k, fmt);
    if k + 1 < |e| {
      var next := [LeftBracket] + StringifyElements(e[..k + 2], fmt);
      ElementsSnoc([LeftBracket], e, k + 1, fmt);
      ElementsPrefix(e, k + 2, fmt);
      assert next == upto + [Comma] + Stringify(e[k + 1], fmt);
      assert next <= Stringify(Array(e), fmt);
    } else {
      assert e[..k + 1] == e;
    }
  }

  /** Element `k` of a serialized array appears at its start, and is followed
      by a comma, or the closing bracket after the last one. */
  lemma ElementAt(s: seq<byte>, i: nat, e: seq<Value>, k: nat, fmt: Format)
    requires Occurs(s, i, Stringify(Array(e), fmt)) && k < |e|
    ensures Occurs(s, ElementStart(i, e, k, fmt), Stringify(e[k], fmt))
    ensures ElementStart(i, e, k, fmt) + |Stringify(e[k], fmt)| == ElementEnd(i, e, k, fmt)
    ensures At(s, ElementEnd(i, e, k, fmt)) == ElementAfter(e, k)
  {
    var w := Stringify(Array(e), fmt);
    var head := ElementHead(e, k, fmt);
    var upto := [LeftBracket] + StringifyElements(e[..k + 1], fmt);
    ElementLayout(e, k, fmt);
    assert head + Stringify(e[k], fmt) <= w;
    OccursPiece(s, i, w, head, Stringify(e[k], fmt), ElementStart(i, e, k, fmt));
    OccursNext(s, i, w, upto, ElementAfter(e, k));
  }

  /** After element `k` and its separator: the next round, or the end of
      the array after its closing bracket. */
  lemma ElementSeparatorAt(s: seq<byte>, i: nat, e: seq<Value>, k: nat, fmt: Format, strtod: Strtod)
    requires NumbersReadBack(Array(e), fmt, strtod)
    requires Occurs(s, i, Stringify(Array(e), fmt)) && k < |e|
    ensures ElementEnd(i, e, k, fmt) < |s|
    ensures ElementSeparator(s, ElementEnd(i, e, k, fmt), e[..k + 1]) ==
            if k + 1 < |e| then More(e[..k + 1], ElementStart(i, e, k + 1, fmt))
            else Stop(Done(Array(e), i + |Stringify(Array(e), fmt)|))
  {
    var end := ElementEnd(i, e, k, fmt);
    ElementAt(s, i, e, k, fmt);
    assert SkipWhitespace(s, end) == end;
    if k + 1 < |e| {
      ElementAt(s, i, e, k + 1, fmt);
      assert ElementStart(i, e, k + 1, fmt) == end + 1;
      FirstByte(e[k + 1], fmt, strtod);
      OccursAt(s, end + 1, Stringify(e[k + 1], fmt), 0);
      assert SkipWhitespace(s, end + 1) == end + 1;
    } else {
      assert e[..k + 1] == e;
    }
  }

  /** One round of the element loop over a serialized array: element `k`
      parses back and the loop goes on or ends as the rendering does. */
  lemma {:induction false} ElementRound(s: seq<byte>, i: nat, e: seq<Value>, k: nat, fmt: Format, strtod: Strtod)
    requires NumbersReadBack(Array(e), fmt, strtod)
    requires Occurs(s, i, Stringify(Array(e), fmt)) && k < |e|
    ensures ElementStart(i, e, k, fmt) <= |s|
    ensures ElementStep(s, ElementStart(i, e, k, fmt), e[..k], strtod) ==
            if k + 1 < |e| then More(e[..k + 1], ElementStart(i, e, k + 1, fmt))
            else Stop(Done(Array(e), i + |Stringify(Array(e), fmt)|))
    decreases e, 1, |e| - k, 0
  {
    var start, end := ElementStart(i, e, k, fmt), ElementEnd(i, e, k, fmt);
    ElementAt(s, i, e, k, fmt);
    ValueRoundTrip(s, start, e[k], end, fmt, strtod);
    PrefixSnoc(e, k);
    ElementStepFrom(s, start, e[..k], strtod, e[k], end, e[..k + 1]);
    ElementSeparatorAt(s, i, e, k, fmt, strtod);
  }

  /** The element loop over a serialized array, from element `k` on, yields
      the whole array and stops after its closing bracket. */
  lemma {:induction false} ElementsRoundTrip(s: seq<byte>, i: nat, e: seq<Value>, k: nat, fmt: Format, strtod: Strtod)
    requires NumbersReadBack(Array(e), fmt, strtod)
    requires Occurs(s, i, Stringify(Array(e), fmt)) && k < |e|
    ensures ElementStart(i, e, k, fmt) <= |s|
    ensures ParseElements(s, ElementStart(i, e, k, fmt), e[..k], strtod) == Done(Array(e), i + |Stringify(Array(e), fmt)|)
    decreases e, 1, |e| - k
  {
    ElementRound(s, i, e, k, fmt, strtod);
    if k + 1 < |e| {
      ElementsRoundTrip(s, i, e, k + 1, fmt, strtod);
    }
  }

  /** A serialized array parses back to itself. */
  lemma {:induction false} ArrayRoundTrip(s: seq<byte>, i: nat, e: seq<Value>, fmt: Format, strtod: Strtod)
    requires NumbersReadBack(Array(e), fmt, strtod)
    requires Occurs(s, i, Stringify(Array(e), fmt))
    ensures ParseArray(s, i, strtod) == Done(Array(e), i + |Stringify(Array(e), fmt)|)
    decreases Array(e), 1
  {
    var w := Stringify(Array(e), fmt);
    if e == [] {
      assert At(s, i + 1) == w[1];
    } else {
      assert e[..0] == [];
      assert ElementStart(i, e, 0, fmt) == i + 1;
      ElementAt(s, i, e, 0, fmt);
      FirstByte(e[0], fmt, strtod);
      assert At(s, i + 1) == Stringify(e[0], fmt)[0];
      ElementsRoundTrip(s, i, e, 0, fmt, strtod);
    }
  }

  // ---------------------------------------------------------------- objects

  /** What precedes member `k` in a serialized object. */
  function MemberHead(m: seq<Member>, k: nat, fmt: Format): seq<byte>
    requires k <= |m|
  {
    [LeftBrace] + StringifyMembers(m[..k], fmt) + (if k > 0 then [Comma] else [])
  }

  /** Where member `k` of a serialized object starting at `i` begins. */
  function MemberStart(i: nat, m: seq<Member>, k: nat, fmt: Format): nat
    requires k <= |m|
  {
    i + |MemberHead(m, k, fmt)|
  }

  /** Where member `k` of a serialized object starting at `i` ends. */
  function MemberEnd(i: nat, m: seq<Member>, k: nat, fmt: Format): nat
    requires k < |m|
  {
    i + 1 + |StringifyMembers(m[..k + 1], fmt)|
  }

  /** The byte after member `k`: a comma, or the brace after the last one. */
  function MemberAfter(m: seq<Member>, k: nat): byte
  {
    if k + 1 < |m| then Comma else RightBrace
  }

  /** The members rendered so far are a prefix of the rendering of all of them. */
  lemma {:induction false} MembersPrefix(m: seq<Member>, k: nat, fmt: Format)
    requires k <= |m|
    ensures StringifyMembers(m[..k], fmt) <= StringifyMembers(m, fmt)
    decreases |m|
  {
    if k < |m| {
      var init := m[..|m| - 1];
      MembersPrefix(init, k, fmt);
      assert init[..k] == m[..k];
    } else {
      assert m[..k] == m;
    }
  }

  /** The layout of a serialized object around member `k`. */
  lemma MemberLayout(m: seq<Member>, k: nat, fmt: Format)
    requires k < |m|
    ensures MemberHead(m, k, fmt) + StringifyMember(m[k], fmt) == [LeftBrace] + StringifyMembers(m[..k + 1], fmt)
    ensures [LeftBrace] + StringifyMembers(m[..k + 1], fmt) + [MemberAfter(m, k)] <= Stringify(Object(m), fmt)
  {
    var upto := [LeftBrace] + StringifyMembers(m[..k + 1], fmt);
    MembersSnoc([LeftBrace], m, k, fmt);
    if k + 1 < |m| {
      var next := [LeftBrace] + StringifyMembers(m[..k + 2], fmt);
      MembersSnoc([LeftBrace], m, k + 1, fmt);
      MembersPrefix(m, k + 2, fmt);
      assert next == upto + [Comma] + StringifyMember(m[k + 1], fmt);
      assert next <= Stringify(Object(m), fmt);
    } else {
      assert m[..k + 1] == m;
    }
  }

  /** Member `k` of a serialized object appears at its start, and is followed
      by a comma, or the closing brace after the last one. */
  lemma MemberAt(s: seq<byte>, i: nat, m: seq<Member>, k: nat, fmt: Format)
    requires Occurs(s, i, Stringify(Object(m), fmt)) && k < |m|
    ensures Occurs(s, MemberStart(i, m, k, fmt), StringifyMember(m[k], fmt))
    ensures MemberStart(i, m, k, fmt) + |StringifyMember(m[k], fmt)| == MemberEnd(i, m, k, fmt)
    ensures At(s, MemberEnd(i, m, k, fmt)) == MemberAfter(m, k)
  {
    var w := Stringify(Object(m), fmt);
    var head := MemberHead(m, k, fmt);
    var upto := [LeftBrace] + StringifyMembers(m[..k + 1], fmt);
    MemberLayout(m, k, fmt);
    assert head + StringifyMember(m[k], fmt) <= w;
    OccursPiece(s, i, w, head, StringifyMember(m[k], fmt), MemberStart(i, m, k, fmt));
    OccursNext(s, i, w, upto, MemberAfter(m, k));
  }

  /** A serialized member at `p`: its key parses back and ends at `colon`,
      where a colon follows, and its value starts right after it, at `at`. */
  lemma MemberParts(s: seq<byte>, p: nat, x: Member, colon: nat, at: nat, fmt: Format, strtod: Strtod)
    requires NumbersReadBack(x.v, fmt, strtod)
    requires Occurs(s, p, StringifyMember(x, fmt))
    requires colon == p + |StringifyString(x.k)| && at == colon + 1
    ensures At(s, p) == Quote && ScanString(s, p + 1, []) == Scanned(x.k, colon)
    ensures At(s, colon) == Colon && SkipWhitespace(s, colon + 1) == at
    ensures Occurs(s, at, Stringify(x.v, fmt)) && at + |Stringify(x.v, fmt)| == p + |StringifyMember(x, fmt)|
  {
    MemberSplit(s, p, x, colon, at, fmt);
    StringRoundTrip(s, p, x.k, colon);
    ValueStart(s, at, x.v, fmt, strtod);
  }

  /** A serialized member is its key string, a colon at `colon` and its value from `at` on. */
  lemma MemberSplit(s: seq<byte>, p: nat, x: Member, colon: nat, at: nat, fmt: Format)
    requires Occurs(s, p, StringifyMember(x, fmt))
    requires colon == p + |StringifyString(x.k)| && at == colon + 1
    ensures Occurs(s, p, StringifyString(x.k)) && At(s, colon) == Colon
    ensures Occurs(s, at, Stringify(x.v, fmt)) && at + |Stringify(x.v, fmt)| == p + |StringifyMember(x, fmt)|
  {
    var key := StringifyString(x.k);
    OccursSplit(s, p, key + [Colon], Stringify(x.v, fmt));
    OccursSplit(s, p, key, [Colon]);
    OccursAt(s, colon, [Colon], 0);
  }

  /** No whitespace is skipped before a serialized value. */
  lemma ValueStart(s: seq<byte>, at: nat, v: Value, fmt: Format, strtod: Strtod)
    requires NumbersReadBack(v, fmt, strtod) && Occurs(s, at, Stringify(v, fmt))
    ensures SkipWhitespace(s, at) == at
  {
    FirstByte(v, fmt, strtod);
    OccursAt(s, at, Stringify(v, fmt), 0);
  }

  /** After member `k` and its separator: the next round, or the end of
      the object after its closing brace. */
  lemma MemberSeparatorAt(s: seq<byte>, i: nat, m: seq<Member>, k: nat, fmt: Format)
    requires Occurs(s, i, Stringify(Object(m), fmt)) && k < |m|
    ensures MemberEnd(i, m, k, fmt) < |s|
    ensures MemberSeparator(s, MemberEnd(i, m, k, fmt), m[..k + 1]) ==
            if k + 1 < |m| then More(m[..k + 1], MemberStart(i, m, k + 1, fmt))
            else Stop(Done(Object(m), i + |Stringify(Object(m), fmt)|))
  {
    var end := MemberEnd(i, m, k, fmt);
    MemberAt(s, i, m, k, fmt);
    assert SkipWhitespace(s, end) == end;
    if k + 1 < |m| {
      MemberAt(s, i, m, k + 1, fmt);
      assert MemberStart(i, m, k + 1, fmt) == end + 1;
      OccursAt(s, end + 1, StringifyMember(m[k + 1], fmt), 0);
      assert SkipWhitespace(s, end + 1) == end + 1;
    } else {
      assert m[..k + 1] == m;
    }
  }

  /** The pieces of member `k` of a serialized object: the member at `start`,
      its value after the colon at `colon`, up to `end`. */
  lemma MemberPieces(s: seq<byte>, i: nat, m: seq<Member>, k: nat, fmt: Format, strtod: Strtod,
                     start: nat, colon: nat, end: nat)
    requires NumbersReadBack(Object(m), fmt, strtod)
    requires Occurs(s, i, Stringify(Object(m), fmt)) && k < |m|
    requires start == MemberStart(i, m, k, fmt) && end == MemberEnd(i, m, k, fmt)
    requires colon == start + |StringifyString(m[k].k)|
    ensures start <= |s| && end <= |s|
    ensures NumbersReadBack(m[k].v, fmt, strtod)
    ensures Occurs(s, start, StringifyMember(m[k], fmt))
    ensures Occurs(s, colon + 1, Stringify(m[k].v, fmt)) && end == colon + 1 + |Stringify(m[k].v, fmt)|
    ensures EndsNumber(At(s, end))
  {
    MemberAt(s, i, m, k, fmt);
    MemberParts(s, start, m[k], colon, colon + 1, fmt, strtod);
  }

  /** A serialized member whose value parses back completes a round of the member loop. */
  lemma MemberBack(s: seq<byte>, start: nat, x: Member, colon: nat, end: nat, acc: seq<Member>,
                   fmt: Format, strtod: Strtod)
    requires NumbersReadBack(x.v, fmt, strtod)
    requires Occurs(s, start, StringifyMember(x, fmt)) && colon == start + |StringifyString(x.k)|
    requires colon + 1 <= |s| && ParseValue(s, colon + 1, strtod) == Done(x.v, end)
    ensures start <= |s| && end <= |s|
    ensures MemberStep(s, start, acc, strtod) == MemberSeparator(s, end, acc + [x])
  {
    MemberParts(s, start, x, colon, colon + 1, fmt, strtod);
    MemberRound(s, start, acc, strtod, x.k, colon, colon + 1, x.v, end, acc + [x]);
  }

  /** The key, the colon and the value of member `k` parse back, up to the
      separator after it. */
  lemma {:induction false} MemberParsed(s: seq<byte>, i: nat, m: seq<Member>, k: nat, fmt: Format, strtod: Strtod)
    requires NumbersReadBack(Object(m), fmt, strtod)
    requires Occurs(s, i, Stringify(Object(m), fmt)) && k < |m|
    ensures MemberStart(i, m, k, fmt) <= |s| && MemberEnd(i, m, k, fmt) <= |s|
    ensures MemberStep(s, MemberStart(i, m, k, fmt), m[..k], strtod) ==
            MemberSeparator(s, MemberEnd(i, m, k, fmt), m[..k + 1])
    decreases m, 1, |m| - k, 0
  {
    var start, end := MemberStart(i, m, k, fmt), MemberEnd(i, m, k, fmt);
    var colon := start + |StringifyString(m[k].k)|;
    MemberPieces(s, i, m, k, fmt, strtod, start, colon, end);
    ValueRoundTrip(s, colon + 1, m[k].v, end, fmt, strtod);
    PrefixSnoc(m, k);
    MemberBack(s, start, m[k], colon, end, m[..k], fmt, strtod);
  }

  /** The member loop over a serialized object, from member `k` on, yields
      the whole object and stops after its closing brace. */
  lemma {:induction false} MembersRoundTrip(s: seq<byte>, i: nat, m: seq<Member>, k: nat, fmt: Format, strtod: Strtod)
    requires NumbersReadBack(Object(m), fmt, strtod)
    requires Occurs(s, i, Stringify(Object(m), fmt)) && k < |m|
    ensures MemberStart(i, m, k, fmt) <= |s|
    ensures ParseMembers(s, MemberStart(i, m, k, fmt), m[..k], strtod) == Done(Object(m), i + |Stringify(Object(m), fmt)|)
    decreases m, 1, |m| - k
  {
    MemberParsed(s, i, m, k, fmt, strtod);
    MemberSeparatorAt(s, i, m, k, fmt);
    if k + 1 < |m| {
      MembersRoundTrip(s, i, m, k + 1, fmt, strtod);
    }
  }

  /** A serialized object parses back to itself. */
  lemma {:induction false} ObjectRoundTrip(s: seq<byte>, i: nat, m: seq<Member>, fmt: Format, strtod: Strtod)
    requires NumbersReadBack(Object(m), fmt, strtod)
    requires Occurs(s, i, Stringify(Object(m), fmt))
    ensures ParseObject(s, i, strtod) == Done(Object(m), i + |Stringify(Object(m), fmt)|)
    decreases Object(m), 1
  {
    var w := Stringify(Object(m), fmt);
    if m == [] {
      assert At(s, i + 1) == w[1];
    } else {
      assert m[..0] == [];
      assert MemberStart(i, m, 0, fmt) == i + 1;
      MemberAt(s, i, m, 0, fmt);
      assert At(s, i + 1) == StringifyMember(m[0], fmt)[0];
      MembersRoundTrip(s, i, m, 0, fmt, strtod);
    }
  }
  // ------------------------------------------------------------- top level

  /** my_parse(my_stringify(v)) gives back v with MY_PARSE_OK. */
  lemma RoundTrip(v: Value, fmt: Format, strtod: Strtod)
    requires NumbersReadBack(v, fmt, strtod)
    ensures Parse(Stringify(v, fmt), strtod) == (Ok, v)
  {
    var w := Stringify(v, fmt);
    FirstByte(v, fmt, strtod);
    assert SkipWhitespace(w, 0) == 0;
    ValueRoundTrip(w, 0, v, |w|, fmt, strtod);
  }

  /** Whitespace before and after a rendered value does not change what
      my_parse reads. */
  lemma PaddedRoundTrip(v: Value, fmt: Format, strtod: Strtod, before: seq<byte>, after: seq<byte>)
    requires NumbersReadBack(v, fmt, strtod)
    requires forall k :: 0 <= k < |before| ==> IsWhitespace(before[k])
    requires forall k :: 0 <= k < |after| ==> IsWhitespace(after[k])
    ensures Parse(before + Stringify(v, fmt) + after, strtod) == (Ok, v)
  {
    var w := Stringify(v, fmt);
    var s := before + w + after;
    var end := |before| + |w|;
    FirstByte(v, fmt, strtod);
    forall k | 0 <= k < |w| ensures s[|before| + k] == w[k] {
      assert s[|before| + k] == (before + w)[|before| + k];
    }
    assert Occurs(s, |before|, w);
    forall j | 0 <= j < |before| ensures IsWhitespace(At(s, j)) {
      assert s[j] == before[j];
    }
    assert At(s, |before|) == w[0];
    GrammarFacts.SkipRun(s, 0, |before|);
    forall j | end <= j < |s| ensures IsWhitespace(s[j]) {
      assert s[j] == after[j - end];
    }
    assert EndsNumber(At(s, end)) by {
      if end < |s| { assert IsWhitespace(s[end]); }
    }
    ValueRoundTrip(s, |before|, v, end, fmt, strtod);
    GrammarFacts.TrailingBlank(s, strtod, v, end);
  }
}
