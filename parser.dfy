/** The parser of myjson.c as it runs: cursor loops over the input and the
    scratch stack of the context.  Every method is proved to produce what the
    functions of the Grammar module describe, to leave the stack as it found
    it, and to account for every heap block it allocates or frees. */
module Parser {

  import opened Json
  import opened Wrappers
  import opened Unicode
  import opened Grammar
  import opened Stack
  import opened Values
  import GrammarFacts

  /** The outcome a parse method reports agrees with the functional parser:
      the same value and cursor on success, the same code and a Null value on
      failure. */
  predicate Agrees(r: Parsed<Value>, code: Code, v: Value, pos: nat)
  {
    (r.Done? ==> code == Ok && v == r.val && pos == r.next) &&
    (r.Fail? ==> code == r.code && v == Null)
  }

  /** my_parse_whitespace. */
  method ParseWhitespace(c: Context)
    modifies c`pos
    ensures c.pos == SkipWhitespace(c.json, old(c.pos))
  {
    var p := c.pos;
    while IsWhitespace(At(c.json, p))
      invariant SkipWhitespace(c.json, old(c.pos)) == SkipWhitespace(c.json, p)
      decreases |c.json| - p
    {
      p := p + 1;
    }
    c.pos := p;
  }

  /** my_parse_literal: the first byte is known to match; compare the rest. */
  method ParseLiteral(c: Context, lit: seq<byte>, v: Value) returns (code: Code, r: Value)
    requires |lit| > 0 && Nul !in lit && At(c.json, c.pos) == lit[0]
    modifies c`pos
    ensures Agrees(Literal(c.json, old(c.pos), lit, v), code, r, c.pos)
  {
    GrammarFacts.LiteralMatch(c.json, c.pos, lit);
    c.pos := c.pos + 1;
    var i := 0;
    while i + 1 < |lit|
      invariant 0 <= i < |lit| && c.pos == old(c.pos) + 1
      invariant forall k :: 0 <= k <= i ==> At(c.json, old(c.pos) + k) == lit[k]
    {
      if At(c.json, c.pos + i) != lit[i + 1] {
        return InvalidValue, Null;
      }
      i := i + 1;
    }
    c.pos := c.pos + i;
    return Ok, v;
  }

  /** for (p++; ISDIGIT(*p); p++): the end of a run of digits. */
  method SkipDigits(s: seq<byte>, p: nat) returns (q: nat)
    ensures q == DigitsEnd(s, p)
  {
    q := p;
    while IsDigit(At(s, q))
      invariant DigitsEnd(s, p) == DigitsEnd(s, q)
      decreases |s| - q
    {
      q := q + 1;
    }
  }

  /** The integer part of my_parse_number's validation. */
  method ValidateInteger(s: seq<byte>, p: nat) returns (r: Option<nat>)
    ensures r == IntegerEnd(s, p)
  {
    if At(s, p) == Zero {
      return Some(p + 1);
    }
    if !IsDigit1To9(At(s, p)) {
      return None;
    }
    var q := SkipDigits(s, p + 1);
    return Some(q);
  }

  /** The fraction part of my_parse_number's validation. */
  method ValidateFraction(s: seq<byte>, p: nat) returns (r: Option<nat>)
    ensures r == FractionEnd(s, p)
  {
    if At(s, p) != Dot {
      return Some(p);
    }
    if !IsDigit(At(s, p + 1)) {
      return None;
    }
    var q := SkipDigits(s, p + 2);
    return Some(q);
  }

  /** The exponent part of my_parse_number's validation. */
  method ValidateExponent(s: seq<byte>, p: nat) returns (r: Option<nat>)
    ensures r == ExponentEnd(s, p)
  {
    if !IsExponentMark(At(s, p)) {
      return Some(p);
    }
    var q := p + 1;
    if At(s, q) == Plus || At(s, q) == Minus {
      q := q + 1;
    }
    if !IsDigit(At(s, q)) {
      return None;
    }
    q := SkipDigits(s, q + 1);
    return Some(q);
  }

  /** The validation part of my_parse_number: the end of the lexeme, or None. */
  method ValidateNumber(s: seq<byte>, i: nat) returns (r: Option<nat>)
    ensures r == NumberEnd(s, i)
  {
    var p := i;
    if At(s, p) == Minus {
      p := p + 1;
    }
    var q := ValidateInteger(s, p);
    if q.None? {
      return None;
    }
    var f := ValidateFraction(s, q.value);
    if f.None? {
      return None;
    }
    r := ValidateExponent(s, f.value);
  }

  /** my_parse_number: validate the lexeme, convert it, reject overflow. */
  method ParseNumber(c: Context, strtod: Strtod) returns (code: Code, r: Value)
    requires c.pos <= |c.json|
    modifies c`pos
    ensures Agrees(Grammar.ParseNumber(c.json, old(c.pos), strtod), code, r, c.pos)
  {
    var end := ValidateNumber(c.json, c.pos);
    if end.None? {
      return InvalidValue, Null;
    }
    var p := end.value;
    var conv := strtod(c.json[c.pos..p]);
    if Overflows(conv) {
      return NumberTooBig, Null;
    }
    c.pos := p;
    return Ok, Number(conv.value);
  }

  /** The value of the first `n` of four hexadecimal digits at `p`. */
  ghost function HexPrefix(s: seq<byte>, p: nat, n: nat): nat
    requires forall k :: p <= k < p + n ==> IsHexDigit(At(s, k))
  {
    if n == 0 then 0 else 16 * HexPrefix(s, p, n - 1) + HexValue(At(s, p + n - 1))
  }

  /** my_parse_hex4: shift in four digits, fail on the first byte that is not one. */
  method ParseHex4(s: seq<byte>, p: nat) returns (r: Option<nat>)
    ensures r == Hex4(s, p)
  {
    var u: nat := 0;
    for i := 0 to 4
      invariant forall k :: p <= k < p + i ==> IsHexDigit(At(s, k))
      invariant u == HexPrefix(s, p, i)
    {
      var ch := At(s, p + i);
      u := u * 16;
      if 0x30 <= ch <= 0x39 {
        u := u + (ch - 0x30);
      } else if 0x41 <= ch <= 0x46 {
        u := u + (ch - 0x41 + 10);
      } else if 0x61 <= ch <= 0x66 {
        u := u + (ch - 0x61 + 10);
      } else {
        return None;
      }
    }
    assert HexPrefix(s, p, 2) == 16 * HexValue(At(s, p)) + HexValue(At(s, p + 1));
    assert HexPrefix(s, p, 4) == 16 * (16 * HexPrefix(s, p, 2) + HexValue(At(s, p + 2))) + HexValue(At(s, p + 3));
    return Some(u);
  }

  /** my_encode_utf8: push the one to four bytes of a code point. */
  method EncodeUtf8(c: Context, u: nat)
    requires c.Valid() && u <= MaxCodePoint
    modifies c`stack, c`size, c`top, c.stack
    ensures c.Valid() && (c.stack == old(c.stack) || fresh(c.stack))
    ensures c.Contents() == old(c.Contents()) + Bytes(Utf8(u))
  {
    var bs := Utf8(u);
    for i := 0 to |bs|
      invariant c.Valid() && (c.stack == old(c.stack) || fresh(c.stack))
      invariant c.Contents() == old(c.Contents()) + Bytes(bs[..i])
    {
      c.PutC(bs[i]);
      BytesAppend(old(c.Contents()), bs[..i], [bs[i]]);
      assert bs[..i + 1] == bs[..i] + [bs[i]];
    }
    assert bs[..|bs|] == bs;
  }

  /** The \u branch of my_parse_string_raw from the first hex digit at `p`:
      one escape, or a high surrogate and the \u escape of its low half. */
  method ParseUnicodeEscape(s: seq<byte>, p: nat) returns (r: Parsed<nat>)
    ensures r == UnicodeEscape(s, p)
  {
    var h := ParseHex4(s, p);
    if h.None? {
      return Fail(InvalidUnicodeHex);
    }
    var u := h.value;
    if !IsHighSurrogate(u) {
      return Done(u, p + 4);
    }
    if At(s, p + 4) != Backslash || At(s, p + 5) != LowerU {
      return Fail(InvalidUnicodeSurrogate);
    }
    var h2 := ParseHex4(s, p + 6);
    if h2.None? {
      return Fail(InvalidUnicodeHex);
    }
    if !IsLowSurrogate(h2.value) {
      return Fail(InvalidUnicodeSurrogate);
    }
    return Done(Combine(u, h2.value), p + 10);
  }

  /** The escape branch of my_parse_string_raw, from the backslash at `p`:
      push the bytes it stands for. */
  method ParseEscape(c: Context, p: nat) returns (code: Code, next: nat)
    requires c.Valid()
    modifies c`stack, c`size, c`top, c.stack
    ensures c.Valid() && (c.stack == old(c.stack) || fresh(c.stack))
    ensures match EscapeStep(c.json, p)
      case Done(b, q) => code == Ok && next == q && c.Contents() == old(c.Contents()) + Bytes(b)
      case Fail(e) => code == e && c.Contents() == old(c.Contents())
  {
    var e := At(c.json, p + 1);
    if e == LowerU {
      var r := ParseUnicodeEscape(c.json, p + 2);
      if r.Fail? {
        return r.code, p;
      }
      EncodeUtf8(c, r.val);
      return Ok, r.next;
    } else {
      var t := EscapeTarget(e);
      if t.None? {
        return InvalidStringEscape, p;
      }
      c.PutC(t.value);
      return Ok, p + 2;
    }
  }

  /** The for(;;) loop of my_parse_string_raw from `p0`, just after the
      opening quote.  It returns with the string's bytes on the stack, or
      with the bytes staged before the error still there. */
  method ScanLoop(c: Context, p0: nat) returns (code: Code, q: nat)
    requires c.Valid() && p0 <= |c.json|
    modifies c`stack, c`size, c`top, c.stack
    ensures c.Valid() && (c.stack == old(c.stack) || fresh(c.stack))
    ensures match ScanString(c.json, p0, [])
      case Scanned(b, j) => code == Ok && q == j && c.Contents() == old(c.Contents()) + Bytes(b)
      case ScanFailed(e, b) => code == e && c.Contents() == old(c.Contents()) + Bytes(b)
  {
    var p := p0;
    ghost var acc: seq<byte> := [];
    while true
      invariant c.Valid() && (c.stack == old(c.stack) || fresh(c.stack))
      invariant p <= |c.json|
      invariant ScanString(c.json, p0, []) == ScanString(c.json, p, acc)
      invariant c.Contents() == old(c.Contents()) + Bytes(acc)
      decreases |c.json| - p
    {
      var ch := At(c.json, p);
      if ch == Quote {
        return Ok, p + 1;
      } else if ch == Backslash {
        var next;
        code, next := ParseEscape(c, p);
        if code != Ok {
          return code, p;
        }
        ghost var b := EscapeStep(c.json, p).val;
        BytesAppend(old(c.Contents()), acc, b);
        acc := acc + b;
        p := next;
      } else if ch == Nul {
        return MissQuotationMark, p;
      } else if ch < 0x20 {
        return InvalidStringChar, p;
      } else {
        c.PutC(ch);
        BytesAppend(old(c.Contents()), acc, [ch]);
        acc := acc + [ch];
        p := p + 1;
      }
    }
  }

  /** my_parse_string_raw: scan the string at the cursor and pop its bytes.
      Every error path puts `top` back where it was. */
  method ParseStringRaw(c: Context) returns (code: Code, str: seq<byte>)
    requires c.Valid() && c.pos < |c.json| && c.json[c.pos] == Quote
    modifies c`pos, c`stack, c`size, c`top, c.stack
    ensures c.Valid() && (c.stack == old(c.stack) || fresh(c.stack))
    ensures c.Contents() == old(c.Contents())
    ensures match ScanString(c.json, old(c.pos) + 1, [])
      case Scanned(b, j) => code == Ok && str == b && c.pos == j
      case ScanFailed(e, _) => code == e
  {
    var head := c.top;
    c.pos := c.pos + 1;
    var q;
    code, q := ScanLoop(c, c.pos);
    if code == Ok {
      var popped := c.Pop(c.top - head);
      SplitTop(old(c.Contents()), Bytes(ScanString(c.json, old(c.pos) + 1, []).bytes), c.Contents(), popped);
      UnstageBytes(ScanString(c.json, old(c.pos) + 1, []).bytes);
      str := Unstage(popped);
      c.pos := q;
    } else {
      c.top := head;
      str := [];
    }
  }

  /** my_parse_string_raw as written: the InvalidStringChar path (a raw
      control byte) returns without putting `top` back, so the bytes staged
      before it stay on the stack. */
  method ParseStringRawAsWritten(c: Context) returns (code: Code, str: seq<byte>)
    requires c.Valid() && c.pos < |c.json| && c.json[c.pos] == Quote
    modifies c`pos, c`stack, c`size, c`top, c.stack
    ensures c.Valid() && (c.stack == old(c.stack) || fresh(c.stack))
    ensures match ScanString(c.json, old(c.pos) + 1, [])
      case Scanned(b, j) => code == Ok && str == b && c.pos == j && c.Contents() == old(c.Contents())
      case ScanFailed(e, b) =>
        code == e &&
        c.Contents() == old(c.Contents()) + (if e == InvalidStringChar then Bytes(b) else [])
  {
    var head := c.top;
    c.pos := c.pos + 1;
    var q;
    code, q := ScanLoop(c, c.pos);
    if code == Ok {
      var popped := c.Pop(c.top - head);
      SplitTop(old(c.Contents()), Bytes(ScanString(c.json, old(c.pos) + 1, []).bytes), c.Contents(), popped);
      UnstageBytes(ScanString(c.json, old(c.pos) + 1, []).bytes);
      str := Unstage(popped);
      c.pos := q;
    } else {
      if code != InvalidStringChar {
        c.top := head;
      }
      str := [];
    }
  }

  /** `"a` 0x01 `"`: the scan stops on the control byte with "a" staged, so
      ParseStringRawAsWritten leaves that byte on the stack. */
  lemma StringCharResidueExample()
    ensures ScanString([Quote, 0x61, 0x01, Quote], 1, []) == ScanFailed(InvalidStringChar, [0x61])
  {
    var s := [Quote, 0x61, 0x01, Quote];
    assert ScanString(s, 1, []) == ScanString(s, 2, [0x61]);
  }

  /** my_parse_string: the raw bytes become a string value in one new block. */
  method ParseString(c: Context, heap: Heap) returns (code: Code, v: Value)
    requires c.Valid() && c.pos < |c.json| && c.json[c.pos] == Quote
    modifies c`pos, c`stack, c`size, c`top, c.stack, heap
    ensures c.Valid() && (c.stack == old(c.stack) || fresh(c.stack))
    ensures c.Contents() == old(c.Contents())
    ensures Agrees(Grammar.ParseString(c.json, old(c.pos)), code, v, c.pos)
    ensures heap.live == old(heap.live) + (if code == Ok then Blocks(v) else 0)
  {
    var str;
    code, str := ParseStringRaw(c);
    v := Null;
    if code == Ok {
      heap.Allocate();
      v := String(str);
    }
  }

  /** my_parse_value: dispatch on the byte under the cursor. */
  method ParseValue(c: Context, heap: Heap, strtod: Strtod) returns (code: Code, v: Value)
    requires c.Valid() && c.pos <= |c.json|
    modifies c`pos, c`stack, c`size, c`top, c.stack, heap
    ensures c.Valid() && (c.stack == old(c.stack) || fresh(c.stack))
    ensures c.Contents() == old(c.Contents())
    ensures Agrees(Grammar.ParseValue(c.json, old(c.pos), strtod), code, v, c.pos)
    ensures heap.live == old(heap.live) + (if code == Ok then Blocks(v) else 0)
    decreases |c.json| - c.pos, 1
  {
    var ch := At(c.json, c.pos);
    if ch == LowerN {
      code, v := ParseLiteral(c, NullLiteral, Null);
    } else if ch == LowerT {
      code, v := ParseLiteral(c, TrueLiteral, True);
    } else if ch == LowerF {
      code, v := ParseLiteral(c, FalseLiteral, False);
    } else if ch == Quote {
      code, v := ParseString(c, heap);
    } else if ch == LeftBracket {
      code, v := ParseArray(c, heap, strtod);
    } else if ch == LeftBrace {
      code, v := ParseObject(c, heap, strtod);
    } else if ch == Nul {
      code, v := ExpectValue, Null;
    } else {
      code, v := ParseNumber(c, strtod);
    }
  }

  /** Copy a parsed element onto the stack (the memcpy into my_context_push). */
  method StageElement(c: Context, ghost base: seq<Cell>, ghost elems: seq<Value>, elem: Value)
    requires c.Valid() && c.Contents() == base + Elems(elems)
    modifies c`stack, c`size, c`top, c.stack
    ensures c.Valid() && (c.stack == old(c.stack) || fresh(c.stack))
    ensures c.Contents() == base + Elems(elems + [elem])
  {
    var at := c.Push(1);
    c.stack[at] := Elem(elem);
    assert c.stack[..at + 1] == c.stack[..at] + [Elem(elem)];
    StageElem(base, elems, elem);
  }

  /** Copy a parsed member onto the stack. */
  method StageMember(c: Context, ghost base: seq<Cell>, ghost members: seq<Member>, m: Member)
    requires c.Valid() && c.Contents() == base + Entries(members)
    modifies c`stack, c`size, c`top, c.stack
    ensures c.Valid() && (c.stack == old(c.stack) || fresh(c.stack))
    ensures c.Contents() == base + Entries(members + [m])
  {
    var at := c.Push(1);
    c.stack[at] := Entry(m);
    assert c.stack[..at + 1] == c.stack[..at] + [Entry(m)];
    StageEntry(base, members, m);
  }

  /** Pop all `n` staged elements at once, in the order they were parsed. */
  method CollectElements(c: Context, ghost base: seq<Cell>, ghost elems: seq<Value>, n: nat) returns (e: seq<Value>)
    requires c.Valid() && n == |elems| && c.Contents() == base + Elems(elems)
    modifies c`top
    ensures c.Valid() && c.stack == old(c.stack) && c.Contents() == base && e == elems
  {
    var popped := c.Pop(n);
    SplitTop(base, Elems(elems), c.Contents(), popped);
    UnstageRecords(elems, []);
    e := Payloads(popped);
  }

  /** Pop all `n` staged members at once, in the order they were parsed. */
  method CollectMembers(c: Context, ghost base: seq<Cell>, ghost members: seq<Member>, n: nat) returns (m: seq<Member>)
    requires c.Valid() && n == |members| && c.Contents() == base + Entries(members)
    modifies c`top
    ensures c.Valid() && c.stack == old(c.stack) && c.Contents() == base && m == members
  {
    var popped := c.Pop(n);
    SplitTop(base, Entries(members), c.Contents(), popped);
    UnstageRecords([], members);
    m := Fields(popped);
  }

  /** The failure path of my_parse_array: pop the staged elements one by one
      and free each. */
  method DropElements(c: Context, heap: Heap, ghost base: seq<Cell>, ghost elems: seq<Value>, n: nat)
    requires c.Valid() && n == |elems| && c.Contents() == base + Elems(elems)
    modifies c`top, heap
    ensures c.Valid() && c.stack == old(c.stack) && c.Contents() == base
    ensures heap.live == old(heap.live) - ElementBlocks(elems)
  {
    assert elems[..n] == elems;
    for i := 0 to n
      invariant c.Valid() && c.stack == old(c.stack)
      invariant c.Contents() == base + Elems(elems[..n - i])
      invariant heap.live == old(heap.live) - ElementBlocks(elems) + ElementBlocks(elems[..n - i])
    {
      var k := n - i;
      assert elems[..k][..k - 1] == elems[..k - 1];
      StageElem(base, elems[..k - 1], elems[k - 1]);
      assert elems[..k - 1] + [elems[k - 1]] == elems[..k];
      var popped := c.Pop(1);
      SplitTop(base + Elems(elems[..k - 1]), [Elem(elems[k - 1])], c.Contents(), popped);
      FreeValue(heap, popped[0].v);
    }
  }

  /** The failure path of my_parse_object: pop the staged members one by one,
      freeing each key and then each value. */
  method DropMembers(c: Context, heap: Heap, ghost base: seq<Cell>, ghost members: seq<Member>, n: nat)
    requires c.Valid() && n == |members| && c.Contents() == base + Entries(members)
    modifies c`top, heap
    ensures c.Valid() && c.stack == old(c.stack) && c.Contents() == base
    ensures heap.live == old(heap.live) - MemberBlocks(members)
  {
    assert members[..n] == members;
    for i := 0 to n
      invariant c.Valid() && c.stack == old(c.stack)
      invariant c.Contents() == base + Entries(members[..n - i])
      invariant heap.live == old(heap.live) - MemberBlocks(members) + MemberBlocks(members[..n - i])
    {
      var k := n - i;
      assert members[..k][..k - 1] == members[..k - 1];
      StageEntry(base, members[..k - 1], members[k - 1]);
      assert members[..k - 1] + [members[k - 1]] == members[..k];
      var popped := c.Pop(1);
      SplitTop(base + Entries(members[..k - 1]), [Entry(members[k - 1])], c.Contents(), popped);
      heap.Release();
      FreeValue(heap, popped[0].m.v);
    }
  }

  /** One round of the element loop of my_parse_array: parse a value, stage
      it, then read the separator.  `size` counts the staged elements. */
  method ElementRound(c: Context, heap: Heap, strtod: Strtod, ghost base: seq<Cell>, ghost elems: seq<Value>, size: nat)
      returns (code: Code, more: bool, ghost staged: seq<Value>, size': nat)
    requires c.Valid() && c.pos <= |c.json| && size == |elems| && c.Contents() == base + Elems(elems)
    modifies c`pos, c`stack, c`size, c`top, c.stack, heap
    ensures c.Valid() && (c.stack == old(c.stack) || fresh(c.stack))
    ensures size' == |staged| && c.Contents() == base + Elems(staged)
    ensures heap.live == old(heap.live) - ElementBlocks(elems) + ElementBlocks(staged)
    ensures match ElementStep(c.json, old(c.pos), elems, strtod)
      case More(a, n) => more && c.pos == n && staged == a
      case Stop(r) =>
        !more && (r.Done? ==> code == Ok && c.pos == r.next && r.val == Array(staged)) &&
        (r.Fail? ==> code == r.code)
    decreases |c.json| - c.pos, 2
  {
    staged, size' := elems, size;
    var elem;
    code, elem := ParseValue(c, heap, strtod);
    more := false;
    if code != Ok {
      return;
    }
    assert (elems + [elem])[..|elems|] == elems;
    code, more, staged, size' := ElementTail(c, base, elems, elem, size);
  }

  /** The rest of a round of my_parse_array once its value is parsed: stage
      the element, then read the comma or the closing bracket. */
  method ElementTail(c: Context, ghost base: seq<Cell>, ghost elems: seq<Value>, elem: Value, size: nat)
      returns (code: Code, more: bool, ghost staged: seq<Value>, size': nat)
    requires c.Valid() && c.pos <= |c.json| && size == |elems| && c.Contents() == base + Elems(elems)
    modifies c`pos, c`stack, c`size, c`top, c.stack
    ensures c.Valid() && (c.stack == old(c.stack) || fresh(c.stack))
    ensures staged == elems + [elem] && size' == size + 1 && c.Contents() == base + Elems(staged)
    ensures match ElementSeparator(c.json, old(c.pos), staged)
      case More(_, n) => more && code == Ok && c.pos == n
      case Stop(r) => !more && (r.Done? ==> code == Ok && c.pos == r.next) && (r.Fail? ==> code == r.code)
  {
    StageElement(c, base, elems, elem);
    staged, size' := elems + [elem], size + 1;
    ParseWhitespace(c);
    code, more := Ok, false;
    if At(c.json, c.pos) == Comma {
      c.pos := c.pos + 1;
      ParseWhitespace(c);
      more := true;
    } else if At(c.json, c.pos) == RightBracket {
      c.pos := c.pos + 1;
    } else {
      code := MissCommaOrSquareBracket;
    }
  }

  /** The element loop of my_parse_array from the first element: rounds
      until one stops, with every parsed element left staged. */
  method ElementLoop(c: Context, heap: Heap, strtod: Strtod, ghost base: seq<Cell>)
      returns (code: Code, ghost elems: seq<Value>, size: nat)
    requires c.Valid() && c.pos <= |c.json| && c.Contents() == base
    modifies c`pos, c`stack, c`size, c`top, c.stack, heap
    ensures c.Valid() && (c.stack == old(c.stack) || fresh(c.stack))
    ensures size == |elems| && c.Contents() == base + Elems(elems)
    ensures heap.live == old(heap.live) + ElementBlocks(elems)
    ensures match ParseElements(c.json, old(c.pos), [], strtod)
      case Done(w, n) => code == Ok && c.pos == n && w == Array(elems)
      case Fail(e) => code == e
    decreases |c.json| - c.pos, 3
  {
    ghost var j0 := c.pos;
    elems, size := [], 0;
    while true
      invariant c.Valid() && (c.stack == old(c.stack) || fresh(c.stack))
      invariant j0 <= c.pos <= |c.json|
      invariant ParseElements(c.json, j0, [], strtod) == ParseElements(c.json, c.pos, elems, strtod)
      invariant size == |elems| && c.Contents() == base + Elems(elems)
      invariant heap.live == old(heap.live) + ElementBlocks(elems)
      decreases |c.json| - c.pos
    {
      var more;
      ghost var staged;
      code, more, staged, size := ElementRound(c, heap, strtod, base, elems, size);
      elems := staged;
      if !more {
        return;
      }
    }
  }

  /** my_parse_array: stage each element on the stack; on success pop them all
      into one new block, on failure pop and free each one. */
  method ParseArray(c: Context, heap: Heap, strtod: Strtod) returns (code: Code, v: Value)
    requires c.Valid() && c.pos < |c.json| && c.json[c.pos] == LeftBracket
    modifies c`pos, c`stack, c`size, c`top, c.stack, heap
    ensures c.Valid() && (c.stack == old(c.stack) || fresh(c.stack))
    ensures c.Contents() == old(c.Contents())
    ensures Agrees(Grammar.ParseArray(c.json, old(c.pos), strtod), code, v, c.pos)
    ensures heap.live == old(heap.live) + (if code == Ok then Blocks(v) else 0)
    decreases |c.json| - c.pos, 0
  {
    ghost var base := c.Contents();
    c.pos := c.pos + 1;
    ParseWhitespace(c);
    if At(c.json, c.pos) == RightBracket {
      c.pos := c.pos + 1;
      return Ok, Array([]);
    }
    ghost var elems;
    var size;
    code, elems, size := ElementLoop(c, heap, strtod, base);
    if code == Ok {
      var e := CollectElements(c, base, elems, size);
      heap.Allocate();
      v := Array(e);
    } else {
      DropElements(c, heap, base, elems, size);
      v := Null;
    }
  }

  /** The key and colon of a round of my_parse_object.  The key is copied
      into a new block (tmp_m.k) as soon as it is scanned; `key` is that block. */
  method MemberKey(c: Context, heap: Heap) returns (code: Code, key: Option<seq<byte>>)
    requires c.Valid() && c.pos <= |c.json|
    modifies c`pos, c`stack, c`size, c`top, c.stack, heap
    ensures c.Valid() && (c.stack == old(c.stack) || fresh(c.stack))
    ensures c.Contents() == old(c.Contents()) && (code == Ok ==> c.pos <= |c.json|)
    ensures heap.live == old(heap.live) + (if key.Some? then 1 else 0)
    ensures At(c.json, old(c.pos)) != Quote ==> code == MissKey && key.None?
    ensures At(c.json, old(c.pos)) == Quote ==>
      match ScanString(c.json, old(c.pos) + 1, [])
      case ScanFailed(e, _) => code == e && key.None?
      case Scanned(k, q) =>
        key == Some(k) &&
        (At(c.json, SkipWhitespace(c.json, q)) != Colon ==> code == MissColon) &&
        (At(c.json, SkipWhitespace(c.json, q)) == Colon ==>
          code == Ok && c.pos == SkipWhitespace(c.json, SkipWhitespace(c.json, q) + 1))
  {
    key := None;
    if At(c.json, c.pos) != Quote {
      return MissKey, None;
    }
    var str;
    code, str := ParseStringRaw(c);
    if code != Ok {
      return;
    }
    heap.Allocate();
    key := Some(str);
    ParseWhitespace(c);
    if At(c.json, c.pos) != Colon {
      code := MissColon;
      return;
    }
    c.pos := c.pos + 1;
    ParseWhitespace(c);
  }

  /** One round of the member loop of my_parse_object.  `key` is the key
      parsed in this round and not yet staged (tmp_m.k), which the caller frees. */
  method MemberRound(c: Context, heap: Heap, strtod: Strtod, ghost base: seq<Cell>, ghost members: seq<Member>, size: nat)
      returns (code: Code, more: bool, key: Option<seq<byte>>, ghost staged: seq<Member>, size': nat)
    requires c.Valid() && c.pos <= |c.json| && size == |members| && c.Contents() == base + Entries(members)
    modifies c`pos, c`stack, c`size, c`top, c.stack, heap
    ensures c.Valid() && (c.stack == old(c.stack) || fresh(c.stack))
    ensures size' == |staged| && c.Contents() == base + Entries(staged)
    ensures heap.live == old(heap.live) - MemberBlocks(members) + MemberBlocks(staged) + (if key.Some? then 1 else 0)
    ensures match MemberStep(c.json, old(c.pos), members, strtod)
      case More(a, n) => more && c.pos == n && staged == a && key.None?
      case Stop(r) =>
        !more && (r.Done? ==> code == Ok && c.pos == r.next && r.val == Object(staged) && key.None?) &&
        (r.Fail? ==> code == r.code)
    decreases |c.json| - c.pos, 2
  {
    staged, size', more := members, size, false;
    code, key := MemberKey(c, heap);
    if code != Ok {
      return;
    }
    code, more, key, staged, size' := MemberValueRound(c, heap, strtod, base, members, size, key.value);
  }

  /** The value of a round of my_parse_object, once key and colon are read:
      on success the member is staged and owns the key. */
  method MemberValueRound(c: Context, heap: Heap, strtod: Strtod, ghost base: seq<Cell>, ghost members: seq<Member>, size: nat, k: seq<byte>)
      returns (code: Code, more: bool, key: Option<seq<byte>>, ghost staged: seq<Member>, size': nat)
    requires c.Valid() && c.pos <= |c.json| && size == |members| && c.Contents() == base + Entries(members)
    modifies c`pos, c`stack, c`size, c`top, c.stack, heap
    ensures c.Valid() && (c.stack == old(c.stack) || fresh(c.stack))
    ensures size' == |staged| && c.Contents() == base + Entries(staged)
    ensures heap.live == old(heap.live) - MemberBlocks(members) + MemberBlocks(staged) + (if key.Some? then 1 else 0) - 1
    ensures match MemberValue(c.json, old(c.pos), k, members, strtod)
      case More(a, n) => more && c.pos == n && staged == a && key.None?
      case Stop(r) =>
        !more && (r.Done? ==> code == Ok && c.pos == r.next && r.val == Object(staged) && key.None?) &&
        (r.Fail? ==> code == r.code)
    decreases |c.json| - c.pos, 2
  {
    staged, size', more, key := members, size, false, Some(k);
    var val;
    code, val := ParseValue(c, heap, strtod);
    if code != Ok {
      return;
    }
    key := None;
    assert (members + [Member(k, val)])[..|members|] == members;
    code, more, staged, size' := MemberTail(c, base, members, Member(k, val), size);
  }

  /** The rest of a round of my_parse_object once its value is parsed: stage
      the member (the key now belongs to it), then read the comma or the
      closing brace. */
  method MemberTail(c: Context, ghost base: seq<Cell>, ghost members: seq<Member>, m: Member, size: nat)
      returns (code: Code, more: bool, ghost staged: seq<Member>, size': nat)
    requires c.Valid() && c.pos <= |c.json| && size == |members| && c.Contents() == base + Entries(members)
    modifies c`pos, c`stack, c`size, c`top, c.stack
    ensures c.Valid() && (c.stack == old(c.stack) || fresh(c.stack))
    ensures staged == members + [m] && size' == size + 1 && c.Contents() == base + Entries(staged)
    ensures match MemberSeparator(c.json, old(c.pos), staged)
      case More(_, n) => more && code == Ok && c.pos == n
      case Stop(r) => !more && (r.Done? ==> code == Ok && c.pos == r.next) && (r.Fail? ==> code == r.code)
  {
    StageMember(c, base, members, m);
    staged, size' := members + [m], size + 1;
    ParseWhitespace(c);
    code, more := Ok, false;
    if At(c.json, c.pos) == Comma {
      c.pos := c.pos + 1;
      ParseWhitespace(c);
      more := true;
    } else if At(c.json, c.pos) == RightBrace {
      c.pos := c.pos + 1;
    } else {
      code := MissCommaOrCurlyBracket;
    }
  }

  /** The member loop of my_parse_object from the first key: rounds until
      one stops, with every parsed member left staged and the key of a
      failed round (not yet staged) still allocated. */
  method MemberLoop(c: Context, heap: Heap, strtod: Strtod, ghost base: seq<Cell>)
      returns (code: Code, key: Option<seq<byte>>, ghost members: seq<Member>, size: nat)
    requires c.Valid() && c.pos <= |c.json| && c.Contents() == base
    modifies c`pos, c`stack, c`size, c`top, c.stack, heap
    ensures c.Valid() && (c.stack == old(c.stack) || fresh(c.stack))
    ensures size == |members| && c.Contents() == base + Entries(members)
    ensures heap.live == old(heap.live) + MemberBlocks(members) + (if key.Some? then 1 else 0)
    ensures match ParseMembers(c.json, old(c.pos), [], strtod)
      case Done(w, n) => code == Ok && c.pos == n && w == Object(members) && key.None?
      case Fail(e) => code == e
    decreases |c.json| - c.pos, 3
  {
    ghost var j0 := c.pos;
    members, size, key := [], 0, None;
    while true
      invariant c.Valid() && (c.stack == old(c.stack) || fresh(c.stack))
      invariant j0 <= c.pos <= |c.json|
      invariant ParseMembers(c.json, j0, [], strtod) == ParseMembers(c.json, c.pos, members, strtod)
      invariant size == |members| && c.Contents() == base + Entries(members)
      invariant heap.live == old(heap.live) + MemberBlocks(members) && key.None?
      decreases |c.json| - c.pos
    {
      var more;
      ghost var staged;
      code, more, key, staged, size := MemberRound(c, heap, strtod, base, members, size);
      members := staged;
      if !more {
        return;
      }
    }
  }

  /** my_parse_object: like my_parse_array with a key, a colon and a value per
      member; the unstaged key of a failed round is freed too. */
  method ParseObject(c: Context, heap: Heap, strtod: Strtod) returns (code: Code, v: Value)
    requires c.Valid() && c.pos < |c.json| && c.json[c.pos] == LeftBrace
    modifies c`pos, c`stack, c`size, c`top, c.stack, heap
    ensures c.Valid() && (c.stack == old(c.stack) || fresh(c.stack))
    ensures c.Contents() == old(c.Contents())
    ensures Agrees(Grammar.ParseObject(c.json, old(c.pos), strtod), code, v, c.pos)
    ensures heap.live == old(heap.live) + (if code == Ok then Blocks(v) else 0)
    decreases |c.json| - c.pos, 0
  {
    ghost var base := c.Contents();
    c.pos := c.pos + 1;
    ParseWhitespace(c);
    if At(c.json, c.pos) == RightBrace {
      c.pos := c.pos + 1;
      return Ok, Object([]);
    }
    var key;
    ghost var members;
    var size;
    code, key, members, size := MemberLoop(c, heap, strtod, base);
    if key.Some? {
      heap.Release();
    }
    if code == Ok {
      var m := CollectMembers(c, base, members, size);
      heap.Allocate();
      v := Object(m);
    } else {
      DropMembers(c, heap, base, members, size);
      v := Null;
    }
  }

  /** my_parse: a fresh context, one value between whitespace, then the end
      of the input.  A value followed by more input is freed before the
      result becomes Null, and the stack is empty at the end. */
  method Parse(v: Slot, json: seq<byte>, heap: Heap, strtod: Strtod) returns (code: Code)
    modifies v, heap
    ensures (code, v.val) == Grammar.Parse(json, strtod)
    ensures heap.live == old(heap.live) + Blocks(v.val)
  {
    var c := new Context(json);
    v.Init();
    ParseWhitespace(c);
    var val;
    code, val := ParseValue(c, heap, strtod);
    if code == Ok {
      ParseWhitespace(c);
      if At(c.json, c.pos) != Nul {
        FreeValue(heap, val);
        val := Null;
        code := RootNotSingular;
      }
    }
    v.val := val;
    assert c.top == |c.Contents()| == 0;
  }

  /** The blocks my_parse as written loses: the value parsed before a
      RootNotSingular error, whose tag is overwritten without freeing it. */
  function RootLeak(json: seq<byte>, strtod: Strtod): nat
  {
    match Grammar.ParseValue(json, SkipWhitespace(json, 0), strtod)
    case Done(w, j) => if At(json, SkipWhitespace(json, j)) != Nul then Blocks(w) else 0
    case Fail(_) => 0
  }

  /** my_parse as written: on RootNotSingular the tag becomes Null and the
      value's blocks stay allocated. */
  method ParseAsWritten(v: Slot, json: seq<byte>, heap: Heap, strtod: Strtod) returns (code: Code)
    modifies v, heap
    ensures (code, v.val) == Grammar.Parse(json, strtod)
    ensures heap.live == old(heap.live) + Blocks(v.val) + RootLeak(json, strtod)
  {
    var c := new Context(json);
    v.Init();
    ParseWhitespace(c);
    var val;
    code, val := ParseValue(c, heap, strtod);
    if code == Ok {
      ParseWhitespace(c);
      if At(c.json, c.pos) != Nul {
        val := Null;
        code := RootNotSingular;
      }
    }
    v.val := val;
    assert c.top == |c.Contents()| == 0;
  }

  /** `"a" x` loses the one block of the string "a". */
  lemma RootLeakExample(strtod: Strtod)
    ensures RootLeak([Quote, 0x61, Quote, Space, 0x78], strtod) == 1
    ensures Grammar.Parse([Quote, 0x61, Quote, Space, 0x78], strtod) == (RootNotSingular, Null)
  {
    var s := [Quote, 0x61, Quote, Space, 0x78];
    assert ScanString(s, 2, [0x61]) == Scanned([0x61], 3);
    assert ScanString(s, 1, []) == ScanString(s, 2, [0x61]);
    assert SkipWhitespace(s, 0) == 0;
    assert SkipWhitespace(s, 3) == SkipWhitespace(s, 4) == 4;
  }
}
