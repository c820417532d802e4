/** my_stringify and its helpers: the value tree is written onto the scratch
    stack of a context, byte by byte, and the stack is handed back as the
    NUL-terminated output.  Each method is proved to append exactly the
    bytes the Writer functions define. */
module Serializer {

  import opened Json
  import opened Grammar
  import opened Writer
  import opened Stack
  import opened WriterFacts

  /** sprintf("%.17g") writes at most 31 characters and its NUL into the 32
      bytes my_stringify_value reserves for a number. */
  ghost predicate FormatFits(fmt: Format)
  {
    forall d :: |fmt(d)| < 32
  }

  /** The escape of one string byte written at `p` of the reserved area. */
  method PutEscaped(c: Context, p: nat, b: byte) returns (q: nat)
    requires c.Valid() && p + 6 <= c.top
    modifies c.stack
    ensures c.Valid() && q == p + |EscapeByte(b)|
    ensures forall k :: 0 <= k < p ==> c.stack[k] == old(c.stack[k])
    ensures forall k :: p <= k < q ==> c.stack[k] == Byte(EscapeByte(b)[k - p])
  {
    var e := EscapeByte(b);
    forall k | 0 <= k < |e| {
      c.stack[p + k] := Byte(e[k]);
    }
    q := p + |e|;
  }

  /** The loop of my_stringify_string: the escape of `s` written from `p0`. */
  method EscapeInto(c: Context, s: seq<byte>, p0: nat) returns (p: nat)
    requires c.Valid() && p0 + 6 * |s| <= c.top
    modifies c.stack
    ensures c.Valid() && p == p0 + |Escape(s)| <= p0 + 6 * |s|
    ensures forall k :: 0 <= k < p0 ==> c.stack[k] == old(c.stack[k])
    ensures forall k :: p0 <= k < p ==> c.stack[k] == Byte(Escape(s)[k - p0])
  {
    p := p0;
    for i := 0 to |s|
      invariant c.Valid() && p == p0 + |Escape(s[..i])| <= p0 + 6 * i
      invariant forall k :: 0 <= k < p0 ==> c.stack[k] == old(c.stack[k])
      invariant forall k :: p0 <= k < p ==> c.stack[k] == Byte(Escape(s[..i])[k - p0])
    {
      EscapeSnoc(s, i);
      var q := PutEscaped(c, p, s[i]);
      forall k | p0 <= k < q ensures c.stack[k] == Byte(Escape(s[..i + 1])[k - p0]) {
        if k >= p {
          assert Escape(s[..i + 1])[k - p0] == EscapeByte(s[i])[k - p];
        } else {
          assert Escape(s[..i + 1])[k - p0] == Escape(s[..i])[k - p0];
        }
      }
      p := q;
    }
    assert s[..|s|] == s;
  }

  /** The quoted escape of `s` written from `head` of the reserved area. */
  method QuoteInto(c: Context, s: seq<byte>, head: nat) returns (p: nat)
    requires c.Valid() && head + 6 * |s| + 2 <= c.top
    modifies c.stack
    ensures c.Valid() && p == head + |Writer.StringifyString(s)| <= head + 6 * |s| + 2
    ensures forall k :: 0 <= k < head ==> c.stack[k] == old(c.stack[k])
    ensures forall k :: head <= k < p ==> c.stack[k] == Byte(Writer.StringifyString(s)[k - head])
  {
    c.stack[head] := Byte(Quote);
    p := EscapeInto(c, s, head + 1);
    c.stack[p] := Byte(Quote);
    p := p + 1;
    ghost var out := Writer.StringifyString(s);
    forall k | head <= k < p ensures c.stack[k] == Byte(out[k - head]) {
      if head < k < p - 1 {
        assert out[k - head] == Escape(s)[k - head - 1];
      }
    }
  }

  /** my_stringify_string: reserve 6 bytes per input byte and 2 for the
      quotes, write the escaped string, then give back what was not used. */
  method StringifyString(c: Context, s: seq<byte>)
    requires c.Valid()
    modifies c`stack, c`size, c`top, c.stack
    ensures c.Valid() && (c.stack == old(c.stack) || fresh(c.stack))
    ensures c.Contents() == old(c.Contents()) + Bytes(Writer.StringifyString(s))
  {
    var size := |s| * 6 + 2;
    var head := c.Push(size);
    ghost var pushed := c.stack[..head];
    var p := QuoteInto(c, s, head);
    c.top := c.top - (size - (p - head));
    SlotsHold(c.stack[..], head, Writer.StringifyString(s));
    assert c.stack[..head] == pushed;
  }

  /** The number case of my_stringify_value: reserve 32 bytes, let sprintf
      write into them, give back what it did not use. */
  method StringifyNumber(c: Context, n: Double, fmt: Format)
    requires c.Valid() && FormatFits(fmt)
    modifies c`stack, c`size, c`top, c.stack
    ensures c.Valid() && (c.stack == old(c.stack) || fresh(c.stack))
    ensures c.Contents() == old(c.Contents()) + Bytes(fmt(n))
  {
    var at := c.Push(32);
    var out := fmt(n);
    ghost var pushed := c.stack[..at];
    forall k | 0 <= k < |out| {
      c.stack[at + k] := Byte(out[k]);
    }
    c.stack[at + |out|] := Byte(Nul);
    c.top := c.top - (32 - |out|);
    SlotsHold(c.stack[..], at, out);
    assert c.stack[..at] == pushed;
  }

  /** my_stringify_value. */
  method StringifyValue(c: Context, v: Value, fmt: Format)
    requires c.Valid() && FormatFits(fmt)
    modifies c`stack, c`size, c`top, c.stack
    ensures c.Valid() && (c.stack == old(c.stack) || fresh(c.stack))
    ensures c.Contents() == old(c.Contents()) + Bytes(Writer.Stringify(v, fmt))
    decreases v, 1
  {
    match v
    case Null => c.PutS(NullLiteral);
    case False => c.PutS(FalseLiteral);
    case True => c.PutS(TrueLiteral);
    case Number(n) => StringifyNumber(c, n, fmt);
    case String(s) => StringifyString(c, s);
    case Array(e) => StringifyArray(c, e, fmt);
    case Object(m) => StringifyObject(c, m, fmt);
  }

  /** The array case of my_stringify_value. */
  method StringifyArray(c: Context, e: seq<Value>, fmt: Format)
    requires c.Valid() && FormatFits(fmt)
    modifies c`stack, c`size, c`top, c.stack
    ensures c.Valid() && (c.stack == old(c.stack) || fresh(c.stack))
    ensures c.Contents() == old(c.Contents()) + Bytes([LeftBracket] + StringifyElements(e, fmt) + [RightBracket])
    decreases e, 0
  {
    ghost var before := c.Contents();
    c.PutC(LeftBracket);
    for i := 0 to |e|
      invariant c.Valid() && (c.stack == old(c.stack) || fresh(c.stack))
      invariant c.Contents() == before + Bytes([LeftBracket] + StringifyElements(e[..i], fmt))
    {
      ghost var done := [LeftBracket] + StringifyElements(e[..i], fmt);
      ghost var sep: seq<byte> := if i > 0 then [Comma] else [];
      if i > 0 {
        c.PutC(Comma);
      }
      BytesAppend(before, done, sep);
      StringifyValue(c, e[i], fmt);
      BytesAppend(before, done + sep, Writer.Stringify(e[i], fmt));
      ElementsSnoc([LeftBracket], e, i, fmt);
    }
    assert e[..|e|] == e;
    c.PutC(RightBracket);
    BytesAppend(before, [LeftBracket] + StringifyElements(e, fmt), [RightBracket]);
  }

  /** One member of the object case: key, colon, value. */
  method StringifyMemberTo(c: Context, m: Member, fmt: Format)
    requires c.Valid() && FormatFits(fmt)
    modifies c`stack, c`size, c`top, c.stack
    ensures c.Valid() && (c.stack == old(c.stack) || fresh(c.stack))
    ensures c.Contents() == old(c.Contents()) + Bytes(Writer.StringifyMember(m, fmt))
    decreases m, 1
  {
    ghost var before := c.Contents();
    StringifyString(c, m.k);
    c.PutC(Colon);
    BytesAppend(before, Writer.StringifyString(m.k), [Colon]);
    StringifyValue(c, m.v, fmt);
    BytesAppend(before, Writer.StringifyString(m.k) + [Colon], Writer.Stringify(m.v, fmt));
  }

  /** The object case of my_stringify_value. */
  method StringifyObject(c: Context, m: seq<Member>, fmt: Format)
    requires c.Valid() && FormatFits(fmt)
    modifies c`stack, c`size, c`top, c.stack
    ensures c.Valid() && (c.stack == old(c.stack) || fresh(c.stack))
    ensures c.Contents() == old(c.Contents()) + Bytes([LeftBrace] + StringifyMembers(m, fmt) + [RightBrace])
    decreases m, 0
  {
    ghost var before := c.Contents();
    c.PutC(LeftBrace);
    for i := 0 to |m|
      invariant c.Valid() && (c.stack == old(c.stack) || fresh(c.stack))
      invariant c.Contents() == before + Bytes([LeftBrace] + StringifyMembers(m[..i], fmt))
    {
      ghost var done := [LeftBrace] + StringifyMembers(m[..i], fmt);
      ghost var sep: seq<byte> := if i > 0 then [Comma] else [];
      if i > 0 {
        c.PutC(Comma);
      }
      BytesAppend(before, done, sep);
      StringifyMemberTo(c, m[i], fmt);
      BytesAppend(before, done + sep, Writer.StringifyMember(m[i], fmt));
      MembersSnoc([LeftBrace], m, i, fmt);
    }
    assert m[..|m|] == m;
    c.PutC(RightBrace);
    BytesAppend(before, [LeftBrace] + StringifyMembers(m, fmt), [RightBrace]);
  }

  /** my_stringify: a fresh stack of InitSize slots, the value, its length
      (the stack top before the terminator), then the NUL terminator. */
  method Stringify(v: Value, fmt: Format) returns (out: seq<byte>, length: nat)
    requires FormatFits(fmt)
    ensures out == Writer.Stringify(v, fmt) + [Nul]
    ensures length == |Writer.Stringify(v, fmt)|
  {
    var c := new Context.Sized();
    StringifyValue(c, v, fmt);
    length := c.top;
    c.PutC(Nul);
    out := Unstage(c.stack[..c.top]);
    assert c.Contents() == Bytes(Writer.Stringify(v, fmt)) + [Byte(Nul)];
    UnstageTerminated(c.Contents(), Writer.Stringify(v, fmt));
  }
}
