/** Properties of the serializer functions: how runs grow by one item, the
    6-bytes-per-byte bound my_stringify_string reserves for, and what the
    output never contains. */
module WriterFacts {

  import opened Json
  import opened Grammar
  import opened Writer

  /** Escaping one more byte appends its escape. */
  lemma EscapeSnoc(b: seq<byte>, i: nat)
    requires i < |b|
    ensures Escape(b[..i + 1]) == Escape(b[..i]) + EscapeByte(b[i])
  {
    assert b[..i + 1][..i] == b[..i];
  }

  /** One more element appends a comma (unless it is the first) and the element. */
  lemma ElementsSnoc(open: seq<byte>, e: seq<Value>, i: nat, fmt: Format)
    requires i < |e|
    ensures open + StringifyElements(e[..i + 1], fmt) ==
            open + StringifyElements(e[..i], fmt) + (if i > 0 then [Comma] else []) + Stringify(e[i], fmt)
  {
    assert e[..i + 1][..i] == e[..i];
  }

  /** One more member appends a comma (unless it is the first) and the member. */
  lemma MembersSnoc(open: seq<byte>, m: seq<Member>, i: nat, fmt: Format)
    requires i < |m|
    ensures open + StringifyMembers(m[..i + 1], fmt) ==
            open + StringifyMembers(m[..i], fmt) + (if i > 0 then [Comma] else []) + StringifyMember(m[i], fmt)
  {
    assert m[..i + 1][..i] == m[..i];
  }

  /** Every byte becomes one to six bytes, so len * 6 + 2 bytes always hold
      the quoted escape. */
  lemma {:induction false} EscapeBound(b: seq<byte>)
    ensures |b| <= |Escape(b)| <= 6 * |b|
  {
    if b != [] {
      EscapeBound(b[..|b| - 1]);
    }
  }

  /** The escape of a string has no control byte: each one became an escape
      sequence. */
  lemma {:induction false} EscapeNoControl(b: seq<byte>)
    ensures forall k :: 0 <= k < |Escape(b)| ==> Escape(b)[k] >= 0x20
  {
    if b != [] {
      EscapeNoControl(b[..|b| - 1]);
      var x := b[|b| - 1];
      assert Escape(b) == Escape(b[..|b| - 1]) + EscapeByte(x);
      forall k | 0 <= k < |Escape(b)| ensures Escape(b)[k] >= 0x20 {
        if k >= |Escape(b[..|b| - 1])| {
          assert Escape(b)[k] == EscapeByte(x)[k - |Escape(b[..|b| - 1])|];
        }
      }
    }
  }

  /** A quote inside a string is always escaped: every quote of the escape
      follows a backslash. */
  lemma {:induction false} EscapeQuotesEscaped(b: seq<byte>)
    ensures forall k :: 0 <= k < |Escape(b)| && Escape(b)[k] == Quote ==> k > 0 && Escape(b)[k - 1] == Backslash
  {
    if b != [] {
      var init := b[..|b| - 1];
      EscapeQuotesEscaped(init);
      var x := b[|b| - 1];
      assert Escape(b) == Escape(init) + EscapeByte(x);
      forall k | 0 <= k < |Escape(b)| && Escape(b)[k] == Quote ensures k > 0 && Escape(b)[k - 1] == Backslash {
        var n := |Escape(init)|;
        if k >= n {
          assert Escape(b)[k] == EscapeByte(x)[k - n];
          assert Escape(b)[k - 1] == EscapeByte(x)[k - 1 - n];
        }
      }
    }
  }

  /** Formats that never write a NUL. */
  ghost predicate NulFree(fmt: Format)
  {
    forall d :: Nul !in fmt(d)
  }

  /** The output never contains NUL, so the terminator my_stringify appends
      is the first NUL and `length` is the output's strlen. */
  lemma {:induction false} StringifyNoNul(v: Value, fmt: Format)
    requires NulFree(fmt)
    ensures Nul !in Stringify(v, fmt)
    decreases v, 1
  {
    match v
    case Null =>
    case False =>
    case True =>
    case Number(n) =>
    case String(b) => StringNoNul(b);
    case Array(e) => ElementsNoNul(e, fmt);
    case Object(m) => MembersNoNul(m, fmt);
  }

  lemma StringNoNul(b: seq<byte>)
    ensures Nul !in StringifyString(b)
  {
    EscapeNoControl(b);
  }

  lemma {:induction false} ElementsNoNul(e: seq<Value>, fmt: Format)
    requires NulFree(fmt)
    ensures Nul !in StringifyElements(e, fmt)
    decreases e, 0
  {
    if e != [] {
      ElementsNoNul(e[..|e| - 1], fmt);
      StringifyNoNul(e[|e| - 1], fmt);
    }
  }

  lemma {:induction false} MembersNoNul(m: seq<Member>, fmt: Format)
    requires NulFree(fmt)
    ensures Nul !in StringifyMembers(m, fmt)
    decreases m, 0
  {
    if m != [] {
      MembersNoNul(m[..|m| - 1], fmt);
      StringNoNul(m[|m| - 1].k);
      StringifyNoNul(m[|m| - 1].v, fmt);
    }
  }
}
