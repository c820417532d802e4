/** my_context: the input cursor and the growable scratch stack that the
    parser and the serializer share.  The C stack holds raw bytes, and whole
    my_value and my_member records are copied onto it; here every stack slot
    is a `Cell` that holds either one byte or one staged record. */
module Stack {

  import opened Json

  /** MY_PARSE_STACK_INIT_SIZE and MY_PARSE_STRINGIFY_INIT_SIZE. */
  const InitSize: nat := 256

  /** One slot of the scratch stack. */
  datatype Cell = Byte(b: byte) | Elem(v: Value) | Entry(m: Member)

  /** The slots holding the bytes of `b`, in order. */
  function Bytes(b: seq<byte>): (r: seq<Cell>)
    ensures |r| == |b|
  {
    if b == [] then [] else Bytes(b[..|b| - 1]) + [Byte(b[|b| - 1])]
  }

  /** Slot `k` of staged bytes holds byte `k`. */
  lemma {:induction false} BytesIndex(b: seq<byte>)
    ensures forall k :: 0 <= k < |b| ==> Bytes(b)[k] == Byte(b[k])
  {
    if b != [] {
      var init := b[..|b| - 1];
      BytesIndex(init);
      forall k | 0 <= k < |init| ensures Bytes(b)[k] == Byte(b[k]) {
        assert Bytes(b)[k] == Bytes(init)[k];
      }
    }
  }

  /** Slots holding the bytes of `b` from `head` on, after a prefix, are
      that prefix followed by Bytes(b). */
  lemma SlotsHold(a: seq<Cell>, head: nat, b: seq<byte>)
    requires head + |b| <= |a| && forall k :: head <= k < head + |b| ==> a[k] == Byte(b[k - head])
    ensures a[..head + |b|] == a[..head] + Bytes(b)
  {
    BytesIndex(b);
    var lhs, rhs := a[..head + |b|], a[..head] + Bytes(b);
    forall k | 0 <= k < |lhs| ensures lhs[k] == rhs[k] {
      if k >= head {
        assert rhs[k] == Bytes(b)[k - head];
      }
    }
    assert lhs == rhs;
  }

  /** The bytes held by a run of slots (a slot holding a record reads as 0). */
  function Unstage(cs: seq<Cell>): (r: seq<byte>)
    ensures |r| == |cs|
  {
    seq(|cs|, k requires 0 <= k < |cs| => if cs[k].Byte? then cs[k].b else 0)
  }

  /** Staging bytes and reading them back gives the bytes. */
  lemma UnstageBytes(b: seq<byte>)
    ensures Unstage(Bytes(b)) == b
  {
    BytesIndex(b);
  }

  /** Staged bytes and a NUL terminator read back as the bytes and NUL. */
  lemma UnstageTerminated(cs: seq<Cell>, w: seq<byte>)
    requires cs == Bytes(w) + [Byte(0)]
    ensures Unstage(cs) == w + [0] && |w| == |cs| - 1
  {
    BytesIndex(w);
    var r := w + [0];
    forall k | 0 <= k < |cs| ensures Unstage(cs)[k] == r[k] {
      if k < |w| {
        assert cs[k] == Bytes(w)[k];
      }
    }
  }

  /** Staging more bytes on top of staged bytes stages their concatenation. */
  lemma BytesAppend(base: seq<Cell>, a: seq<byte>, b: seq<byte>)
    ensures base + Bytes(a) + Bytes(b) == base + Bytes(a + b)
    ensures Bytes([]) == [] && Bytes(b[..0]) == []
    ensures |b| == 1 ==> Bytes(b) == [Byte(b[0])]
  {
    BytesIndex(a);
    BytesIndex(b);
    BytesIndex(a + b);
    assert Bytes(a + b) == Bytes(a) + Bytes(b);
    if |b| == 1 {
      assert b[..0] == [];
    }
  }

  /** The slots holding staged array elements, in order. */
  function Elems(e: seq<Value>): (r: seq<Cell>)
    ensures |r| == |e| && forall k :: 0 <= k < |e| ==> r[k] == Elem(e[k])
  {
    if e == [] then [] else Elems(e[..|e| - 1]) + [Elem(e[|e| - 1])]
  }

  /** The slots holding staged object members, in order. */
  function Entries(m: seq<Member>): (r: seq<Cell>)
    ensures |r| == |m| && forall k :: 0 <= k < |m| ==> r[k] == Entry(m[k])
  {
    if m == [] then [] else Entries(m[..|m| - 1]) + [Entry(m[|m| - 1])]
  }

  /** The values held by a run of element slots (any other slot reads as Null). */
  function Payloads(cs: seq<Cell>): (r: seq<Value>)
    ensures |r| == |cs|
  {
    seq(|cs|, k requires 0 <= k < |cs| => if cs[k].Elem? then cs[k].v else Null)
  }

  /** The members held by a run of member slots. */
  function Fields(cs: seq<Cell>): (r: seq<Member>)
    ensures |r| == |cs|
  {
    seq(|cs|, k requires 0 <= k < |cs| => if cs[k].Entry? then cs[k].m else Member([], Null))
  }

  /** Reading staged elements or members back gives them in order. */
  lemma UnstageRecords(e: seq<Value>, m: seq<Member>)
    ensures Payloads(Elems(e)) == e && Fields(Entries(m)) == m
  {
  }

  /** Staging one more element. */
  lemma StageElem(base: seq<Cell>, e: seq<Value>, x: Value)
    ensures base + Elems(e) + [Elem(x)] == base + Elems(e + [x])
  {
    var ex := e + [x];
    assert ex[..|ex| - 1] == e;
    assert Elems(ex) == Elems(e) + [Elem(x)];
  }

  /** Staging one more member. */
  lemma StageEntry(base: seq<Cell>, m: seq<Member>, y: Member)
    ensures base + Entries(m) + [Entry(y)] == base + Entries(m + [y])
  {
    var my := m + [y];
    assert my[..|my| - 1] == m;
    assert Entries(my) == Entries(m) + [Entry(y)];
  }

  /** Two ways of splitting one run at the same place agree. */
  lemma SplitTop(a: seq<Cell>, b: seq<Cell>, c: seq<Cell>, d: seq<Cell>)
    requires a + b == c + d && |b| == |d|
    ensures a == c && b == d
  {
    assert a == (a + b)[..|a|] && c == (c + d)[..|c|];
    assert b == (a + b)[|a|..] && d == (c + d)[|c|..];
  }

  /** The capacity after the growth loop of my_context_push: multiply by
      1.5 (size += size >> 1) until the request fits strictly. */
  function Grow(size: nat, need: nat): (r: nat)
    requires size >= 2
    decreases need + 1 - size
  {
    if need < size then size else Grow(size + size / 2, need)
  }

  /** The capacity my_context_push leaves for a stack that must hold `need` bytes. */
  function Capacity(size: nat, need: nat): nat
    requires size == 0 || size >= 2
  {
    if need < size then size
    else Grow(if size == 0 then InitSize else size, need)
  }

  /** Growth makes the request fit and never shrinks the stack. */
  lemma {:induction false} GrowFits(size: nat, need: nat)
    requires size >= 2
    ensures need < Grow(size, need) && size <= Grow(size, need)
    decreases need + 1 - size
  {
    if need >= size {
      GrowFits(size + size / 2, need);
    }
  }

  lemma CapacityFits(size: nat, need: nat)
    requires size == 0 || size >= 2
    ensures need < Capacity(size, need) && size <= Capacity(size, need)
    ensures need < size ==> Capacity(size, need) == size
    ensures size == 0 ==> Capacity(size, need) >= InitSize
  {
    if need >= size {
      GrowFits(if size == 0 then InitSize else size, need);
    }
  }

  /** The first push allocates 256 slots; filling them grows the stack to 384, then 576. */
  lemma CapacityExamples()
    ensures Capacity(0, 1) == 256 && Capacity(256, 255) == 256
    ensures Capacity(256, 256) == 384 && Capacity(256, 400) == 576
  {
  }

  class Context {
    /** The NUL-terminated input; positions at or past its end read as NUL. */
    const json: seq<byte>
    /** c->json, as an index into `json`. */
    var pos: nat
    var stack: array<Cell>
    var size: nat
    var top: nat

    ghost predicate Valid()
      reads this`stack, this`size, this`top
    {
      stack.Length == size && top <= size && (size == 0 || size >= 2)
    }

    /** The slots pushed and not yet popped. */
    function Contents(): seq<Cell>
      reads this`stack, this`size, this`top, stack
      requires Valid()
    {
      stack[..top]
    }

    /** The context my_parse sets up: cursor at the start, no stack yet. */
    constructor (json: seq<byte>)
      ensures Valid() && this.json == json && pos == 0 && size == 0 && Contents() == []
      ensures fresh(stack)
    {
      this.json := json;
      pos := 0;
      stack := new Cell[0];
      size := 0;
      top := 0;
    }

    /** The context my_stringify sets up: an empty stack of InitSize slots. */
    constructor Sized()
      ensures Valid() && json == [] && size == InitSize && Contents() == []
      ensures fresh(stack)
    {
      json := [];
      pos := 0;
      stack := new Cell[InitSize](_ => Byte(0));
      size := InitSize;
      top := 0;
    }

    /** my_context_push: reserve `n` slots on top and return where they start. */
    method Push(n: nat) returns (at: nat)
      requires Valid() && n > 0
      modifies this`stack, this`size, this`top
      ensures Valid() && (stack == old(stack) || fresh(stack))
      ensures at == old(top) && top == old(top) + n && top < size
      ensures size == Capacity(old(size), old(top) + n)
      ensures stack[..old(top)] == old(stack[..top])
    {
      if top + n >= size {
        var old_size := size;
        if size == 0 {
          size := InitSize;
        }
        while top + n >= size
          invariant size >= 2 && old_size <= size
          invariant stack == old(stack) && top == old(top)
          invariant Capacity(old_size, top + n) == Grow(size, top + n)
          decreases top + n - size
        {
          size := size + size / 2;
        }
        var grown := new Cell[size](_ => Byte(0));
        forall k | 0 <= k < old_size {
          grown[k] := stack[k];
        }
        stack := grown;
      }
      at := top;
      top := top + n;
    }

    /** my_context_pop: release the top `n` slots and return them. */
    method Pop(n: nat) returns (popped: seq<Cell>)
      requires Valid() && n <= top
      modifies this`top
      ensures Valid() && stack == old(stack) && size == old(size)
      ensures top == old(top) - n
      ensures old(Contents()) == Contents() + popped && |popped| == n
    {
      top := top - n;
      popped := stack[top..top + n];
    }

    /** PUTC: push one byte. */
    method PutC(b: byte)
      requires Valid()
      modifies this`stack, this`size, this`top, stack
      ensures Valid() && (stack == old(stack) || fresh(stack))
      ensures Contents() == old(Contents()) + [Byte(b)]
    {
      var at := Push(1);
      stack[at] := Byte(b);
    }

    /** PUTS: push a non-empty run of bytes. */
    method PutS(bs: seq<byte>)
      requires Valid() && |bs| > 0
      modifies this`stack, this`size, this`top, stack
      ensures Valid() && (stack == old(stack) || fresh(stack))
      ensures Contents() == old(Contents()) + Bytes(bs)
    {
      var at := Push(|bs|);
      ghost var below := stack[..at];
      forall k | 0 <= k < |bs| {
        stack[at + k] := Byte(bs[k]);
      }
      assert stack[..at] == below;
      SlotsHold(stack[..], at, bs);
      assert stack[..][..top] == stack[..top];
    }
  }
}
