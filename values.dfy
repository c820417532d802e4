/** The lifetime side of my_value: my_free, the setters that free the old
    payload before installing a new one, and my_init.  malloc and free are
    counted on a ledger of live heap blocks. */
module Values {

  import opened Json

  /** The C allocator, reduced to the number of blocks currently live. */
  class Heap {
    ghost var live: int

    constructor ()
      ensures live == 0
    {
      live := 0;
    }

    /** malloc of one block. */
    ghost method Allocate()
      modifies this
      ensures live == old(live) + 1
    {
      live := live + 1;
    }

    /** free of one block. */
    ghost method Release()
      modifies this
      ensures live == old(live) - 1
    {
      live := live - 1;
    }
  }

  /** my_free on a value: every block the value owns is released, children
      first, then the element or member array itself. */
  method FreeValue(heap: Heap, v: Value)
    modifies heap
    ensures heap.live == old(heap.live) - Blocks(v)
    decreases v
  {
    match v
    case String(_) =>
      heap.Release();
    case Array(e) =>
      for i := 0 to |e|
        invariant heap.live == old(heap.live) - ElementBlocks(e[..i])
      {
        assert e[..i + 1][..i] == e[..i];
        FreeValue(heap, e[i]);
      }
      assert e[..|e|] == e;
      if |e| > 0 {
        heap.Release();
      }
    case Object(m) =>
      for i := 0 to |m|
        invariant heap.live == old(heap.live) - MemberBlocks(m[..i])
      {
        assert m[..i + 1][..i] == m[..i];
        heap.Release();
        FreeValue(heap, m[i].v);
      }
      assert m[..|m|] == m;
      if |m| > 0 {
        heap.Release();
      }
    case _ =>
  }

  /** A my_value the caller owns, updated in place. */
  class Slot {
    var val: Value

    /** A slot as the caller declares it, already in the Null state. */
    constructor ()
      ensures val == Null
    {
      val := Null;
    }

    /** my_init: the tag becomes Null and nothing is freed. */
    method Init()
      modifies this
      ensures val == Null
    {
      val := Null;
    }

    /** my_free, and my_set_null which is the same: release the payload,
        leave the tag Null. */
    method Free(heap: Heap)
      modifies this, heap
      ensures val == Null
      ensures heap.live == old(heap.live) - Blocks(old(val))
    {
      FreeValue(heap, val);
      val := Null;
    }

    /** my_set_number. */
    method SetNumber(heap: Heap, n: Double)
      modifies this, heap
      ensures val == Number(n) && GetNumber(val) == n
      ensures heap.live == old(heap.live) - Blocks(old(val))
    {
      Free(heap);
      val := Number(n);
    }

    /** my_set_string: a fresh copy of `len` bytes, one new block. */
    method SetString(heap: Heap, s: seq<byte>)
      modifies this, heap
      ensures val == String(s) && GetString(val) == s && GetStringLength(val) == |s|
      ensures heap.live == old(heap.live) - Blocks(old(val)) + 1
    {
      Free(heap);
      heap.Allocate();
      val := String(s);
    }

    /** my_set_boolean: true exactly when `b` is non-zero. */
    method SetBoolean(heap: Heap, b: int)
      modifies this, heap
      ensures (val == True <==> b != 0) && (val == False <==> b == 0)
      ensures GetBoolean(val) == if b != 0 then 1 else 0
      ensures heap.live == old(heap.live) - Blocks(old(val))
    {
      Free(heap);
      val := if b != 0 then True else False;
    }
  }
}
