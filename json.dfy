/** The value model of the library: the seven type tags, the tagged value
    tree, object members, the parse result codes, and the read accessors.
    Bytes are the library's `char`s; an IEEE-754 double is carried as its
    64-bit pattern and never interpreted here. */
module Json {

  type byte = b: int | 0 <= b < 256

  /** The 64-bit pattern of an IEEE-754 double, as an unsigned integer. */
  type Double = d: int | 0 <= d < 0x1_0000_0000_0000_0000

  /** The tags, in declaration order. */
  datatype Type = NullType | FalseType | TrueType | NumberType | StringType | ArrayType | ObjectType

  /** A value: the tag selects the one payload that exists.  A string owns its
      bytes (its length is the sequence's), an array its elements in order, an
      object its members in order, duplicate keys included. */
  datatype Value =
    | Null
    | False
    | True
    | Number(n: Double)
    | String(s: seq<byte>)
    | Array(e: seq<Value>)
    | Object(m: seq<Member>)

  /** A member owns its key bytes (its length is `klen`) and its value. */
  datatype Member = Member(k: seq<byte>, v: Value)

  /** The parse result codes; `Ok` is the only success. */
  datatype Code =
    | Ok
    | ExpectValue
    | InvalidValue
    | RootNotSingular
    | NumberTooBig
    | MissQuotationMark
    | InvalidStringEscape
    | InvalidStringChar
    | InvalidUnicodeHex
    | InvalidUnicodeSurrogate
    | MissCommaOrSquareBracket
    | MissKey
    | MissColon
    | MissCommaOrCurlyBracket

  /** The integer value of a tag in the C enum. */
  function TypeOrdinal(t: Type): (r: nat)
    ensures r < 7
    ensures r == 0 <==> t == NullType
  {
    match t
    case NullType => 0
    case FalseType => 1
    case TrueType => 2
    case NumberType => 3
    case StringType => 4
    case ArrayType => 5
    case ObjectType => 6
  }

  /** The tag with a given enum value: every value 0..6 names exactly one tag. */
  function TypeFromOrdinal(k: nat): (t: Type)
    requires k < 7
    ensures TypeOrdinal(t) == k
    ensures forall t' :: TypeOrdinal(t') == k ==> t' == t
  {
    [NullType, FalseType, TrueType, NumberType, StringType, ArrayType, ObjectType][k]
  }

  /** The integer value of a result code in the C enum. */
  function CodeValue(c: Code): (r: nat)
    ensures r < 14
    ensures r == 0 <==> c == Ok
  {
    match c
    case Ok => 0
    case ExpectValue => 1
    case InvalidValue => 2
    case RootNotSingular => 3
    case NumberTooBig => 4
    case MissQuotationMark => 5
    case InvalidStringEscape => 6
    case InvalidStringChar => 7
    case InvalidUnicodeHex => 8
    case InvalidUnicodeSurrogate => 9
    case MissCommaOrSquareBracket => 10
    case MissKey => 11
    case MissColon => 12
    case MissCommaOrCurlyBracket => 13
  }

  /** Distinct codes have distinct values, so the thirteen errors are told apart. */
  lemma CodeValueInjective(c1: Code, c2: Code)
    ensures CodeValue(c1) == CodeValue(c2) ==> c1 == c2
  {
  }

  /** my_get_type: the tag of a value. */
  function GetType(v: Value): (t: Type)
    ensures t == NullType <==> v.Null?
    ensures t == FalseType <==> v.False?
    ensures t == TrueType <==> v.True?
    ensures t == NumberType <==> v.Number?
    ensures t == StringType <==> v.String?
    ensures t == ArrayType <==> v.Array?
    ensures t == ObjectType <==> v.Object?
  {
    match v
    case Null => NullType
    case False => FalseType
    case True => TrueType
    case Number(_) => NumberType
    case String(_) => StringType
    case Array(_) => ArrayType
    case Object(_) => ObjectType
  }

  /** my_get_boolean: 1 for true and 0 for false. */
  function GetBoolean(v: Value): (b: int)
    requires v.True? || v.False?
    ensures b == 0 || b == 1
    ensures b == 1 <==> GetType(v) == TrueType
  {
    if v.True? then 1 else 0
  }

  /** my_get_number. */
  function GetNumber(v: Value): (n: Double)
    requires GetType(v) == NumberType
    ensures v == Number(n)
  {
    v.n
  }

  /** my_get_string. */
  function GetString(v: Value): (s: seq<byte>)
    requires GetType(v) == StringType
    ensures v == String(s)
  {
    v.s
  }

  /** my_get_string_length. */
  function GetStringLength(v: Value): (len: nat)
    requires GetType(v) == StringType
    ensures len == |GetString(v)|
  {
    |v.s|
  }

  /** my_get_array_size. */
  function GetArraySize(v: Value): (size: nat)
    requires GetType(v) == ArrayType
    ensures v.Array? && size == |v.e|
  {
    |v.e|
  }

  /** my_get_array_element: the element at an index below the size. */
  function GetArrayElement(v: Value, index: nat): (x: Value)
    requires GetType(v) == ArrayType && index < GetArraySize(v)
    ensures x in v.e && x == v.e[index]
    ensures x < v
  {
    v.e[index]
  }

  /** my_get_object_size. */
  function GetObjectSize(v: Value): (size: nat)
    requires GetType(v) == ObjectType
    ensures v.Object? && size == |v.m|
  {
    |v.m|
  }

  /** my_get_object_key. */
  function GetObjectKey(v: Value, index: nat): (k: seq<byte>)
    requires GetType(v) == ObjectType && index < GetObjectSize(v)
    ensures k == v.m[index].k
    ensures exists x :: Member(k, x) in v.m
  {
    assert Member(v.m[index].k, v.m[index].v) in v.m;
    v.m[index].k
  }

  /** my_get_object_key_length. */
  function GetObjectKeyLength(v: Value, index: nat): (klen: nat)
    requires GetType(v) == ObjectType && index < GetObjectSize(v)
    ensures klen == |GetObjectKey(v, index)|
  {
    |v.m[index].k|
  }

  /** my_get_object_value. */
  function GetObjectValue(v: Value, index: nat): (x: Value)
    requires GetType(v) == ObjectType && index < GetObjectSize(v)
    ensures Member(GetObjectKey(v, index), x) == v.m[index]
    ensures x < v
  {
    v.m[index].v
  }

  /** The number of heap blocks a value owns: one per string buffer, one per
      non-empty element or member array (an empty one is a null pointer), and
      one per member key. */
  function Blocks(v: Value): (n: nat)
    ensures v.String? ==> n == 1
    ensures v.Null? || v.True? || v.False? || v.Number? ==> n == 0
  {
    match v
    case String(_) => 1
    case Array(e) => (if |e| == 0 then 0 else 1) + ElementBlocks(e)
    case Object(m) => (if |m| == 0 then 0 else 1) + MemberBlocks(m)
    case _ => 0
  }

  /** The blocks owned by a run of elements. */
  function ElementBlocks(e: seq<Value>): nat
  {
    if e == [] then 0 else ElementBlocks(e[..|e| - 1]) + Blocks(e[|e| - 1])
  }

  /** The blocks owned by a run of members: each key and each value's payload. */
  function MemberBlocks(m: seq<Member>): nat
  {
    if m == [] then 0 else MemberBlocks(m[..|m| - 1]) + 1 + Blocks(m[|m| - 1].v)
  }
}
