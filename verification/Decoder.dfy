/**
  co_obj_import, co_list_import and co_tree_import as functions of the bytes at the input
  pointer and of the length the caller passes. Reading past the bytes that are there has no
  meaning in C; it is a failure here.
 */
module Decoder {
  import opened Options
  import opened Bytes
  import opened TernaryTree
  import opened Values

  datatype Decoded<+T> = Fail | Ok(value: T, size: nat)

  // ---------------------------------------------------------------- constructors

  /** The packed co_obj_t with pointers of 64 bits. */
  const HEADER_SIZE: nat := 20

  /**
    The longest string or binary the constructors take: one short of the maximum of the length field, and
    for the field of 32 bits what the `int` for the size of the whole object still holds.
   */
  function Longest(len: Log): nat {
    if len == 0 then 0xff - 1 else if len == 1 then 0xffff - 1 else 0x7fff_ffff - (4 + HEADER_SIZE)
  }

  /** co_strN_create: the last byte becomes NUL. */
  function MakeStr(len: Log, text: seq<byte>): Option<Value> {
    if 1 <= |text| <= Longest(len) then Some(Str(len, text[..|text| - 1] + [0])) else None
  }

  /** co_binN_create */
  function MakeBin(len: Log, data: seq<byte>): Option<Value> {
    if |data| <= Longest(len) then Some(Bin(len, data)) else None
  }

  /** co_intN_create and co_uintN_create cast their argument to 32 bits on the way. */
  function MakeUInt(log: Log, u: nat): Value {
    UInt(log, if log == 3 then u % 0x1_0000_0000 else u)
  }

  function MakeInt(log: Log, i: int): Value {
    Int(log, if log == 3 then i % 0x1_0000_0000 else i)
  }

  // ---------------------------------------------------------------- simple objects

  /** A length field of 2^len bytes and as many bytes after it. */
  function Counted(mem: seq<byte>, len: Log, make: (Log, seq<byte>) -> Option<Value>): Decoded<Value> {
    var w := Width(len);
    if |mem| < 1 + w then Fail
    else
      var n := FromBytes(mem[1..1 + w]);
      if |mem| < 1 + w + n then Fail
      else match make(len, mem[1 + w..1 + w + n])
        case Some(v) => Ok(v, 1 + w + n)
        case None => Fail
  }

  function Number(mem: seq<byte>, w: nat): nat
    requires |mem| >= 1 + w
  {
    FromBytes(mem[1..1 + w])
  }

  /** The cases of co_obj_import other than lists and trees. */
  function DecodeSimple(mem: seq<byte>): Decoded<Value>
    requires mem != []
  {
    var tag := mem[0];
    if tag == NIL then Ok(Nil, 1)
    else if tag == FALSE || tag == TRUE then Ok(Bool(tag == TRUE), 1)
    else if tag == FLOAT32 then (if |mem| < 5 then Fail else Ok(Float32(mem[1..5]), 5))
    else if tag == FLOAT64 then (if |mem| < 9 then Fail else Ok(Float64(mem[1..9]), 9))
    else if UINT8 <= tag < UINT8 + 4 then
      var w := Width(tag - UINT8);
      if |mem| < 1 + w then Fail else Ok(MakeUInt(tag - UINT8, Number(mem, w)), 1 + w)
    else if INT8 <= tag < INT8 + 4 then
      var w := Width(tag - INT8);
      if |mem| < 1 + w then Fail else Ok(MakeInt(tag - INT8, Signed(Number(mem, w), w)), 1 + w)
    else if STR8 <= tag < STR8 + 3 then Counted(mem, tag - STR8, MakeStr)
    else if BIN8 <= tag < BIN8 + 3 then Counted(mem, tag - BIN8, MakeBin)
    else Fail
  }

  // ---------------------------------------------------------------- lists and trees

  predicate IsListTag(tag: byte) {
    tag == LIST16 || tag == LIST32
  }

  predicate IsTreeTag(tag: byte) {
    tag == TREE16 || tag == TREE32
  }

  /** co_obj_import */
  function DecodeObj(mem: seq<byte>, ilen: nat): Decoded<Value>
    decreases |mem|, 2
  {
    if ilen == 0 || mem == [] then Fail
    else if IsListTag(mem[0]) then DecodeList(mem, ilen)
    else if IsTreeTag(mem[0]) then DecodeTree(mem, ilen)
    else DecodeSimple(mem)
  }

  /** How the list and tree decoders choose a decoder for an element. */
  function DecodeItem(mem: seq<byte>, ilen: nat): Decoded<Value>
    decreases |mem|, 3
  {
    if mem == [] then Fail
    else if IsListTag(mem[0]) then DecodeList(mem, ilen)
    else if IsTreeTag(mem[0]) then DecodeTree(mem, ilen)
    else DecodeObj(mem, ilen)
  }

  /** co_list_import */
  function DecodeList(mem: seq<byte>, ilen: nat): Decoded<Value>
    decreases |mem|, 1
  {
    if mem == [] || !IsListTag(mem[0]) then Fail
    else
      var w := if mem[0] == LIST32 then 4 else 2;
      if |mem| < 1 + w then Fail
      else match DecodeElems(mem[1 + w..], ilen - (1 + w), Number(mem, w), [], 1 + w)
        case Ok(vs, size) => Ok(List(mem[0] == LIST32, vs), size)
        case Fail => Fail
  }

  /**
    The loop of co_list_import, with `used` bytes behind it and `acc` decoded from them: `left` is
    what the caller's length still allows for.
   */
  function DecodeElems(mem: seq<byte>, left: int, n: nat, acc: seq<Value>, used: nat): Decoded<seq<Value>>
    decreases |mem|, 4
  {
    if n == 0 then Ok(acc, used)
    else if left < 0 then Fail
    else match DecodeItem(mem, left)
      case Fail => Fail
      case Ok(v, size) =>
        if size == 0 || size > |mem| then Fail
        else DecodeElems(mem[size..], left - size, n - 1, acc + [v], used + size)
  }

  /** co_tree_import */
  function DecodeTree(mem: seq<byte>, ilen: nat): Decoded<Value>
    decreases |mem|, 1
  {
    if mem == [] || !IsTreeTag(mem[0]) then Fail
    else
      var w := if mem[0] == TREE32 then 4 else 2;
      if |mem| < 1 + w then Fail
      else match DecodePairs(mem[1 + w..], ilen - (1 + w), Number(mem, w), Empty, 1 + w)
        case Ok(t, size) => Ok(Dict(mem[0] == TREE32, Number(mem, w), t), size)
        case Fail => Fail
  }

  const SIZE_MAX: nat := 0x1_0000_0000_0000_0000

  /** A subtraction of size_t values. */
  function SizeT(n: int): nat {
    n % SIZE_MAX
  }

  /** A difference that fits is kept, and a negative one becomes a huge number. */
  lemma SizeTWraps(n: int)
    ensures 0 <= n < 18446744073709551616 ==> SizeT(n) == n
    ensures -18446744073709551616 <= n < 0 ==> SizeT(n) == n + 18446744073709551616
  {
  }

  /** One round of the loop of co_tree_import: a str8 key, then a value. */
  function DecodePair(mem: seq<byte>, left: int): Decoded<(Key, Value)>
    decreases |mem|, 4
  {
    if |mem| < 2 || mem[0] != STR8 || |mem| - 2 < mem[1] then Fail
    else
      var klen: nat := mem[1];
      match DecodeItem(mem[2 + klen..], SizeT(left - (2 + klen)))
      case Fail => Fail
      case Ok(v, size) =>
        if size == 0 || 2 + klen + size > |mem| then Fail
        else Ok((mem[2..2 + klen], v), 2 + klen + size)
  }

  /** The loop of co_tree_import: each pair is inserted into the tree built so far, unless refused. */
  function DecodePairs(mem: seq<byte>, left: int, n: nat, acc: Tree<Value>, used: nat): Decoded<Tree<Value>>
    decreases |mem|, 5
  {
    if n == 0 then Ok(acc, used)
    else if left < 0 then Fail
    else match DecodePair(mem, left)
      case Fail => Fail
      case Ok((key, v), size) =>
        if !(1 <= |key| < 255) || HasPath(acc, key) || size == 0 || size > |mem| then Fail
        else DecodePairs(mem[size..], left - size, n - 1, Insert(acc, key, key, v), used + size)
  }

  /** The object at the input pointer, and the pair. These names keep the recursive definitions folded. */
  function ItemEnd(mem: seq<byte>, left: nat): Decoded<Value> {
    DecodeItem(mem, left)
  }

  function PairEnd(mem: seq<byte>, left: int): Decoded<(Key, Value)> {
    DecodePair(mem, left)
  }

  /** Where the loop of co_tree_import stands, and how it ends from there; again the definition stays folded. */
  datatype Loop = Loop(mem: seq<byte>, left: int, n: nat, acc: Tree<Value>, used: nat)

  function End(s: Loop): Decoded<Tree<Value>> {
    DecodePairs(s.mem, s.left, s.n, s.acc, s.used)
  }

  /** The same for the loop of co_list_import. */
  datatype ListLoop = ListLoop(mem: seq<byte>, left: int, n: nat, acc: seq<Value>, used: nat)

  function ListEnd(s: ListLoop): Decoded<seq<Value>> {
    DecodeElems(s.mem, s.left, s.n, s.acc, s.used)
  }
}
