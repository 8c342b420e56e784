/**
  The objects of src/obj.c that have a byte form, as values, and the byte form itself:
  co_obj_raw, co_list_raw and co_tree_raw. A floating-point number is kept as its bytes.
 */
module Values {
  import opened Bytes
  import opened TernaryTree

  /** log2 of the number of bytes of an integer or of a length field. */
  type Log = n: nat | n <= 3

  datatype Value =
    | Nil
    | Bool(b: bool)
    | Float32(bits32: seq<byte>)
    | Float64(bits64: seq<byte>)
    | UInt(log: Log, u: nat)
    | Int(log: Log, i: int)
    | Str(len: Log, text: seq<byte>)
    | Bin(len: Log, data: seq<byte>)
    | List(wide: bool, elems: seq<Value>)
    | Dict(wide: bool, count: nat, root: Tree<Value>)

  function Width(log: Log): (w: nat)
    ensures w == 1 || w == 2 || w == 4 || w == 8
  {
    if log == 0 then 1 else if log == 1 then 2 else if log == 2 then 4 else 8
  }

  /** The type bytes. */
  const NIL: byte := 0xc0
  const FALSE: byte := 0xc2
  const TRUE: byte := 0xc3
  const BIN8: byte := 0xc4
  const FLOAT32: byte := 0xca
  const FLOAT64: byte := 0xcb
  const UINT8: byte := 0xcc
  const INT8: byte := 0xd0
  const STR8: byte := 0xd9
  const LIST16: byte := 0xdc
  const LIST32: byte := 0xdd
  const TREE16: byte := 0xde
  const TREE32: byte := 0xdf

  /** Two's complement, as the bytes of a signed field show it. */
  function Unsigned(i: int, width: nat): nat {
    if !SignedFits(i, width) then i % Pow256(width) else if i < 0 then i + Pow256(width) else i
  }

  function Signed(n: nat, width: nat): int {
    if 2 * n < Pow256(width) then n else n - Pow256(width)
  }

  predicate SignedFits(i: int, width: nat) {
    0 - Pow256(width) <= 2 * i < Pow256(width)
  }

  lemma SignedRoundTrip(i: int, width: nat)
    requires SignedFits(i, width)
    ensures Unsigned(i, width) < Pow256(width) && Signed(Unsigned(i, width), width) == i
  {
  }

  /** A key on the wire is a str8; `char` counts as unsigned here. */
  predicate ByteKey(k: Key) {
    forall i :: 0 <= i < |k| ==> 0 <= k[i] < 256
  }

  function KeyBytes(k: Key): (s: seq<byte>)
    ensures |s| == |k| && (ByteKey(k) ==> s == k)
  {
    if k == [] then [] else
      assert k == [k[0]] + k[1..];
      [k[0] % 256] + KeyBytes(k[1..])
  }

  function EncodeKey(k: Key): seq<byte> {
    [STR8] + ToBytes(|k|, 1) + KeyBytes(k)
  }

  /** co_obj_raw for the simple types, co_list_raw and co_tree_raw for the others. */
  function Encode(v: Value): (s: seq<byte>)
    ensures |s| >= 1
    decreases v
  {
    match v
    case Nil => [NIL]
    case Bool(b) => [if b then TRUE else FALSE]
    case Float32(bits) => [FLOAT32] + bits
    case Float64(bits) => [FLOAT64] + bits
    case UInt(log, u) => [UINT8 + log] + ToBytes(u, Width(log))
    case Int(log, i) => [INT8 + log] + ToBytes(Unsigned(i, Width(log)), Width(log))
    case Str(len, text) => [STR8 + len] + ToBytes(|text|, Width(len)) + text
    case Bin(len, data) => [BIN8 + len] + ToBytes(|data|, Width(len)) + data
    case List(wide, elems) => ListHead(wide, |elems|) + EncodeAll(elems)
    case Dict(wide, count, root) => TreeHead(wide, count) + EncodeNodes(root)
  }

  function ListHead(wide: bool, n: nat): seq<byte> {
    if wide then [LIST32] + ToBytes(n, 4) else [LIST16] + ToBytes(n, 2)
  }

  function TreeHead(wide: bool, n: nat): seq<byte> {
    if wide then [TREE32] + ToBytes(n, 4) else [TREE16] + ToBytes(n, 2)
  }

  function EncodeAll(vs: seq<Value>): seq<byte>
    decreases vs
  {
    if vs == [] then [] else Encode(vs[0]) + EncodeAll(vs[1..])
  }

  /** _co_tree_raw_r: the key and value of a bound node, then its low, equal and high subtrees. */
  function EncodeNodes(t: Tree<Value>): seq<byte>
    decreases t
  {
    if t.Empty? then [] else
      (if t.value.Some? && t.key.Some? then EncodeKey(t.key.value) + Encode(t.value.value) else [])
      + (EncodeNodes(t.low) + EncodeNodes(t.equal) + EncodeNodes(t.high))
  }

  /** The byte that tells the kinds of objects apart. */
  lemma FirstByte(v: Value)
    ensures Encode(v)[0] ==
      match v
      case Nil => 0xc0
      case Bool(b) => if b then 0xc3 else 0xc2
      case Float32(_) => 0xca
      case Float64(_) => 0xcb
      case UInt(log, _) => if log == 0 then 0xcc else if log == 1 then 0xcd else if log == 2 then 0xce else 0xcf
      case Int(log, _) => if log == 0 then 0xd0 else if log == 1 then 0xd1 else if log == 2 then 0xd2 else 0xd3
      case Str(len, _) => if len == 0 then 0xd9 else if len == 1 then 0xda else if len == 2 then 0xdb else 0xdc
      case Bin(len, _) => if len == 0 then 0xc4 else if len == 1 then 0xc5 else if len == 2 then 0xc6 else 0xc7
      case List(wide, _) => if wide then 0xdd else 0xdc
      case Dict(wide, _, _) => if wide then 0xdf else 0xde
  {
  }

  lemma KeyFirstByte(k: Key)
    ensures EncodeKey(k)[0] == 0xd9
  {
  }
}
