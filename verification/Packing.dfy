/** The messages of src/msg.c, and what is packed of one in a buffer of a given length. */
module Packing {
  import opened Options
  import opened Bytes
  import opened TernaryTree
  import opened Values
  import opened Decoder
  import opened Emission

  // ---------------------------------------------------------------- messages

  function Request(id: nat, command: Value, params: Value): Value {
    List(false, [UInt(0, 0), UInt(2, id), command, params])
  }

  function Response(id: nat, error: Value, result: Value): Value {
    List(false, [UInt(0, 1), UInt(2, id), error, result])
  }

  /** The ten bytes both kinds of message start with. */
  function Header(kind: byte, id: nat): seq<byte> {
    [LIST16] + ToBytes(4, 2) + [UINT8] + [kind] + [UINT8 + 2] + ToBytes(id, 4)
  }

  lemma MessageLayout(kind: byte, id: nat, a: Value, b: Value)
    requires kind < 2
    ensures Encode(List(false, [UInt(0, kind), UInt(2, id), a, b])) == Header(kind, id) + Encode(a) + Encode(b)
  {
    var k, i := UInt(0, kind), UInt(2, id);
    var vs := [k, i, a, b];
    EncodeAllCons(b, []);
    EncodeAllCons(a, [b]);
    EncodeAllCons(i, [a, b]);
    EncodeAllCons(k, [i, a, b]);
    assert [a] + [b] == [a, b] && [i] + [a, b] == [i, a, b] && [k] + [i, a, b] == vs;
    assert ToBytes(kind, 1) == [kind % 256] + ToBytes(kind / 256, 0);
    assert Encode(k) == [UINT8] + [kind] && Encode(i) == [UINT8 + 2] + ToBytes(id, 4);
    assert ListHead(false, 4) == [LIST16] + ToBytes(4, 2);
    SixParts([LIST16] + ToBytes(4, 2), [UINT8], [kind], Encode(i), Encode(a), Encode(b));
    SixParts([LIST16] + ToBytes(4, 2), [UINT8], [kind], [UINT8 + 2], ToBytes(id, 4), []);
  }

  lemma EncodeAllCons(v: Value, vs: seq<Value>)
    ensures EncodeAll([v] + vs) == Encode(v) + EncodeAll(vs)
    ensures EncodeAll([]) == [] && [v] + [] == [v]
  {
    assert ([v] + vs)[1..] == vs;
  }

  lemma SixParts(h: seq<byte>, t: seq<byte>, k: seq<byte>, i: seq<byte>, a: seq<byte>, b: seq<byte>)
    ensures h + ((t + k) + (i + (a + (b + [])))) == h + t + k + i + a + b
    ensures h + t + k + (i + a) == h + t + k + i + a
  {
  }

  // ---------------------------------------------------------------- packing

  /** sizeof(header) + sizeof(uint32_t) + sizeof(co_str16_t) + sizeof(co_list16_t), which a buffer must exceed. */
  const LEAST: nat := 73

  /** One more object: lists and trees are told of the room, simple objects are not checked. */
  function PackedPart(out: seq<byte>, v: Value, olen: nat): Option<seq<byte>>
    requires |out| < olen
  {
    if v.List? || v.Dict? then
      match Emitted(v, olen - |out|)
      case None => None
      case Some(s) => Some(out + s)
    else Some(out + Encode(v))
  }

  /** What was packed, if it is shorter than the buffer. */
  function Checked(r: Option<seq<byte>>, olen: nat): Option<seq<byte>> {
    if r.Some? && |r.value| < olen then r else None
  }

  function PackedParts(head: seq<byte>, a: Value, b: Value, olen: nat): Option<seq<byte>>
    requires |head| < olen
  {
    match Checked(PackedPart(head, a, olen), olen)
    case None => None
    case Some(out) => Checked(PackedPart(out, b, olen), olen)
  }

  /** co_request_alloc and co_response_alloc; None is -1. */
  function Packed(kind: byte, id: nat, a: Value, b: Value, olen: nat): Option<seq<byte>> {
    if olen <= LEAST then None else PackedParts(Header(kind, id), a, b, olen)
  }

  function Message(kind: byte, id: nat, a: Value, b: Value): Value {
    List(false, [UInt(0, kind), UInt(2, id), a, b])
  }

  /** The whole message is packed: it is shorter than the buffer, and no tree loses a value. */
  predicate MessageFits(a: Value, b: Value, olen: nat) {
    var n := 10 + Length(a);
    LEAST < olen && n + Length(b) < olen && Clear(a, 10, olen) && Clear(b, n, olen)
  }

  lemma PartExactly(out: seq<byte>, v: Value, olen: nat)
    requires |out| < olen < SIZE_MAX
    ensures AllIff(Checked(PackedPart(out, v, olen), olen), out + Encode(v),
                   |out| + Length(v) < olen && Clear(v, |out|, olen))
    ensures PackedPart(out, v, olen).Some? ==> |PackedPart(out, v, olen).value| <= |out| + Length(v)
  {
    LengthIs(v);
    if v.List? || v.Dict? {
      EmittedExactly(v, olen - |out|);
      if |out| + Length(v) < olen { ClearIsFit(v, |out|, olen); }
    }
  }

  lemma PackedExactly(kind: byte, id: nat, a: Value, b: Value, olen: nat)
    requires kind < 2 && olen < SIZE_MAX
    ensures AllIff(Packed(kind, id, a, b, olen), Encode(Message(kind, id, a, b)), MessageFits(a, b, olen))
    ensures |Encode(Message(kind, id, a, b))| == 10 + Length(a) + Length(b)
  {
    MessageLayout(kind, id, a, b);
    LengthIs(a);
    LengthIs(b);
    if olen > LEAST {
      var head := Header(kind, id);
      PartExactly(head, a, olen);
      var r := Checked(PackedPart(head, a, olen), olen);
      if r.Some? { PartExactly(r.value, b, olen); }
    }
  }

  /** Without trees the length decides. */
  lemma TreeFreeMessageFits(a: Value, b: Value, olen: nat)
    requires TreeFree(a) && TreeFree(b)
    ensures MessageFits(a, b, olen) <==> 73 < olen && 10 + Length(a) + Length(b) < olen
  {
    TreeFreeIsClear(a, 10, olen);
    TreeFreeIsClear(b, 10 + Length(a), olen);
  }

  /** A tree of one simple value. */
  function OneEntry(key: Key, v: Value): Value
    requires key != []
  {
    Dict(false, 1, Insert(Empty, key, key, v))
  }

  /**
    A response shorter than the buffer by no more than the length of its only key is sent as a header, a
    count of 1 and the bare key.
   */
  lemma ReplyLosesItsValue(id: nat, key: Key, v: Value, olen: nat)
    requires 1 <= |key| < 255 && key[|key| - 1] == 0 && !v.List? && !v.Dict?
    requires LEAST < olen < SIZE_MAX && |Encode(Message(1, id, OneEntry(key, v), Nil))| < olen
    ensures MessageFits(OneEntry(key, v), Nil, olen)
       <==> |Encode(Message(1, id, OneEntry(key, v), Nil))| + KeyLength(key) <= olen
    ensures !MessageFits(OneEntry(key, v), Nil, olen) ==>
      Packed(1, id, OneEntry(key, v), Nil, olen) == Some(Header(1, id) + (TreeHead(false, 1) + EncodeKey(key)) + [NIL])
  {
    PackedExactly(1, id, OneEntry(key, v), Nil, olen);
    OneEntryLength(key, key, v);
    OneEntryClear(key, key, v, 13, olen);
    if !MessageFits(OneEntry(key, v), Nil, olen) {
      LostEntry(key, v, olen - 10);
      BareKeyPacked(id, OneEntry(key, v), key, olen);
    }
  }

  /** The encoder drops the value and reports success. */
  lemma LostEntry(key: Key, v: Value, room: nat)
    requires 1 <= |key| < 255 && key[|key| - 1] == 0 && !v.List? && !v.Dict?
    requires 3 + KeyLength(key) + Length(v) < room <= 3 + 2 * KeyLength(key) + Length(v) && room < SIZE_MAX
    ensures Emitted(OneEntry(key, v), room) == Some(TreeHead(false, 1) + EncodeKey(key))
  {
    assert StoredKey(key) == key;
    OneEntryEmitted(TreeHead(false, 1), key, key, v, room);
    NoRoomForValue(v, KeyLength(key), room - (3 + KeyLength(key)));
  }

  lemma NoRoomForValue(v: Value, klen: nat, left: nat)
    requires !v.List? && !v.Dict? && left <= klen + Length(v) && left < SIZE_MAX
    ensures EmittedValue(v, klen, left) == None
  {
  }

  lemma BareKeyPacked(id: nat, tree: Value, key: Key, olen: nat)
    requires tree.Dict? && LEAST < olen && 14 + KeyLength(key) < olen
    requires Emitted(tree, olen - 10) == Some(TreeHead(false, 1) + EncodeKey(key))
    ensures Packed(1, id, tree, Nil, olen) == Some(Header(1, id) + (TreeHead(false, 1) + EncodeKey(key)) + [NIL])
  {
    var out := Header(1, id) + (TreeHead(false, 1) + EncodeKey(key));
    assert PackedPart(Header(1, id), tree, olen) == Some(out);
    assert PackedPart(out, Nil, olen) == Some(out + [NIL]);
  }

  lemma {:induction false} OneEntryEncoded(orig: Key, key: Key, v: Value)
    requires orig != [] && key != []
    ensures EncodeNodes(Insert(Empty, orig, key, v)) == EncodeKey(StoredKey(orig)) + Encode(v)
    decreases |key|
  {
    var t := Insert(Empty, orig, key, v);
    assert EncodeNodes(t.low) == [] && EncodeNodes(t.high) == [];
    if |key| > 1 {
      OneEntryEncoded(orig, key[1..], v);
      assert EncodeNodes(t) == [] + ([] + EncodeNodes(t.equal) + []);
    } else {
      assert EncodeNodes(t.equal) == [];
    }
  }

  lemma {:induction false} OneEntryLength(orig: Key, key: Key, v: Value)
    requires orig != [] && key != []
    ensures LengthNodes(Insert(Empty, orig, key, v)) == KeyLength(orig) + Length(v)
    decreases |key|
  {
    if |key| > 1 { OneEntryLength(orig, key[1..], v); }
  }

  lemma {:induction false} OneEntryClear(orig: Key, key: Key, v: Value, at: nat, room: nat)
    requires orig != [] && key != [] && !v.List? && !v.Dict?
    ensures ClearNodes(Insert(Empty, orig, key, v), at, room) <==> at + 2 * KeyLength(orig) + Length(v) < room
    decreases |key|
  {
    var t := Insert(Empty, orig, key, v);
    assert ClearNodes(t.low, at, room) && forall n: nat :: ClearNodes(t.high, n, room);
    if |key| > 1 {
      OneEntryClear(orig, key[1..], v, at, room);
      assert ClearNodes(t, at, room) == ClearBelow(t, at, room);
    } else {
      assert ClearBelow(t, at + OwnLength(t), room);
    }
  }
}
