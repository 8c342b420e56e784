/**
  What the encoders count as written when the room they are told of may not suffice:
  co_list_raw gives up, co_tree_raw leaves out a value, the rest of its subtree, and says nothing.
 */
module Emission {
  import opened Options
  import opened Sequences
  import opened Bytes
  import opened TernaryTree
  import opened Values
  import opened Decoder

  // ---------------------------------------------------------------- the bytes

  /** co_list_raw, co_tree_raw, or a simple object checked against the room of a list; None is -1. */
  function Emitted(v: Value, room: nat): Option<seq<byte>>
    decreases v, 2
  {
    match v
    case List(wide, elems) => EmittedElems(ListHead(wide, |elems|), elems, room)
    case Dict(wide, count, root) => Some(EmittedNodes(TreeHead(wide, count), root, room))
    case _ => if |Encode(v)| < room then Some(Encode(v)) else None
  }

  function EmittedElems(out: seq<byte>, vs: seq<Value>, room: nat): Option<seq<byte>>
    decreases vs, 3
  {
    if vs == [] || |out| > room then Some(out)
    else
      match Emitted(vs[0], room - |out|)
      case None => None
      case Some(s) => if |s| + |out| < room then EmittedElems(out + s, vs[1..], room) else None
  }

  function EmittedNodes(out: seq<byte>, t: Tree<Value>, room: nat): seq<byte>
    decreases t, 4
  {
    if t.Empty? then out
    else if t.value.None? || t.key.None? then EmittedBelow(out, t, room)
    else
      var k := EncodeKey(t.key.value);
      match EmittedValue(t.value.value, |k|, room - |out + k|)
      case None => out + k
      case Some(s) => EmittedBelow(out + k + s, t, room)
  }

  function EmittedBelow(out: seq<byte>, t: Tree<Value>, room: nat): seq<byte>
    requires t.Node?
    decreases t, 3
  {
    EmittedNodes(EmittedNodes(EmittedNodes(out, t.low, room), t.equal, room), t.high, room)
  }

  /**
    The key, already written, is counted again when the room for a simple value is checked. A key that
    went over the room makes the size_t difference a huge number.
   */
  function EmittedValue(v: Value, klen: nat, left: int): Option<seq<byte>>
    decreases v, 3
  {
    if v.List? || v.Dict? then Emitted(v, SizeT(left))
    else if klen + |Encode(v)| < SizeT(left) then Some(Encode(v))
    else None
  }

  // ---------------------------------------------------------------- when it is everything

  /** The lengths of encodings. */
  function Length(v: Value): nat
    decreases v
  {
    match v
    case List(wide, elems) => HeadLength(wide) + LengthAll(elems)
    case Dict(wide, count, root) => HeadLength(wide) + LengthNodes(root)
    case _ => |Encode(v)|
  }

  function HeadLength(wide: bool): nat {
    if wide then 5 else 3
  }

  function LengthAll(vs: seq<Value>): nat
    decreases vs
  {
    if vs == [] then 0 else Length(vs[0]) + LengthAll(vs[1..])
  }

  function LengthNodes(t: Tree<Value>): nat
    decreases t, 0
  {
    if t.Empty? then 0 else OwnLength(t) + LengthNodes(t.low) + LengthNodes(t.equal) + LengthNodes(t.high)
  }

  function OwnLength(t: Tree<Value>): nat
    requires t.Node?
    decreases t, -1
  {
    if t.value.Some? && t.key.Some? then KeyLength(t.key.value) + Length(t.value.value) else 0
  }

  function KeyLength(k: Key): nat {
    2 + |k|
  }

  lemma {:induction false} LengthIs(v: Value)
    ensures Length(v) == |Encode(v)|
    decreases v
  {
    match v
    case List(_, elems) => LengthAllIs(elems);
    case Dict(_, _, root) => LengthNodesIs(root);
    case _ =>
  }

  lemma {:induction false} LengthAllIs(vs: seq<Value>)
    ensures LengthAll(vs) == |EncodeAll(vs)|
    decreases vs
  {
    if vs != [] {
      LengthIs(vs[0]);
      LengthAllIs(vs[1..]);
    }
  }

  lemma {:induction false} LengthNodesIs(t: Tree<Value>)
    ensures LengthNodes(t) == |EncodeNodes(t)|
    ensures t.Node? ==> OwnLength(t) == |OwnEncoding(t)|
    decreases t
  {
    if t.Node? {
      if t.value.Some? { LengthIs(t.value.value); }
      LengthNodesIs(t.low);
      LengthNodesIs(t.equal);
      LengthNodesIs(t.high);
    }
  }

  /** The exact room condition. */
  predicate Fits(v: Value, room: nat)
    decreases v, 2
  {
    match v
    case List(wide, elems) => FitElems(elems, HeadLength(wide), room)
    case Dict(wide, count, root) => FitNodes(root, HeadLength(wide), room)
    case _ => Length(v) < room
  }

  predicate FitElems(vs: seq<Value>, at: nat, room: nat)
    decreases vs, 3
  {
    vs == [] ||
    (at <= room && Fits(vs[0], room - at) && at + Length(vs[0]) < room && FitElems(vs[1..], at + Length(vs[0]), room))
  }

  predicate FitNodes(t: Tree<Value>, at: nat, room: nat)
    decreases t, 4
  {
    t.Node? ==>
      && (t.value.Some? && t.key.Some? ==>
            var k := KeyLength(t.key.value);
            FitValue(t.value.value, k, room - (at + k)))
      && FitBelow(t, at + OwnLength(t), room)
  }

  predicate FitBelow(t: Tree<Value>, at: nat, room: nat)
    requires t.Node?
    decreases t, 3
  {
    var equal := at + LengthNodes(t.low);
    FitNodes(t.low, at, room) && FitNodes(t.equal, equal, room) && FitNodes(t.high, equal + LengthNodes(t.equal), room)
  }

  predicate FitValue(v: Value, klen: nat, left: int)
    decreases v, 3
  {
    if v.List? || v.Dict? then Fits(v, SizeT(left)) else klen + Length(v) < SizeT(left)
  }

  function OwnEncoding(t: Tree<Value>): seq<byte>
    requires t.Node?
  {
    if t.value.Some? && t.key.Some? then EncodeKey(t.key.value) + Encode(t.value.value) else []
  }

  /** `r` is all of `full` exactly when `fit` holds, and otherwise less of it. */
  ghost predicate AllIff(r: Option<seq<byte>>, full: seq<byte>, fit: bool) {
    (fit ==> r == Some(full)) && (!fit ==> r.None? || |r.value| < |full|)
  }

  lemma {:induction false} EmittedExactly(v: Value, room: nat)
    ensures AllIff(Emitted(v, room), Encode(v), Fits(v, room))
    decreases v, 2
  {
    match v
    case List(wide, elems) => ElemsExactly(ListHead(wide, |elems|), elems, room);
    case Dict(wide, count, root) => NodesExactly(TreeHead(wide, count), root, room);
    case _ =>
  }

  lemma {:induction false} ElemsExactly(out: seq<byte>, vs: seq<Value>, room: nat)
    ensures AllIff(EmittedElems(out, vs, room), out + EncodeAll(vs), FitElems(vs, |out|, room))
    ensures EmittedElems(out, vs, room).Some? ==> |EmittedElems(out, vs, room).value| <= |out| + |EncodeAll(vs)|
    decreases vs, 3
  {
    if vs == [] {
      assert out + [] == out;
    } else if |out| <= room {
      var next, full := FirstExactly(out, vs[0], EncodeAll(vs[1..]), room);
      if next.Some? { ElemsExactly(next.value, vs[1..], room); }
    }
  }

  /** The first of some elements, with `tail` the encoding of the others. */
  lemma FirstExactly(out: seq<byte>, v: Value, tail: seq<byte>, room: nat)
      returns (next: Option<seq<byte>>, full: seq<byte>)
    requires |out| <= room
    ensures var r := Emitted(v, room - |out|);
            next == if r.Some? && |r.value| + |out| < room then Some(out + r.value) else None
    ensures |full| == |out| + Length(v) && full + tail == out + (Encode(v) + tail)
    ensures AllIff(next, full, Fits(v, room - |out|) && |out| + Length(v) < room)
    ensures next.Some? ==> |next.value| <= |full|
    decreases v, 3
  {
    LengthIs(v);
    EmittedExactly(v, room - |out|);
    Reassociate(out, Encode(v), tail);
    var r := Emitted(v, room - |out|);
    next := if r.Some? && |r.value| + |out| < room then Some(out + r.value) else None;
    full := out + Encode(v);
  }

  lemma {:induction false} NodesExactly(out: seq<byte>, t: Tree<Value>, room: nat)
    ensures AllIff(Some(EmittedNodes(out, t, room)), out + EncodeNodes(t), FitNodes(t, |out|, room))
    decreases t, 4, 0
  {
    if t.Empty? {
      assert out + [] == out;
    } else if t.value.Some? && t.key.Some? {
      EntryExactly(out, t, room);
    } else {
      NoEntryExactly(out, t, room);
    }
  }

  lemma NoEntryExactly(out: seq<byte>, t: Tree<Value>, room: nat)
    requires t.Node? && (t.value.None? || t.key.None?)
    ensures AllIff(Some(EmittedNodes(out, t, room)), out + EncodeNodes(t), FitNodes(t, |out|, room))
    decreases t, 3, 2
  {
    assert out + OwnEncoding(t) == out;
    BelowExactly(out, out + OwnEncoding(t), true, t, room);
    Joined(out, t);
    assert |OwnEncoding(t)| == 0;
  }

  lemma EntryExactly(out: seq<byte>, t: Tree<Value>, room: nat)
    requires t.Node? && t.value.Some? && t.key.Some?
    ensures AllIff(Some(EmittedNodes(out, t, room)), out + EncodeNodes(t), FitNodes(t, |out|, room))
    decreases t, 3, 2
  {
    var k, v := EncodeKey(t.key.value), t.value.value;
    var left := room - |out + k|;
    var r := EmittedValue(v, |k|, left);
    ValueExactly(v, |k|, left);
    LengthNodesIs(t);
    Reassociate(out, k, Encode(v));
    Joined(out, t);
    if r.Some? {
      BelowExactly(out + k + r.value, out + OwnEncoding(t), FitValue(v, |k|, left), t, room);
    }
  }

  lemma ValueExactly(v: Value, klen: nat, left: int)
    ensures AllIff(EmittedValue(v, klen, left), Encode(v), FitValue(v, klen, left))
    decreases v, 3
  {
    if v.List? || v.Dict? { EmittedExactly(v, SizeT(left)); }
  }

  lemma Joined(out: seq<byte>, t: Tree<Value>)
    requires t.Node?
    ensures out + OwnEncoding(t) + EncodeNodes(t.low) + EncodeNodes(t.equal) + EncodeNodes(t.high)
         == out + EncodeNodes(t)
  {
    FiveParts(out, OwnEncoding(t), EncodeNodes(t.low), EncodeNodes(t.equal), EncodeNodes(t.high));
  }

  /** The three subtrees, when `out` is `full` exactly if `all` holds. */
  lemma BelowExactly(out: seq<byte>, full: seq<byte>, all: bool, t: Tree<Value>, room: nat)
    requires t.Node? && AllIff(Some(out), full, all)
    ensures AllIff(Some(EmittedBelow(out, t, room)),
                   full + EncodeNodes(t.low) + EncodeNodes(t.equal) + EncodeNodes(t.high),
                   all && FitBelow(t, |full|, room))
    decreases t, 3, 1
  {
    LowAndEqual(out, full, all, t, room);
    LengthNodesIs(t.low);
    LengthNodesIs(t.equal);
    var fit := all && FitNodes(t.low, |full|, room) && FitNodes(t.equal, |full + EncodeNodes(t.low)|, room);
    GoesOn(EmittedNodes(EmittedNodes(out, t.low, room), t.equal, room),
           full + EncodeNodes(t.low) + EncodeNodes(t.equal), fit, t.high, room);
  }

  lemma LowAndEqual(out: seq<byte>, full: seq<byte>, all: bool, t: Tree<Value>, room: nat)
    requires t.Node? && AllIff(Some(out), full, all)
    ensures AllIff(Some(EmittedNodes(EmittedNodes(out, t.low, room), t.equal, room)),
                   full + EncodeNodes(t.low) + EncodeNodes(t.equal),
                   all && FitNodes(t.low, |full|, room) && FitNodes(t.equal, |full + EncodeNodes(t.low)|, room))
    decreases t, 3, 0
  {
    GoesOn(out, full, all, t.low, room);
    GoesOn(EmittedNodes(out, t.low, room), full + EncodeNodes(t.low), all && FitNodes(t.low, |full|, room),
           t.equal, room);
  }

  lemma GoesOn(out: seq<byte>, full: seq<byte>, all: bool, t: Tree<Value>, room: nat)
    requires AllIff(Some(out), full, all)
    ensures AllIff(Some(EmittedNodes(out, t, room)), full + EncodeNodes(t), all && FitNodes(t, |full|, room))
    decreases t, 5
  {
    NodesExactly(out, t, room);
  }

  lemma NeverMore(v: Value, room: nat)
    ensures Emitted(v, room).Some? ==> |Emitted(v, room).value| <= Length(v)
  {
    EmittedExactly(v, room);
    LengthIs(v);
  }

  /** A result of no bytes, which the callers take for an error, does not occur. */
  lemma NeverEmpty(v: Value, room: nat)
    ensures Emitted(v, room).Some? ==> |Emitted(v, room).value| > 0
  {
    match v
    case List(wide, elems) => ElemsOnlyGrow(ListHead(wide, |elems|), elems, room);
    case Dict(wide, count, root) => NodesOnlyGrow(TreeHead(wide, count), root, room);
    case _ =>
  }

  lemma {:induction false} ElemsOnlyGrow(out: seq<byte>, vs: seq<Value>, room: nat)
    ensures EmittedElems(out, vs, room).Some? ==> |EmittedElems(out, vs, room).value| >= |out|
    decreases vs
  {
    if vs != [] && |out| <= room && Emitted(vs[0], room - |out|).Some? {
      ElemsOnlyGrow(out + Emitted(vs[0], room - |out|).value, vs[1..], room);
    }
  }

  lemma {:induction false} NodesOnlyGrow(out: seq<byte>, t: Tree<Value>, room: nat)
    ensures |EmittedNodes(out, t, room)| >= |out|
    decreases t
  {
    if t.Node? {
      var own := OwnEmitted(out, t, room);
      NodesOnlyGrow(own, t.low, room);
      NodesOnlyGrow(EmittedNodes(own, t.low, room), t.equal, room);
      NodesOnlyGrow(EmittedNodes(EmittedNodes(own, t.low, room), t.equal, room), t.high, room);
    }
  }

  function OwnEmitted(out: seq<byte>, t: Tree<Value>, room: nat): seq<byte>
    requires t.Node?
  {
    if t.value.None? || t.key.None? then out
    else
      var k := EncodeKey(t.key.value);
      match EmittedValue(t.value.value, |k|, room - |out + k|)
      case None => out + k
      case Some(s) => out + k + s
  }

  // ---------------------------------------------------------------- what the condition comes to

  predicate TreeFree(v: Value)
    decreases v
  {
    match v
    case List(_, elems) => forall e :: e in elems ==> TreeFree(e)
    case Dict(_, _, _) => false
    case _ => true
  }

  /** Without trees the plain length decides; an empty list is never checked. */
  lemma {:induction false} TreeFreeFits(v: Value, room: nat)
    requires TreeFree(v)
    ensures Fits(v, room) <==> Length(v) < room || (v.List? && v.elems == [])
    decreases v, 1
  {
    if v.List? { TreeFreeElemsFit(v.elems, HeadLength(v.wide), room); }
  }

  lemma {:induction false} TreeFreeElemsFit(vs: seq<Value>, at: nat, room: nat)
    requires forall e :: e in vs ==> TreeFree(e)
    ensures FitElems(vs, at, room) <==> vs == [] || at + LengthAll(vs) < room
    decreases vs, 2
  {
    if vs != [] && at <= room {
      TreeFreeFits(vs[0], room - at);
      TreeFreeElemsFit(vs[1..], at + Length(vs[0]), room);
    }
  }

  /**
    For a message shorter than its buffer, what is left of the condition: every simple value in a
    tree ends, at its offset in the message, at least a key's length before the end of the buffer.
   */
  predicate Clear(v: Value, at: nat, room: nat)
    decreases v, 2
  {
    match v
    case List(wide, elems) => ClearElems(elems, at + HeadLength(wide), room)
    case Dict(wide, count, root) => ClearNodes(root, at + HeadLength(wide), room)
    case _ => true
  }

  predicate ClearElems(vs: seq<Value>, at: nat, room: nat)
    decreases vs, 3
  {
    vs == [] || (Clear(vs[0], at, room) && ClearElems(vs[1..], at + Length(vs[0]), room))
  }

  predicate ClearNodes(t: Tree<Value>, at: nat, room: nat)
    decreases t, 4
  {
    t.Node? ==>
      && (t.value.Some? && t.key.Some? ==> ClearValue(t.value.value, KeyLength(t.key.value), at, room))
      && ClearBelow(t, at + OwnLength(t), room)
  }

  predicate ClearValue(v: Value, klen: nat, at: nat, room: nat)
    decreases v, 3
  {
    if v.List? || v.Dict? then Clear(v, at + klen, room) else at + klen + Length(v) + klen < room
  }

  predicate ClearBelow(t: Tree<Value>, at: nat, room: nat)
    requires t.Node?
    decreases t, 3
  {
    var equal := at + LengthNodes(t.low);
    ClearNodes(t.low, at, room) && ClearNodes(t.equal, equal, room)
    && ClearNodes(t.high, equal + LengthNodes(t.equal), room)
  }

  lemma {:induction false} ClearIsFit(v: Value, at: nat, room: nat)
    requires at + Length(v) < room < SIZE_MAX
    ensures Fits(v, room - at) <==> Clear(v, at, room)
    decreases v, 2
  {
    match v
    case List(wide, elems) =>
      var head := HeadLength(wide);
      ClearElemsFit(elems, head, at + head, at, room);
    case Dict(wide, count, root) =>
      var head := HeadLength(wide);
      ClearNodesFit(root, head, at + head, at, room);
    case _ =>
  }

  lemma {:induction false} ClearElemsFit(vs: seq<Value>, w: nat, p: nat, at: nat, room: nat)
    requires p == at + w && p + LengthAll(vs) < room < SIZE_MAX
    ensures FitElems(vs, w, room - at) <==> ClearElems(vs, p, room)
    decreases vs, 3
  {
    if vs != [] {
      ClearIsFit(vs[0], p, room);
      ClearElemsFit(vs[1..], w + Length(vs[0]), p + Length(vs[0]), at, room);
    }
  }

  lemma {:induction false} ClearNodesFit(t: Tree<Value>, w: nat, p: nat, at: nat, room: nat)
    requires p == at + w && p + LengthNodes(t) < room < SIZE_MAX
    ensures FitNodes(t, w, room - at) <==> ClearNodes(t, p, room)
    decreases t, 4
  {
    if t.Node? {
      if t.value.Some? && t.key.Some? {
        ClearValueFit(t.value.value, KeyLength(t.key.value), w, p, at, room);
      }
      ClearBelowFit(t, w + OwnLength(t), p + OwnLength(t), at, room);
    }
  }

  lemma ClearValueFit(v: Value, klen: nat, w: nat, p: nat, at: nat, room: nat)
    requires p == at + w && p + klen + Length(v) < room < SIZE_MAX
    ensures FitValue(v, klen, room - at - (w + klen)) <==> ClearValue(v, klen, p, room)
    decreases v, 3
  {
    var left := room - (p + klen);
    assert SizeT(left) == left;
    if v.List? || v.Dict? { ClearIsFit(v, p + klen, room); }
  }

  lemma ClearBelowFit(t: Tree<Value>, w: nat, p: nat, at: nat, room: nat)
    requires t.Node? && p == at + w
    requires p + LengthNodes(t.low) + LengthNodes(t.equal) + LengthNodes(t.high) < room < SIZE_MAX
    ensures FitBelow(t, w, room - at) <==> ClearBelow(t, p, room)
    decreases t, 3
  {
    var l, e := LengthNodes(t.low), LengthNodes(t.equal);
    ClearNodesFit(t.low, w, p, at, room);
    ClearNodesFit(t.equal, w + l, p + l, at, room);
    ClearNodesFit(t.high, w + l + e, p + l + e, at, room);
  }

  lemma {:induction false} TreeFreeIsClear(v: Value, at: nat, room: nat)
    requires TreeFree(v)
    ensures Clear(v, at, room)
    decreases v, 1
  {
    if v.List? { TreeFreeElemsAreClear(v.elems, at + HeadLength(v.wide), room); }
  }

  lemma {:induction false} TreeFreeElemsAreClear(vs: seq<Value>, at: nat, room: nat)
    requires forall e :: e in vs ==> TreeFree(e)
    ensures ClearElems(vs, at, room)
    decreases vs, 2
  {
    if vs != [] {
      TreeFreeIsClear(vs[0], at, room);
      TreeFreeElemsAreClear(vs[1..], at + Length(vs[0]), room);
    }
  }

  /** What every tree node of the C code has: a key object whose length one byte holds. */
  predicate Writable(v: Value)
    decreases v
  {
    match v
    case List(_, elems) => forall e :: e in elems ==> Writable(e)
    case Dict(_, _, root) => NodesWritable(root)
    case _ => true
  }

  predicate NodesWritable(t: Tree<Value>)
    decreases t
  {
    t.Node? ==>
      && NodesWritable(t.low) && NodesWritable(t.equal) && NodesWritable(t.high)
      && (t.value.Some? ==> t.key.Some? && |t.key.value| < 255 && Writable(t.value.value))
  }

  /** With room for one more key of the longest kind nothing is lost. */
  lemma {:induction false} AmpleRoom(v: Value, at: nat, room: nat)
    requires Writable(v) && at + Length(v) + 257 <= room
    ensures Clear(v, at, room)
    decreases v, 2
  {
    match v
    case List(wide, elems) => AmpleElems(elems, at + HeadLength(wide), room);
    case Dict(wide, count, root) => AmpleNodes(root, at + HeadLength(wide), room);
    case _ =>
  }

  lemma {:induction false} AmpleElems(vs: seq<Value>, at: nat, room: nat)
    requires (forall e :: e in vs ==> Writable(e)) && at + LengthAll(vs) + 257 <= room
    ensures ClearElems(vs, at, room)
    decreases vs, 3
  {
    if vs != [] {
      AmpleRoom(vs[0], at, room);
      AmpleElems(vs[1..], at + Length(vs[0]), room);
    }
  }

  lemma {:induction false} AmpleNodes(t: Tree<Value>, at: nat, room: nat)
    requires NodesWritable(t) && at + LengthNodes(t) + 257 <= room
    ensures ClearNodes(t, at, room)
    decreases t, 4
  {
    if t.Node? {
      if t.value.Some? && (t.value.value.List? || t.value.value.Dict?) {
        AmpleRoom(t.value.value, at + KeyLength(t.key.value), room);
      }
      AmpleBelow(t, at + OwnLength(t), room);
    }
  }

  lemma AmpleBelow(t: Tree<Value>, at: nat, room: nat)
    requires t.Node? && NodesWritable(t)
    requires at + LengthNodes(t.low) + LengthNodes(t.equal) + LengthNodes(t.high) + 257 <= room
    ensures ClearBelow(t, at, room)
    decreases t, 3
  {
    var l := LengthNodes(t.low);
    AmpleNodes(t.low, at, room);
    AmpleNodes(t.equal, at + l, room);
    AmpleNodes(t.high, at + l + LengthNodes(t.equal), room);
  }

  /** What is written of a tree with a single key. */
  lemma {:induction false} OneEntryEmitted(out: seq<byte>, orig: Key, key: Key, v: Value, room: nat)
    requires orig != [] && key != []
    ensures var k := EncodeKey(StoredKey(orig));
            EmittedNodes(out, Insert(Empty, orig, key, v), room) ==
            match EmittedValue(v, |k|, room - |out + k|) case None => out + k case Some(s) => out + k + s
    decreases |key|
  {
    var t := Insert(Empty, orig, key, v);
    assert forall o :: EmittedNodes(o, t.low, room) == o && EmittedNodes(o, t.high, room) == o;
    if |key| > 1 {
      OneEntryEmitted(out, orig, key[1..], v, room);
      var r := EmittedNodes(out, t.equal, room);
      assert t == Node(key[0], Empty, Insert(Empty, orig, key[1..], v), Empty, None, None);
      assert EmittedNodes(r, t.high, room) == r && EmittedNodes(out, t.low, room) == out;
      assert EmittedBelow(out, t, room) == r;
    } else {
      var k := EncodeKey(StoredKey(orig));
      var r := EmittedValue(v, |k|, room - |out + k|);
      if r.Some? { assert EmittedBelow(out + k + r.value, t, room) == out + k + r.value; }
    }
  }
}
