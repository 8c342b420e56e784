/**
  How many objects a reader of the byte form still needs. A list asks for as many as it announces, a tree for
  two a pair; every other object asks for none. Bytes that lost a value leave the reader wanting.
 */
module Demand {
  import opened Options
  import opened Sequences
  import opened Bytes
  import opened TernaryTree
  import opened Values
  import opened Decoder
  import opened RoundTrip
  import opened Emission
  import opened Packing

  // ---------------------------------------------------------------- the pieces of the byte form

  /** The bytes of the key, the simple object, or the head of a list or tree that comes first; 0 for none. */
  function FirstSize(a: seq<byte>): nat
    requires a != []
  {
    var tag := a[0];
    if tag == NIL || tag == FALSE || tag == TRUE then 1
    else if tag == FLOAT32 then 5
    else if tag == FLOAT64 then 9
    else if UINT8 <= tag < UINT8 + 4 then 1 + Width(tag - UINT8)
    else if INT8 <= tag < INT8 + 4 then 1 + Width(tag - INT8)
    else if STR8 <= tag < STR8 + 3 then CountedSize(a, Width(tag - STR8))
    else if BIN8 <= tag < BIN8 + 3 then CountedSize(a, Width(tag - BIN8))
    else if IsListTag(tag) || IsTreeTag(tag) then 1 + HeadWidth(tag)
    else 0
  }

  function CountedSize(a: seq<byte>, w: nat): nat {
    if |a| < 1 + w then 0 else 1 + w + FromBytes(a[1..1 + w])
  }

  function HeadWidth(tag: byte): nat {
    if tag == LIST32 || tag == TREE32 then 4 else 2
  }

  /** How many objects it asks for. */
  function Asks(a: seq<byte>): nat
    requires a != []
  {
    if |a| < 1 + HeadWidth(a[0]) then 0
    else if IsListTag(a[0]) then Number(a, HeadWidth(a[0]))
    else if IsTreeTag(a[0]) then 2 * Number(a, HeadWidth(a[0]))
    else 0
  }

  predicate Starts(a: seq<byte>) {
    a != [] && 0 < FirstSize(a) <= |a|
  }

  /**
    Whole pieces: `n` objects are needed before them, some before each of them, and `m` after them. There are
    two names for it so that proofs which only pass the fact on do not unfold it.
   */
  ghost predicate Needs(a: seq<byte>, n: nat, m: nat)
    decreases |a|, 1
  {
    Tally(a, n, m)
  }

  ghost predicate Tally(a: seq<byte>, n: nat, m: nat)
    decreases |a|, 0
  {
    if a == [] then n == m
    else n > 0 && Starts(a) && Needs(a[FirstSize(a)..], n - 1 + Asks(a), m)
  }

  lemma SliceStays(x: seq<byte>, y: seq<byte>, w: nat)
    requires w < |x|
    ensures (x + y)[1..1 + w] == x[1..1 + w]
  {
  }

  lemma FirstStays(x: seq<byte>, y: seq<byte>)
    requires Starts(x)
    ensures Starts(x + y) && FirstSize(x + y) == FirstSize(x) && Asks(x + y) == Asks(x)
    ensures (x + y)[0] == x[0] && (x + y)[FirstSize(x)..] == x[FirstSize(x)..] + y
  {
    var tag := x[0];
    if IsListTag(tag) || IsTreeTag(tag) { SliceStays(x, y, HeadWidth(tag)); }
    if STR8 <= tag < STR8 + 3 { SliceStays(x, y, Width(tag - STR8)); }
    if BIN8 <= tag < BIN8 + 3 { SliceStays(x, y, Width(tag - BIN8)); }
    assert (x + y)[FirstSize(x)..] == x[FirstSize(x)..] + y;
  }

  lemma {:induction false} NeedsOn(x: seq<byte>, y: seq<byte>, n: nat, m: nat, k: nat)
    requires Needs(x, n, m) && Needs(y, m, k)
    ensures Needs(x + y, n, k)
    decreases |x|
  {
    if x == [] {
      assert x + y == y;
    } else {
      FirstStays(x, y);
      NeedsOn(x[FirstSize(x)..], y, n - 1 + Asks(x), m, k);
    }
  }

  lemma {:induction false} NeedsMore(a: seq<byte>, n: nat, m: nat, d: nat)
    requires Needs(a, n, m)
    ensures Needs(a, n + d, m + d)
    decreases |a|
  {
    if a != [] { NeedsMore(a[FirstSize(a)..], n - 1 + Asks(a), m, d); }
  }

  // ---------------------------------------------------------------- the decoders stay within

  /**
    What may lie behind the bytes. A key or the head of a list or tree there would be read although the
    length the caller gave is used up; at any other byte the decoders stop.
   */
  predicate Inert(rest: seq<byte>) {
    rest == [] || (rest[0] != STR8 && !IsListTag(rest[0]) && !IsTreeTag(rest[0]))
  }

  /** The reader stopped within `a`, with `used` bytes before it, and the rest still needs what follows. */
  ghost predicate Kept<T>(d: Decoded<T>, used: nat, a: seq<byte>, n: nat, m: nat) {
    d.Ok? ==> used <= d.size <= used + |a| && Needs(a[d.size - used..], n, m)
  }

  lemma KeptFurther<T>(d: Decoded<T>, used: nat, i: nat, a: seq<byte>, n: nat, m: nat)
    requires i <= |a| && Kept(d, used + i, a[i..], n, m)
    ensures Kept(d, used, a, n, m)
  {
    if d.Ok? { assert a[i..][d.size - (used + i)..] == a[d.size - used..]; }
  }

  /** What is left behind an object that was read. */
  lemma KeptBehind<T>(d: Decoded<T>, a: seq<byte>, rest: seq<byte>, n: nat, m: nat)
    requires d.Ok? && Kept(d, 0, a, n, m)
    ensures d.size <= |a| && Needs(a[d.size..], n, m) && (a + rest)[d.size..] == a[d.size..] + rest
  {
  }

  lemma FirstNeeded(a: seq<byte>, n: nat, m: nat)
    requires a != [] && Needs(a, n + 1, m)
    ensures Starts(a) && Needs(a[FirstSize(a)..], n + Asks(a), m)
  {
  }

  lemma SimpleFirst(mem: seq<byte>)
    requires mem != [] && DecodeSimple(mem).Ok?
    ensures Starts(mem) && DecodeSimple(mem).size == FirstSize(mem) && Asks(mem) == 0
  {
  }

  lemma SimpleItem(mem: seq<byte>, left: nat)
    requires mem != [] && !IsListTag(mem[0]) && !IsTreeTag(mem[0])
    ensures ItemEnd(mem, left) == if left == 0 then Fail else DecodeSimple(mem)
  {
    assert DecodeItem(mem, left) == DecodeObj(mem, left);
  }

  lemma NothingThere(rest: seq<byte>)
    requires Inert(rest)
    ensures ItemEnd(rest, 0) == Fail && PairEnd(rest, 0) == Fail
  {
    if rest != [] { SimpleItem(rest, 0); }
  }

  /** An object that is decoded was one of those needed. */
  lemma {:induction false} ItemStays(a: seq<byte>, rest: seq<byte>, n: nat, m: nat)
    requires Needs(a, n + 1, m) && m > 0 && Inert(rest) && |a| < SIZE_MAX
    ensures Kept(ItemEnd(a + rest, |a|), 0, a, n, m)
    decreases |a|, 3
  {
    if a == [] {
      assert a + rest == rest;
      NothingThere(rest);
    } else {
      FirstNeeded(a, n, m);
      FirstStays(a, rest);
      if IsListTag(a[0]) {
        ListStays(a, rest, n, m);
      } else if IsTreeTag(a[0]) {
        TreeStays(a, rest, n, m);
      } else {
        SimpleItem(a + rest, |a|);
        if DecodeSimple(a + rest).Ok? { SimpleFirst(a + rest); }
      }
    }
  }

  /** The head of a list or tree, and what the loop behind it works on. */
  lemma HeadStays(a: seq<byte>, rest: seq<byte>, n: nat, m: nat)
    requires a != [] && (IsListTag(a[0]) || IsTreeTag(a[0])) && Needs(a, n + 1, m)
    ensures var w := HeadWidth(a[0]);
            && 1 + w <= |a| && (a + rest)[0] == a[0] && (a + rest)[1 + w..] == a[1 + w..] + rest
            && Number(a + rest, w) == Number(a, w) && Needs(a[1 + w..], n + Asks(a), m)
  {
    FirstNeeded(a, n, m);
    FirstStays(a, rest);
    SliceStays(a, rest, HeadWidth(a[0]));
  }

  lemma ListHeadRead(mem: seq<byte>, ilen: nat)
    requires mem != [] && IsListTag(mem[0]) && 1 + HeadWidth(mem[0]) <= |mem|
    ensures var w := HeadWidth(mem[0]);
            ItemEnd(mem, ilen) ==
            AsList(mem[0] == LIST32, ListEnd(ListLoop(mem[1 + w..], ilen - (1 + w), Number(mem, w), [], 1 + w)))
  {
    assert DecodeItem(mem, ilen) == DecodeList(mem, ilen);
  }

  lemma {:induction false} ListStays(a: seq<byte>, rest: seq<byte>, n: nat, m: nat)
    requires a != [] && IsListTag(a[0]) && Needs(a, n + 1, m) && m > 0 && Inert(rest) && |a| < SIZE_MAX
    ensures Kept(ItemEnd(a + rest, |a|), 0, a, n, m)
    decreases |a|, 1
  {
    var w := HeadWidth(a[0]);
    HeadStays(a, rest, n, m);
    ListHeadRead(a + rest, |a|);
    var s := ListLoop(a[1 + w..] + rest, |a| - (1 + w), Number(a, w), [], 1 + w);
    ElemsStay(a[1 + w..], rest, s.n, [], 1 + w, n, m);
    KeptFurther(ListEnd(s), 0, 1 + w, a, n, m);
  }

  lemma ElemsStep(mem: seq<byte>, left: nat, k: nat, acc: seq<Value>, used: nat) returns (acc': seq<Value>)
    requires k > 0
    ensures var item := ItemEnd(mem, left);
            ListEnd(ListLoop(mem, left, k, acc, used)) == Fail
            || (item.Ok? && 0 < item.size <= |mem|
                && ListEnd(ListLoop(mem, left, k, acc, used)) ==
                   ListEnd(ListLoop(mem[item.size..], left - item.size, k - 1, acc', used + item.size)))
  {
    var item := ItemEnd(mem, left);
    acc' := if item.Ok? then acc + [item.value] else acc;
  }

  lemma {:induction false} ElemsStay(a: seq<byte>, rest: seq<byte>, k: nat, acc: seq<Value>, used: nat, n: nat, m: nat)
    requires Needs(a, n + k, m) && m > 0 && Inert(rest) && |a| < SIZE_MAX
    ensures Kept(ListEnd(ListLoop(a + rest, |a|, k, acc, used)), used, a, n, m)
    decreases |a|, 4
  {
    if k > 0 {
      var item := ItemEnd(a + rest, |a|);
      ItemStays(a, rest, n + (k - 1), m);
      var acc' := ElemsStep(a + rest, |a|, k, acc, used);
      if item.Ok? && item.size > 0 {
        KeptBehind(item, a, rest, n + (k - 1), m);
        var b := a[item.size..];
        var s := ListLoop(b + rest, |b|, k - 1, acc', used + item.size);
        ElemsStay(b, rest, k - 1, acc', s.used, n, m);
        KeptFurther(ListEnd(s), used, item.size, a, n, m);
      }
    }
  }

  lemma TreeHeadRead(mem: seq<byte>, ilen: nat)
    requires mem != [] && IsTreeTag(mem[0]) && 1 + HeadWidth(mem[0]) <= |mem|
    ensures var w := HeadWidth(mem[0]);
            var count := Number(mem, w);
            ItemEnd(mem, ilen) ==
            AsTree(mem[0] == TREE32, count, End(Loop(mem[1 + w..], ilen - (1 + w), count, Empty, 1 + w)))
  {
    assert DecodeItem(mem, ilen) == DecodeTree(mem, ilen);
  }

  lemma {:induction false} TreeStays(a: seq<byte>, rest: seq<byte>, n: nat, m: nat)
    requires a != [] && IsTreeTag(a[0]) && Needs(a, n + 1, m) && m > 0 && Inert(rest) && |a| < SIZE_MAX
    ensures Kept(ItemEnd(a + rest, |a|), 0, a, n, m)
    decreases |a|, 1
  {
    var w := HeadWidth(a[0]);
    HeadStays(a, rest, n, m);
    TreeHeadRead(a + rest, |a|);
    var s := Loop(a[1 + w..] + rest, |a| - (1 + w), Number(a, w), Empty, 1 + w);
    PairsStay(a[1 + w..], rest, s.n, Empty, 1 + w, n, m);
    KeptFurther(End(s), 0, 1 + w, a, n, m);
  }

  /** A key of a pair, and the value behind it. */
  lemma PairStep(mem: seq<byte>, left: nat, klen: nat)
    requires |mem| >= 2 && mem[0] == STR8 && mem[1] == klen && 2 + klen <= |mem| && 2 + klen <= left < SIZE_MAX
    ensures var item := ItemEnd(mem[2 + klen..], left - (2 + klen));
            PairEnd(mem, left).Ok? ==> item.Ok? && PairEnd(mem, left).size == 2 + klen + item.size
  {
    assert SizeT(left - (2 + klen)) == left - (2 + klen);
  }

  lemma KeyFirst(a: seq<byte>) returns (klen: nat)
    requires Starts(a) && a[0] == STR8
    ensures |a| >= 2 && klen == a[1] && FirstSize(a) == 2 + klen && Asks(a) == 0
  {
    klen := a[1];
    assert a[1..2] == [a[1]] && [a[1]][1..] == [];
  }

  lemma PairKept(pair: Decoded<(Key, Value)>, item: Decoded<Value>, i: nat, a: seq<byte>, n: nat, m: nat)
    requires i <= |a| && Kept(item, 0, a[i..], n, m)
    requires pair.Ok? ==> item.Ok? && pair.size == i + item.size
    ensures Kept(pair, 0, a, n, m)
  {
    if pair.Ok? { assert a[i..][item.size..] == a[pair.size..]; }
  }

  lemma {:induction false} PairStays(a: seq<byte>, rest: seq<byte>, n: nat, m: nat)
    requires Needs(a, n + 2, m) && m > 0 && Inert(rest) && |a| < SIZE_MAX
    ensures Kept(PairEnd(a + rest, |a|), 0, a, n, m)
    decreases |a|, 4
  {
    if a == [] {
      assert a + rest == rest;
      NothingThere(rest);
    } else {
      FirstNeeded(a, n + 1, m);
      FirstStays(a, rest);
      if a[0] == STR8 {
        var klen := KeyFirst(a);
        PairStep(a + rest, |a|, klen);
        ItemStays(a[2 + klen..], rest, n, m);
        PairKept(PairEnd(a + rest, |a|), ItemEnd(a[2 + klen..] + rest, |a| - (2 + klen)), 2 + klen, a, n, m);
      }
    }
  }

  lemma PairsStep(mem: seq<byte>, left: nat, k: nat, acc: Tree<Value>, used: nat) returns (acc': Tree<Value>)
    requires k > 0
    ensures var pair := PairEnd(mem, left);
            End(Loop(mem, left, k, acc, used)) == Fail
            || (pair.Ok? && 0 < pair.size <= |mem|
                && End(Loop(mem, left, k, acc, used)) ==
                   End(Loop(mem[pair.size..], left - pair.size, k - 1, acc', used + pair.size)))
  {
    var pair := PairEnd(mem, left);
    acc' := if pair.Ok? && pair.value.0 != [] then Insert(acc, pair.value.0, pair.value.0, pair.value.1) else acc;
  }

  lemma {:induction false} PairsStay(a: seq<byte>, rest: seq<byte>, k: nat, acc: Tree<Value>, used: nat, n: nat, m: nat)
    requires Needs(a, n + 2 * k, m) && m > 0 && Inert(rest) && |a| < SIZE_MAX
    ensures Kept(End(Loop(a + rest, |a|, k, acc, used)), used, a, n, m)
    decreases |a|, 5
  {
    if k > 0 {
      var pair := PairEnd(a + rest, |a|);
      PairStays(a, rest, n + 2 * (k - 1), m);
      var acc' := PairsStep(a + rest, |a|, k, acc, used);
      if pair.Ok? && pair.size > 0 {
        KeptBehind(pair, a, rest, n + 2 * (k - 1), m);
        var b := a[pair.size..];
        var s := Loop(b + rest, |b|, k - 1, acc', used + pair.size);
        PairsStay(b, rest, k - 1, acc', s.used, n, m);
        KeptFurther(End(s), used, pair.size, a, n, m);
      }
    }
  }

  // ---------------------------------------------------------------- what the encoders write

  /** One piece. */
  lemma OneNeeded(a: seq<byte>, n: nat)
    requires Starts(a) && FirstSize(a) == |a|
    ensures Needs(a, n + 1, n + Asks(a))
  {
    assert a[|a|..] == [];
    assert Tally([], n + Asks(a), n + Asks(a));
    assert Tally(a, n + 1, n + Asks(a));
  }

  lemma SimpleNeeded(v: Value, n: nat)
    requires SimpleEncodable(v)
    ensures Needs(Encode(v), n + 1, n)
  {
    SimpleRoundTrip(v, []);
    assert Encode(v) + [] == Encode(v);
    SimpleFirst(Encode(v));
    OneNeeded(Encode(v), n);
  }

  lemma KeyNeeded(k: Key, n: nat)
    requires |k| < 256
    ensures Needs(EncodeKey(k), n + 1, n)
  {
    var a := EncodeKey(k);
    Powers();
    BytesRoundTrip(|k|, 1);
    HeadAndTail(STR8, ToBytes(|k|, 1), KeyBytes(k), []);
    assert a + [] == a;
    OneNeeded(a, n);
  }

  lemma HeadNeeded(wide: bool, count: nat, n: nat)
    requires count < Capacity(wide)
    ensures Needs(ListHead(wide, count), n + 1, n + count)
    ensures Needs(TreeHead(wide, count), n + 1, n + 2 * count)
  {
    var w := if wide then 4 else 2;
    Powers();
    BytesRoundTrip(count, w);
    HeadOnly(LIST16, ToBytes(count, w), []);
    assert ListHead(wide, count)[1..1 + w] == ToBytes(count, w);
    assert TreeHead(wide, count)[1..1 + w] == ToBytes(count, w);
    OneNeeded(ListHead(wide, count), n);
    OneNeeded(TreeHead(wide, count), n);
  }

  /** The bytes ask for `m` more objects, and for none only when they are all there. */
  ghost predicate Short(r: seq<byte>, full: seq<byte>, n: nat, p: nat, m: nat) {
    Needs(r, n, p + m) && (m == 0 ==> r == full)
  }

  lemma {:induction false} EmittedNeeds(v: Value, room: nat) returns (m: nat)
    requires Encodable(v)
    ensures Emitted(v, room).Some? ==> Short(Emitted(v, room).value, Encode(v), 1, 0, m)
    decreases v, 2
  {
    match v
    case List(wide, elems) =>
      HeadNeeded(wide, |elems|, 0);
      m := ElemsNeed(ListHead(wide, |elems|), ListHead(wide, |elems|), elems, room, 1, 0, 0);
    case Dict(wide, count, root) =>
      HeadNeeded(wide, count, 0);
      m := NodesNeed(TreeHead(wide, count), root, room, [], 1, 0);
    case _ =>
      SimpleNeeded(v, 0);
      m := 0;
  }

  lemma {:induction false} ElemsNeed(out: seq<byte>, full: seq<byte>, vs: seq<Value>, room: nat,
                                    n: nat, p: nat, m0: nat)
      returns (m: nat)
    requires (forall e :: e in vs ==> Encodable(e)) && Short(out, full, n, p + |vs|, m0)
    ensures EmittedElems(out, vs, room).Some? ==>
      Short(EmittedElems(out, vs, room).value, full + EncodeAll(vs), n, p, m)
    decreases vs, 3
  {
    m := m0 + |vs|;
    if vs == [] {
      assert full + [] == full;
    } else if |out| <= room {
      var r := Emitted(vs[0], room - |out|);
      if r.Some? && |r.value| + |out| < room {
        var full', m1 := ElemNeeds(out, full, vs[0], EncodeAll(vs[1..]), room - |out|, n, p + (|vs| - 1), m0);
        m := ElemsNeed(out + r.value, full', vs[1..], room, n, p, m1);
      }
    }
  }

  /** The first of some elements, with `tail` the others. */
  lemma ElemNeeds(out: seq<byte>, full: seq<byte>, v: Value, tail: seq<byte>, room: nat, n: nat, q: nat, m0: nat)
      returns (full': seq<byte>, m: nat)
    requires Encodable(v) && Emitted(v, room).Some? && Short(out, full, n, q + 1, m0)
    ensures Short(out + Emitted(v, room).value, full', n, q, m) && full' + tail == full + (Encode(v) + tail)
    decreases v, 3
  {
    var m1 := EmittedNeeds(v, room);
    full', m := ElemJoins(out, full, Emitted(v, room).value, Encode(v), tail, n, q, m0, m1);
  }

  lemma ElemJoins(out: seq<byte>, full: seq<byte>, s: seq<byte>, e: seq<byte>, tail: seq<byte>,
                  n: nat, q: nat, m0: nat, m1: nat)
      returns (full': seq<byte>, m: nat)
    requires Short(out, full, n, q + 1, m0) && Short(s, e, 1, 0, m1)
    ensures Short(out + s, full', n, q, m) && full' + tail == full + (e + tail)
  {
    Joins(out, s, n, q + m0, m1);
    full', m := full + e, m0 + m1;
    Reassociate(full, e, tail);
  }

  /** An object behind what is there. */
  lemma Joins(out: seq<byte>, s: seq<byte>, n: nat, q: nat, m: nat)
    requires Needs(out, n, q + 1) && Needs(s, 1, m)
    ensures Needs(out + s, n, q + m)
  {
    NeedsMore(s, 1, m, q);
    NeedsOn(out, s, n, q + 1, q + m);
  }

  lemma {:induction false} NodesNeed(out: seq<byte>, t: Tree<Value>, room: nat, prefix: Key, n: nat, p: nat)
      returns (m: nat)
    requires KeysSpelled(t, prefix) && ValuesEncodable(t) && Needs(out, n, p + 2 * Bound(t))
    ensures Short(EmittedNodes(out, t, room), out + EncodeNodes(t), n, p, m)
    decreases t, 4
  {
    if t.Empty? {
      assert out + [] == out;
      m := 0;
    } else if t.value.Some? {
      m := EntryNeeds(out, t, room, prefix, n, p);
    } else {
      assert out + OwnEncoding(t) == out;
      m := BelowNeeds(out, out, t, room, prefix, n, p, 0);
      Joined(out, t);
    }
  }

  lemma EntryNeeds(out: seq<byte>, t: Tree<Value>, room: nat, prefix: Key, n: nat, p: nat) returns (m: nat)
    requires t.Node? && t.value.Some? && KeysSpelled(t, prefix) && ValuesEncodable(t)
    requires Needs(out, n, p + 2 * Bound(t))
    ensures Short(EmittedNodes(out, t, room), out + EncodeNodes(t), n, p, m)
    decreases t, 3, 2
  {
    var below := 2 * (Bound(t.low) + Bound(t.equal) + Bound(t.high));
    var m1 := OwnNeeds(out, t, room, n, p + below);
    if OwnValue(out, t, room).Some? {
      m := BelowNeeds(OwnEmitted(out, t, room), out + OwnEncoding(t), t, room, prefix, n, p, m1);
      Joined(out, t);
    } else {
      m := below + 1;
    }
  }

  function OwnValue(out: seq<byte>, t: Tree<Value>, room: nat): Option<seq<byte>>
    requires t.Node? && t.value.Some? && t.key.Some?
  {
    var k := EncodeKey(t.key.value);
    EmittedValue(t.value.value, |k|, room - |out + k|)
  }

  /** The entry of a node: a value left out is needed still. */
  lemma OwnNeeds(out: seq<byte>, t: Tree<Value>, room: nat, n: nat, q: nat) returns (m: nat)
    requires t.Node? && t.value.Some? && t.key.Some? && |t.key.value| < 256 && Encodable(t.value.value)
    requires Needs(out, n, q + 2)
    ensures if OwnValue(out, t, room).Some? then Short(OwnEmitted(out, t, room), out + OwnEncoding(t), n, q, m)
            else Needs(OwnEmitted(out, t, room), n, q + 1)
    decreases t, 3, 1
  {
    var k, v := EncodeKey(t.key.value), t.value.value;
    KeyNeeded(t.key.value, 0);
    Joins(out, k, n, q + 1, 0);
    m := ValueNeeds(v, |k|, room - |out + k|);
    var r := OwnValue(out, t, room);
    if r.Some? { EntryJoins(out, t, r.value, n, q, m); }
  }

  lemma EntryJoins(out: seq<byte>, t: Tree<Value>, s: seq<byte>, n: nat, q: nat, m: nat)
    requires t.Node? && t.value.Some? && t.key.Some? && Short(s, Encode(t.value.value), 1, 0, m)
    requires Needs(out + EncodeKey(t.key.value), n, q + 1)
    ensures Short(out + EncodeKey(t.key.value) + s, out + OwnEncoding(t), n, q, m)
  {
    Joins(out + EncodeKey(t.key.value), s, n, q, m);
    Reassociate(out, EncodeKey(t.key.value), Encode(t.value.value));
  }

  lemma ValueNeeds(v: Value, klen: nat, left: int) returns (m: nat)
    requires Encodable(v)
    ensures var r := EmittedValue(v, klen, left); r.Some? ==> Short(r.value, Encode(v), 1, 0, m)
    decreases v, 3
  {
    if v.List? || v.Dict? {
      m := EmittedNeeds(v, SizeT(left));
    } else {
      SimpleNeeded(v, 0);
      m := 0;
    }
  }

  /** The three subtrees, behind bytes that ask for `m0` objects more than `full`. */
  lemma BelowNeeds(out: seq<byte>, full: seq<byte>, t: Tree<Value>, room: nat, prefix: Key, n: nat, p: nat, m0: nat)
      returns (m: nat)
    requires t.Node? && KeysSpelled(t, prefix) && ValuesEncodable(t)
    requires Short(out, full, n, p + 2 * (Bound(t.low) + Bound(t.equal) + Bound(t.high)), m0)
    ensures Short(EmittedBelow(out, t, room),
                  full + EncodeNodes(t.low) + EncodeNodes(t.equal) + EncodeNodes(t.high), n, p, m)
    decreases t, 3, 1
  {
    var e, h := 2 * Bound(t.equal), 2 * Bound(t.high);
    var m1 := SubtreeNeeds(out, full, t.low, room, prefix, n, p + e + h, m0);
    var out1, full1 := EmittedNodes(out, t.low, room), full + EncodeNodes(t.low);
    var m2 := SubtreeNeeds(out1, full1, t.equal, room, prefix + [t.split], n, p + h, m1);
    var out2, full2 := EmittedNodes(out1, t.equal, room), full1 + EncodeNodes(t.equal);
    m := SubtreeNeeds(out2, full2, t.high, room, prefix, n, p, m2);
  }

  lemma SubtreeNeeds(out: seq<byte>, full: seq<byte>, t: Tree<Value>, room: nat, prefix: Key, n: nat, p: nat, m0: nat)
      returns (m: nat)
    requires KeysSpelled(t, prefix) && ValuesEncodable(t) && Short(out, full, n, p + 2 * Bound(t), m0)
    ensures Short(EmittedNodes(out, t, room), full + EncodeNodes(t), n, p, m)
    decreases t, 5
  {
    var m1 := NodesNeed(out, t, room, prefix, n, p + m0);
    m := m0 + m1;
  }

  // ---------------------------------------------------------------- messages

  lemma HeaderParts(kind: byte, id: nat)
    ensures Header(kind, id) == ListHead(false, 4) + Encode(UInt(0, kind)) + Encode(UInt(2, id))
  {
    assert ToBytes(kind, 1) == [kind % 256] + ToBytes(kind / 256, 0);
    assert Encode(UInt(0, kind)) == [UINT8] + [kind] && Encode(UInt(2, id)) == [UINT8 + 2] + ToBytes(id, 4);
  }

  lemma HeaderNeeds(kind: byte, id: nat)
    requires id < 0x1_0000_0000
    ensures Needs(Header(kind, id), 1, 2)
  {
    Powers();
    HeaderParts(kind, id);
    HeadNeeded(false, 4, 0);
    SimpleNeeded(UInt(0, kind), 3);
    SimpleNeeded(UInt(2, id), 2);
    ThreeNeeded(ListHead(false, 4), Encode(UInt(0, kind)), Encode(UInt(2, id)));
  }

  lemma ThreeNeeded(h: seq<byte>, k: seq<byte>, i: seq<byte>)
    requires Needs(h, 1, 4) && Needs(k, 4, 3) && Needs(i, 3, 2)
    ensures Needs(h + k + i, 1, 2)
  {
    NeedsOn(h, k, 1, 4, 3);
    NeedsOn(h + k, i, 1, 3, 2);
  }

  lemma PartNeeds(out: seq<byte>, full: seq<byte>, v: Value, olen: nat, p: nat, m0: nat) returns (m: nat)
    requires |out| < olen && Encodable(v) && Short(out, full, 1, p + 1, m0)
    ensures var r := PackedPart(out, v, olen); r.Some? ==> Short(r.value, full + Encode(v), 1, p, m)
  {
    var m1 := 0;
    if v.List? || v.Dict? {
      m1 := EmittedNeeds(v, olen - |out|);
      var r := Emitted(v, olen - |out|);
      if r.Some? { Joins(out, r.value, 1, p + m0, m1); }
    } else {
      SimpleNeeded(v, 0);
      Joins(out, Encode(v), 1, p + m0, 0);
    }
    m := m0 + m1;
  }

  /** A message that was not packed whole leaves its reader wanting. */
  lemma MessageNeeds(kind: byte, id: nat, a: Value, b: Value, olen: nat) returns (m: nat)
    requires kind < 2 && id < 0x1_0000_0000 && Encodable(a) && Encodable(b) && olen < SIZE_MAX
    ensures var r := Packed(kind, id, a, b, olen);
            r.Some? ==> |r.value| < olen && Needs(r.value, 1, m) && (m == 0 ==> MessageFits(a, b, olen))
  {
    m := 0;
    PackedExactly(kind, id, a, b, olen);
    if olen > LEAST {
      HeaderNeeds(kind, id);
      m := PartsNeed(Header(kind, id), a, b, olen);
      MessageLayout(kind, id, a, b);
    }
  }

  lemma PartsNeed(head: seq<byte>, a: Value, b: Value, olen: nat) returns (m: nat)
    requires |head| < olen && Encodable(a) && Encodable(b) && Needs(head, 1, 2)
    ensures var r := PackedParts(head, a, b, olen); r.Some? ==> Short(r.value, head + Encode(a) + Encode(b), 1, 0, m)
  {
    m := 0;
    var m1 := PartNeeds(head, head, a, olen, 1, 0);
    var r := Checked(PackedPart(head, a, olen), olen);
    if r.Some? { m := PartNeeds(r.value, head + Encode(a), b, olen, 0, m1); }
  }

  /**
    What is packed of a message that does not fit is refused by the decoder, with anything behind it at which
    a decoder stops.
   */
  lemma CutMessageIsRefused(kind: byte, id: nat, a: Value, b: Value, olen: nat, rest: seq<byte>)
    requires kind < 2 && id < 0x1_0000_0000 && Encodable(a) && Encodable(b) && olen < SIZE_MAX
    requires !MessageFits(a, b, olen) && Inert(rest)
    ensures var r := Packed(kind, id, a, b, olen);
            r.Some? ==> DecodeList(r.value + rest, |r.value|) == Fail
  {
    var m := MessageNeeds(kind, id, a, b, olen);
    var r := Packed(kind, id, a, b, olen);
    if r.Some? { WantingIsRefused(r.value, rest, m); }
  }

  lemma NothingNeeded(m: nat)
    requires m > 0
    ensures forall a :: !Needs(a, 0, m)
  {
    forall a ensures !Needs(a, 0, m) {
      assert !Tally(a, 0, m);
    }
  }

  lemma WantingIsRefused(a: seq<byte>, rest: seq<byte>, m: nat)
    requires Needs(a, 1, m) && m > 0 && Inert(rest) && |a| < SIZE_MAX
    ensures DecodeList(a + rest, |a|) == Fail
  {
    NothingNeeded(m);
    ItemStays(a, rest, 0, m);
    if a + rest != [] && IsListTag((a + rest)[0]) {
      assert DecodeItem(a + rest, |a|) == DecodeList(a + rest, |a|);
    }
  }
}
