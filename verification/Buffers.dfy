/**
  The encoders and decoders as the C code runs them: loops that move a cursor through a
  buffer. The encoders are proved to write the encoding of Values.dfy and nothing else, the
  decoders to compute the functions of Decoder.dfy.
 */
module Buffers {
  import opened Options
  import opened Bytes
  import opened TernaryTree
  import opened Values
  import opened Decoder
  import opened Emission

  // ---------------------------------------------------------------- writing

  /** `s` written over `mem` at position `at`. */
  function Spliced(mem: seq<byte>, at: nat, s: seq<byte>): (r: seq<byte>)
    requires at + |s| <= |mem|
    ensures |r| == |mem|
  {
    mem[..at] + s + mem[at + |s|..]
  }

  /** Nothing outside the `n` bytes at `at` differs. */
  ghost predicate OnlyWithin(mem: seq<byte>, mem': seq<byte>, at: nat, n: nat) {
    |mem'| == |mem| && forall i :: 0 <= i < |mem| && !(at <= i < at + n) ==> mem'[i] == mem[i]
  }

  /** `s` stands in `mem` at position `at`. */
  ghost predicate StandsAt(mem: seq<byte>, at: nat, s: seq<byte>) {
    at + |s| <= |mem| && mem[at..at + |s|] == s
  }

  /** What an encoder that emits `r` leaves at `at`, having returned `written`. */
  ghost predicate Left(mem: seq<byte>, at: nat, r: Option<seq<byte>>, written: int) {
    match r
    case None => written == -1
    case Some(s) => written == |s| && StandsAt(mem, at, s)
  }

  lemma StandsStill(mem: seq<byte>, mem': seq<byte>, at: nat, s: seq<byte>, from: nat, n: nat)
    requires StandsAt(mem, at, s) && OnlyWithin(mem, mem', from, n) && at + |s| <= from
    ensures StandsAt(mem', at, s)
  {
    forall i | 0 <= i < |s| ensures mem'[at..at + |s|][i] == s[i] {
      assert mem[at..at + |s|][i] == mem[at + i];
    }
  }

  lemma StandsLonger(mem: seq<byte>, at: nat, s: seq<byte>, t: seq<byte>)
    requires StandsAt(mem, at, s) && StandsAt(mem, at + |s|, t)
    ensures StandsAt(mem, at, s + t)
  {
  }

  lemma WithinMore(a: seq<byte>, b: seq<byte>, c: seq<byte>, at: nat, n: nat, from: nat, m: nat)
    requires OnlyWithin(a, b, at, n) && OnlyWithin(b, c, from, m) && at <= from && from + m <= at + n
    ensures OnlyWithin(a, c, at, n)
  {
  }

  /** memmove */
  method Put(buf: array<byte>, at: nat, s: seq<byte>)
    requires at + |s| <= buf.Length
    modifies buf
    ensures buf[..] == Spliced(old(buf[..]), at, s)
    ensures StandsAt(buf[..], at, s) && OnlyWithin(old(buf[..]), buf[..], at, |s|)
  {
    forall i | 0 <= i < |s| {
      buf[at + i] := s[i];
    }
  }

  /** A simple object, or a list of simple objects. */
  predicate Shallow(v: Value) {
    !v.Dict? && (v.List? ==> forall e :: e in v.elems ==> !e.List? && !e.Dict?)
  }

  /**
    No write goes past `size`. The header of a list and the keys of a tree are written unchecked, so
    in general the whole encoding must find room; a shallow value stays within the room it is told of.
   */
  predicate Contained(v: Value, at: nat, olen: nat, size: nat) {
    at + Length(v) <= size || (Shallow(v) && at + olen <= size && (v.List? ==> at + 5 <= size))
  }

  /** co_obj_raw followed by memmove, after the check on the room left. */
  method SimpleRaw(buf: array<byte>, at: nat, olen: nat, v: Value) returns (read: int)
    requires !v.List? && !v.Dict? && Contained(v, at, olen, buf.Length)
    modifies buf
    ensures Left(buf[..], at, Emitted(v, olen), read) && OnlyWithin(old(buf[..]), buf[..], at, Length(v))
  {
    if |Encode(v)| >= olen {
      return -1;
    }
    Put(buf, at, Encode(v));
    read := |Encode(v)|;
  }

  /** co_list_raw */
  method ListRaw(buf: array<byte>, at: nat, olen: nat, v: Value) returns (written: int)
    requires v.List? && Writable(v) && Contained(v, at, olen, buf.Length) && olen < SIZE_MAX
    modifies buf
    ensures Left(buf[..], at, Emitted(v, olen), written) && OnlyWithin(old(buf[..]), buf[..], at, Length(v))
    decreases v, 1
  {
    ghost var mem, head := buf[..], ListHead(v.wide, |v.elems|);
    Put(buf, at, ListHead(v.wide, |v.elems|));
    ghost var mem' := buf[..];
    written := RawElements(buf, at, olen, v, if v.wide then 5 else 3, head);
    WithinMore(mem, mem', buf[..], at, Length(v), at, Length(v));
  }

  /** Its loop, after the header. */
  method RawElements(buf: array<byte>, at: nat, olen: nat, v: Value, head: nat, ghost bytes: seq<byte>)
      returns (written: int)
    requires v.List? && Writable(v) && Contained(v, at, olen, buf.Length) && olen < SIZE_MAX
    requires head == |bytes| && StandsAt(buf[..], at, bytes) && head + LengthAll(v.elems) == Length(v)
    modifies buf
    ensures Left(buf[..], at, Ending(bytes, v.elems, olen), written)
    ensures OnlyWithin(old(buf[..]), buf[..], at, Length(v))
    decreases v, 0
  {
    ghost var mem, out, rest := buf[..], bytes, v.elems;
    written := head;
    var i := 0;
    while i < |v.elems| && written <= olen
      invariant 0 <= i <= |v.elems| && rest == v.elems[i..] && written == |out| && StandsAt(buf[..], at, out)
      invariant Within(v, mem, buf[..], at, written, rest)
      invariant Ending(out, rest, olen) == Ending(bytes, v.elems, olen)
    {
      NextElement(v, i, at, olen, written, buf.Length);
      NextEnding(out, rest, olen);
      ghost var before, from := buf[..], written;
      var ok;
      ok, written, out := RawElement(buf, at, olen, written, v.elems[i], out);
      WithinStep(v, mem, before, buf[..], at, from, rest, written);
      if !ok {
        return -1;
      }
      rest := rest[1..];
      i := i + 1;
    }
    LastEnding(out, rest, olen);
  }

  /**
    What the loop of co_list_raw ends with when `out` is written and `rest` still to write; a name that keeps
    the recursive definition folded in the proof of the loop.
   */
  function Ending(out: seq<byte>, rest: seq<Value>, olen: nat): Option<seq<byte>> {
    EmittedElems(out, rest, olen)
  }

  lemma NextEnding(out: seq<byte>, rest: seq<Value>, olen: nat)
    requires rest != [] && |out| <= olen
    ensures var r := Emitted(rest[0], olen - |out|);
            Ending(out, rest, olen) ==
            if r.Some? && |r.value| + |out| < olen then Ending(out + r.value, rest[1..], olen) else None
  {
  }

  lemma LastEnding(out: seq<byte>, rest: seq<Value>, olen: nat)
    requires rest == [] || |out| > olen
    ensures Ending(out, rest, olen) == Some(out)
  {
  }

  /** What the loop of a list has written so far, and has still to write, lies within the encoding. */
  ghost predicate Within(v: Value, mem: seq<byte>, mem': seq<byte>, at: nat, written: int, rest: seq<Value>) {
    written + LengthAll(rest) <= Length(v) && OnlyWithin(mem, mem', at, Length(v))
  }

  lemma WithinStep(v: Value, mem: seq<byte>, mem1: seq<byte>, mem2: seq<byte>, at: nat, from: nat, rest: seq<Value>,
                   written: int)
    requires rest != [] && Within(v, mem, mem1, at, from, rest)
    requires OnlyWithin(mem1, mem2, at + from, Length(rest[0])) && written <= from + Length(rest[0])
    ensures Within(v, mem, mem2, at, written, rest[1..])
  {
    WithinMore(mem, mem1, mem2, at, Length(v), at + from, Length(rest[0]));
  }

  lemma NextElement(v: Value, i: nat, at: nat, olen: nat, written: nat, size: nat)
    requires v.List? && Writable(v) && i < |v.elems| && written <= olen && Contained(v, at, olen, size)
    requires written + LengthAll(v.elems[i..]) <= Length(v)
    ensures v.elems[i..][0] == v.elems[i] && v.elems[i..][1..] == v.elems[i + 1..]
    ensures Writable(v.elems[i]) && Contained(v.elems[i], at + written, olen - written, size)
  {
    assert v.elems[i] in v.elems;
  }

  /** One element of a list, in the loop of co_list_raw. */
  method RawElement(buf: array<byte>, at: nat, olen: nat, written: nat, e: Value, ghost out: seq<byte>)
      returns (ok: bool, written': nat, ghost out': seq<byte>)
    requires Writable(e) && olen < SIZE_MAX && written == |out| <= olen && StandsAt(buf[..], at, out)
    requires Contained(e, at + written, olen - written, buf.Length)
    modifies buf
    ensures var r := Emitted(e, olen - written);
            ok == (r.Some? && |r.value| + written < olen) && out' == if ok then out + r.value else out
    ensures written' == |out'| <= written + Length(e) && StandsAt(buf[..], at, out')
    ensures OnlyWithin(old(buf[..]), buf[..], at + written, Length(e))
    decreases e, 3
  {
    ghost var before, r, n := buf[..], Emitted(e, olen - written), Length(e);
    NeverMore(e, olen - written);
    var read := RawItem(buf, at + written, olen - written, e);
    LeftBehind(before, buf[..], at, out, n, r, read);
    ok := read >= 0 && read + written < olen;
    written', out' := written, out;
    if ok {
      written', out' := written + read, out + r.value;
    }
  }

  /** An element that is left behind what stands. */
  lemma LeftBehind(before: seq<byte>, mem: seq<byte>, at: nat, out: seq<byte>, n: nat, r: Option<seq<byte>>, read: int)
    requires StandsAt(before, at, out) && OnlyWithin(before, mem, at + |out|, n) && Left(mem, at + |out|, r, read)
    ensures StandsAt(mem, at, out)
    ensures read >= 0 ==> r.Some? && read == |r.value| && StandsAt(mem, at, out + r.value)
  {
    StandsStill(before, mem, at, out, at + |out|, n);
    if read >= 0 { StandsLonger(mem, at, out, r.value); }
  }

  /** How the list encoder chooses an encoder for an element. */
  method RawItem(buf: array<byte>, at: nat, olen: nat, v: Value) returns (read: int)
    requires Writable(v) && Contained(v, at, olen, buf.Length) && olen < SIZE_MAX
    modifies buf
    ensures Left(buf[..], at, Emitted(v, olen), read) && OnlyWithin(old(buf[..]), buf[..], at, Length(v))
    decreases v, 2
  {
    if v.List? {
      read := ListRaw(buf, at, olen, v);
    } else if v.Dict? {
      read := TreeRaw(buf, at, olen, v);
    } else {
      read := SimpleRaw(buf, at, olen, v);
    }
  }

  /** co_tree_raw */
  method TreeRaw(buf: array<byte>, at: nat, olen: nat, v: Value) returns (written: int)
    requires v.Dict? && Writable(v) && at + Length(v) <= buf.Length && olen < SIZE_MAX
    modifies buf
    ensures Left(buf[..], at, Emitted(v, olen), written) && OnlyWithin(old(buf[..]), buf[..], at, Length(v))
    decreases v, 1
  {
    ghost var mem, out := buf[..], TreeHead(v.wide, v.count);
    Put(buf, at, TreeHead(v.wide, v.count));
    written := if v.wide then 5 else 3;
    ghost var before := buf[..];
    written, out := TreeRawR(buf, at, olen, written, v.root, out);
    WithinMore(mem, before, buf[..], at, Length(v), at + HeadLength(v.wide), LengthNodes(v.root));
  }

  /** _co_tree_raw_r: an error skips the rest of the subtree and is not reported. `out` stands in the buffer so far. */
  method TreeRawR(buf: array<byte>, at: nat, olen: nat, written: nat, t: Tree<Value>, ghost out: seq<byte>)
      returns (written': nat, ghost out': seq<byte>)
    requires NodesWritable(t) && olen < SIZE_MAX && written == |out| && StandsAt(buf[..], at, out)
    requires at + written + LengthNodes(t) <= buf.Length
    modifies buf
    ensures out' == EmittedNodes(out, t, olen) && written <= written' == |out'| <= written + LengthNodes(t)
    ensures StandsAt(buf[..], at, out') && OnlyWithin(old(buf[..]), buf[..], at + written, LengthNodes(t))
    decreases t, 1
  {
    written', out' := written, out;
    if t == Empty {
      return;
    }
    if t.value.Some? {
      var ok;
      ok, written', out' := WriteEntry(buf, at, olen, written, t.key.value, t.value.value, out);
      if !ok {
        return;
      }
    }
    ghost var mem, mid, from := old(buf[..]), buf[..], at + written';
    written', out' := TreeRawBelow(buf, at, olen, written', t, out');
    WithinMore(mem, mid, buf[..], at + written, LengthNodes(t), from,
               LengthNodes(t.low) + LengthNodes(t.equal) + LengthNodes(t.high));
  }

  /** Its three recursive calls. */
  method TreeRawBelow(buf: array<byte>, at: nat, olen: nat, written: nat, t: Tree<Value>, ghost out: seq<byte>)
      returns (written': nat, ghost out': seq<byte>)
    requires t.Node? && NodesWritable(t) && olen < SIZE_MAX && written == |out| && StandsAt(buf[..], at, out)
    requires at + written + LengthNodes(t.low) + LengthNodes(t.equal) + LengthNodes(t.high) <= buf.Length
    modifies buf
    ensures out' == EmittedBelow(out, t, olen)
    ensures var n := LengthNodes(t.low) + LengthNodes(t.equal) + LengthNodes(t.high);
            written <= written' == |out'| <= written + n && OnlyWithin(old(buf[..]), buf[..], at + written, n)
    ensures StandsAt(buf[..], at, out')
    decreases t, 0
  {
    ghost var n := LengthNodes(t.low) + LengthNodes(t.equal) + LengthNodes(t.high);
    ghost var mem := buf[..];
    written', out' := TreeRawR(buf, at, olen, written, t.low, out);
    ghost var mem1, from := buf[..], at + written';
    WithinMore(mem, mem, mem1, at + written, n, at + written, LengthNodes(t.low));
    written', out' := TreeRawR(buf, at, olen, written', t.equal, out');
    WithinMore(mem, mem1, buf[..], at + written, n, from, LengthNodes(t.equal));
    ghost var mem2 := buf[..];
    from := at + written';
    written', out' := TreeRawR(buf, at, olen, written', t.high, out');
    WithinMore(mem, mem2, buf[..], at + written, n, from, LengthNodes(t.high));
  }

  /** The part of _co_tree_raw_r that writes one key and its value. */
  method WriteEntry(buf: array<byte>, at: nat, olen: nat, written: nat, k: Key, v: Value, ghost out: seq<byte>)
      returns (ok: bool, written': nat, ghost out': seq<byte>)
    requires Writable(v) && |k| < 255 && olen < SIZE_MAX && written == |out| && StandsAt(buf[..], at, out)
    requires at + written + KeyLength(k) + Length(v) <= buf.Length
    modifies buf
    ensures var r := EmittedValue(v, KeyLength(k), olen - |out + EncodeKey(k)|);
            ok == r.Some? && out' == out + EncodeKey(k) + (if ok then r.value else [])
    ensures written <= written' == |out'| <= written + KeyLength(k) + Length(v)
    ensures StandsAt(buf[..], at, out') && OnlyWithin(old(buf[..]), buf[..], at + written, KeyLength(k) + Length(v))
    decreases v, 5
  {
    ghost var mem, n, whole := buf[..], KeyLength(k) + Length(v), out + EncodeKey(k);
    var klen := PutKey(buf, at + written, k, at, out);
    written' := written + klen;
    ghost var mid := buf[..];
    ok, written', out' := AddValue(buf, at, olen, written', klen, v, whole);
    WithinMore(mem, mid, buf[..], at + written, n, at + written + klen, Length(v));
  }

  method PutKey(buf: array<byte>, cursor: nat, k: Key, ghost at: nat, ghost out: seq<byte>) returns (klen: nat)
    requires StandsAt(buf[..], at, out) && cursor == at + |out| && cursor + KeyLength(k) <= buf.Length
    modifies buf
    ensures klen == KeyLength(k) == |EncodeKey(k)| && StandsAt(buf[..], at, out + EncodeKey(k))
    ensures OnlyWithin(old(buf[..]), buf[..], cursor, klen)
  {
    ghost var mem := buf[..];
    var key := EncodeKey(k);
    klen := |key|;
    Put(buf, cursor, key);
    StandsStill(mem, buf[..], at, out, cursor, klen);
    StandsLonger(buf[..], at, out, key);
  }

  method AddValue(buf: array<byte>, at: nat, olen: nat, written: nat, klen: nat, v: Value, ghost out: seq<byte>)
      returns (ok: bool, written': nat, ghost out': seq<byte>)
    requires Writable(v) && written == |out| && StandsAt(buf[..], at, out) && at + written + Length(v) <= buf.Length
    modifies buf
    ensures var r := EmittedValue(v, klen, olen - written); ok == r.Some? && out' == out + (if ok then r.value else [])
    ensures written <= written' == |out'| <= written + Length(v)
    ensures StandsAt(buf[..], at, out') && OnlyWithin(old(buf[..]), buf[..], at + written, Length(v))
    decreases v, 4
  {
    ghost var mem, r := buf[..], EmittedValue(v, klen, olen - written);
    var vlen := WriteValue(buf, at + written, olen - written, klen, v);
    StandsStill(mem, buf[..], at, out, at + written, Length(v));
    ok := vlen > 0;
    written', out' := written, out;
    if ok {
      StandsLonger(buf[..], at, out, r.value);
      NeverMore(v, SizeT(olen - written));
      written', out' := written + vlen, out + r.value;
    }
  }

  /** The value half; a simple value is checked against the room left with the key counted again. */
  method WriteValue(buf: array<byte>, at: nat, left: int, klen: nat, v: Value) returns (vlen: int)
    requires Writable(v) && at + Length(v) <= buf.Length
    modifies buf
    ensures Left(buf[..], at, EmittedValue(v, klen, left), vlen) && OnlyWithin(old(buf[..]), buf[..], at, Length(v))
    ensures vlen != 0
    decreases v, 3
  {
    NeverEmpty(v, SizeT(left));
    if v.List? || v.Dict? {
      vlen := RawItem(buf, at, SizeT(left), v);
    } else if klen + |Encode(v)| < SizeT(left) {
      Put(buf, at, Encode(v));
      vlen := |Encode(v)|;
    } else {
      vlen := -1;
    }
  }

  // ---------------------------------------------------------------- reading

  /** The loop of co_list_import, from the cursor after the header. */
  method ImportElems(input: seq<byte>, from: nat, left: int, length: nat, used: nat) returns (d: Decoded<seq<Value>>)
    requires from <= |input|
    ensures d == DecodeElems(input[from..], left, length, [], used)
    decreases |input| - from, 4
  {
    var cursor, i, room, elems := from, 0, left, [];
    while i < length && room >= 0
      invariant from <= cursor <= |input| && i <= length
      invariant DecodeElems(input[from..], left, length, [], used)
                == DecodeElems(input[cursor..], room, length - i, elems, used + cursor - from)
      decreases length - i
    {
      var item := ImportItem(input, cursor, room);
      if item.Fail? || item.size == 0 || item.size > |input| - cursor {
        return Fail;
      }
      assert input[cursor..][item.size..] == input[cursor + item.size..];
      elems, cursor, room, i := elems + [item.value], cursor + item.size, room - item.size, i + 1;
    }
    d := if i == length then Ok(elems, used + cursor - from) else Fail;
  }

  /** co_list_import */
  method ImportList(input: seq<byte>, from: nat, ilen: nat) returns (d: Decoded<Value>)
    requires from <= |input|
    ensures d == DecodeList(input[from..], ilen)
    decreases |input| - from, 1
  {
    if from == |input| || !IsListTag(input[from]) {
      return Fail;
    }
    var w := if input[from] == LIST32 then 4 else 2;
    if |input| - from < 1 + w {
      return Fail;
    }
    assert input[from..][1 + w..] == input[from + 1 + w..];
    var elems := ImportElems(input, from + 1 + w, ilen - (1 + w), Number(input[from..], w), 1 + w);
    d := match elems
      case Ok(vs, size) => Ok(List(input[from] == LIST32, vs), size)
      case Fail => Fail;
  }

  /** One round of co_tree_import: a str8 key and the value behind it. */
  method ImportPair(input: seq<byte>, from: nat, left: int) returns (d: Decoded<(Key, Value)>)
    requires from <= |input|
    ensures d == DecodePair(input[from..], left)
    decreases |input| - from, 4
  {
    if |input| - from < 2 || input[from] != STR8 {
      return Fail;
    }
    var klen: nat := input[from + 1];
    if |input| - from < 2 + klen {
      return Fail;
    }
    assert input[from..][2 + klen..] == input[from + 2 + klen..];
    var item := ImportItem(input, from + 2 + klen, SizeT(left - (2 + klen)));
    if item.Fail? || item.size == 0 || 2 + klen + item.size > |input| - from {
      return Fail;
    }
    assert input[from..][2..2 + klen] == input[from + 2..from + 2 + klen];
    d := Ok((input[from + 2..from + 2 + klen], item.value), 2 + klen + item.size);
  }

  /** The loop of co_tree_import, from the cursor after the header. */
  method ImportPairs(input: seq<byte>, from: nat, left: int, length: nat, used: nat) returns (d: Decoded<Tree<Value>>)
    requires from <= |input|
    ensures d == DecodePairs(input[from..], left, length, Empty, used)
    decreases |input| - from, 5
  {
    var cursor, i, room, tree := from, 0, left, Empty;
    while i < length && room >= 0
      invariant from <= cursor <= |input| && i <= length
      invariant End(Loop(input[from..], left, length, Empty, used))
                == End(Loop(input[cursor..], room, length - i, tree, used + cursor - from))
      decreases length - i
    {
      var pair := ImportPair(input, cursor, room);
      if pair.Fail? || pair.size == 0 || pair.size > |input| - cursor {
        return Fail;
      }
      var key, value := pair.value.0, pair.value.1;
      if !(1 <= |key| < 255) || HasPath(tree, key) {
        return Fail;
      }
      assert input[cursor..][pair.size..] == input[cursor + pair.size..];
      tree, cursor, room, i := Insert(tree, key, key, value), cursor + pair.size, room - pair.size, i + 1;
    }
    d := if i == length then Ok(tree, used + cursor - from) else Fail;
  }

  /** co_tree_import */
  method ImportTree(input: seq<byte>, from: nat, ilen: nat) returns (d: Decoded<Value>)
    requires from <= |input|
    ensures d == DecodeTree(input[from..], ilen)
    decreases |input| - from, 1
  {
    if from == |input| || !IsTreeTag(input[from]) {
      return Fail;
    }
    var w := if input[from] == TREE32 then 4 else 2;
    if |input| - from < 1 + w {
      return Fail;
    }
    assert input[from..][1 + w..] == input[from + 1 + w..];
    var count := Number(input[from..], w);
    var tree := ImportPairs(input, from + 1 + w, ilen - (1 + w), count, 1 + w);
    d := match tree
      case Ok(t, size) => Ok(Dict(input[from] == TREE32, count, t), size)
      case Fail => Fail;
  }

  /** How the loops choose a decoder for what is at the cursor. */
  method ImportItem(input: seq<byte>, from: nat, ilen: nat) returns (d: Decoded<Value>)
    requires from <= |input|
    ensures d == DecodeItem(input[from..], ilen)
    decreases |input| - from, 3
  {
    if from == |input| {
      d := Fail;
    } else if IsListTag(input[from]) {
      d := ImportList(input, from, ilen);
    } else if IsTreeTag(input[from]) {
      d := ImportTree(input, from, ilen);
    } else if ilen == 0 {
      d := Fail;
    } else {
      d := DecodeSimple(input[from..]);
    }
  }
}
