/**
  Requests and responses of src/msg.c, the dispatcher of src/daemon.c and co_call of
  src/commotion.c. The transport hands a message over whole; what lies behind a message in a
  receive buffer is arbitrary.
 */
module Rpc {
  import opened Options
  import opened Sequences
  import opened Bytes
  import opened TernaryTree
  import opened Values
  import opened Decoder
  import opened RoundTrip
  import opened Meanings
  import opened Emission
  import opened Packing
  import opened Commands
  import opened Demand
  import opened Buffers

  // ---------------------------------------------------------------- packing

  /** The counter that numbers the requests of a process. */
  class RequestIds {
    var next: nat

    /** co_request_alloc, for a list of parameters. */
    method RequestAlloc(buf: array<byte>, olen: nat, name: Value, params: Value) returns (written: int)
      requires name.Str? && params.List? && Writable(params) && next < 0x1_0000_0000
      requires olen < SIZE_MAX && olen <= buf.Length && 15 + Length(name) <= buf.Length
      requires Shallow(params) || 10 + Length(name) + Length(params) <= buf.Length
      modifies this, buf
      ensures next == if olen <= LEAST then old(next) else (old(next) + 1) % 0x1_0000_0000
      ensures Left(buf[..], 0, Packed(0, old(next), name, params, olen), written)
      ensures written == |Encode(Request(old(next), name, params))| <==> MessageFits(name, params, olen)
      ensures MessageFits(name, params, olen) ==> StandsAt(buf[..], 0, Encode(Request(old(next), name, params)))
    {
      PackedExactly(0, next, name, params, olen);
      if olen <= LEAST {
        return -1;
      }
      ghost var out := Header(0, next);
      Put(buf, 0, Header(0, next));
      next := (next + 1) % 0x1_0000_0000;
      written := PackPart(buf, 10, olen, name, out);
      if written == -1 || written >= olen {
        return -1;
      }
      out := PackedPart(out, name, olen).value;
      written := PackPart(buf, written, olen, params, out);
      if written == -1 || written >= olen {
        return -1;
      }
    }
  }

  /** co_response_alloc */
  method ResponseAlloc(buf: array<byte>, olen: nat, id: nat, error: Value, result: Value) returns (written: int)
    requires id < 0x1_0000_0000 && Writable(error) && Writable(result)
    requires olen < SIZE_MAX && olen <= buf.Length && 10 + Length(error) + Length(result) <= buf.Length
    modifies buf
    ensures Left(buf[..], 0, Packed(1, id, error, result, olen), written)
    ensures written == |Encode(Response(id, error, result))| <==> MessageFits(error, result, olen)
    ensures MessageFits(error, result, olen) ==> StandsAt(buf[..], 0, Encode(Response(id, error, result)))
  {
    PackedExactly(1, id, error, result, olen);
    if olen <= LEAST {
      return -1;
    }
    ghost var out := Header(1, id);
    Put(buf, 0, Header(1, id));
    written := PackPart(buf, 10, olen, error, out);
    if written == -1 || written >= olen {
      return -1;
    }
    PartExactly(out, error, olen);
    out := PackedPart(out, error, olen).value;
    written := PackPart(buf, written, olen, result, out);
    if written == -1 || written >= olen {
      return -1;
    }
  }

  /** One object of a message: lists and trees are told of the room, simple objects are not checked. */
  method PackPart(buf: array<byte>, written: nat, olen: nat, v: Value, ghost out: seq<byte>) returns (written': int)
    requires Writable(v) && olen < SIZE_MAX && written == |out| < olen && StandsAt(buf[..], 0, out)
    requires if v.List? || v.Dict? then Contained(v, written, olen - written, buf.Length)
             else written + Length(v) <= buf.Length
    modifies buf
    ensures Left(buf[..], 0, PackedPart(out, v, olen), written')
  {
    ghost var mem := buf[..];
    var s: int;
    LengthIs(v);
    if v.List? || v.Dict? {
      s := RawItem(buf, written, olen - written, v);
      NeverEmpty(v, olen - written);
    } else {
      Put(buf, written, Encode(v));
      s := |Encode(v)|;
    }
    StandsStill(mem, buf[..], 0, out, written, Length(v));
    written' := if s > 0 then written + s else -1;
    if s > 0 { StandsLonger(buf[..], 0, out, PackedPart(out, v, olen).value[written..]); }
  }

  // ---------------------------------------------------------------- serving and calling

  /** "error" and "Incorrect command.", each with its NUL. */
  const ERROR_KEY: seq<byte> := [101, 114, 114, 111, 114, 0]
  const INCORRECT_COMMAND: seq<byte> :=
    [73, 110, 99, 111, 114, 114, 101, 99, 116, 32, 99, 111, 109, 109, 97, 110, 100, 46, 0]

  /** The reply when a command fails without an explanation of its own. */
  function IncorrectCommand(): Value {
    Dict(false, 1, Insert(Empty, ERROR_KEY, ERROR_KEY, Str(0, INCORRECT_COMMAND)))
  }

  /** The response of dispatcher_cb to an outcome; a command that succeeds has to leave an object. */
  function ResponseTo(id: nat, o: Outcome): Option<Value> {
    if o.ok then (match o.output case Some(r) => Some(Response(id, Nil, r)) case None => None)
    else Some(Response(id, match o.output case Some(e) => e case None => IncorrectCommand(), Nil))
  }

  /** dispatcher_cb on the received bytes: the id of the request and the outcome of its command, if it is one. */
  function Ran<C>(mem: seq<byte>, len: nat, cmds: Tree<C>, exec: (C, Value) -> Outcome): Option<(nat, Outcome)> {
    match DecodeList(mem, len)
    case Fail => None
    case Ok(request, _) =>
      if !request.List? || |request.elems| != 4 then None
      else match (DataOf(request.elems[0]), DataOf(request.elems[1]))
        case (Some(kind), Some(id)) =>
          if kind == [] || kind[0] != 0 || |id| != 4 then None
          else Some((FromBytes(id), Execute(cmds, exec, request.elems[2], request.elems[3])))
        case _ => None
  }

  /** And the response it sends, if it sends one. */
  function Dispatch<C>(mem: seq<byte>, len: nat, cmds: Tree<C>, exec: (C, Value) -> Outcome): Option<Value> {
    match Ran(mem, len, cmds, exec)
    case None => None
    case Some((id, o)) => ResponseTo(id, o)
  }

  datatype CallResult = CallResult(ret: int, response: Option<Value>)

  /** co_call on the received bytes; a reply that holds no tree leaves the response unset. */
  function Receive(mem: seq<byte>, len: nat): CallResult {
    if len == 0 then CallResult(0, None)
    else match DecodeList(mem, len)
      case Fail => CallResult(0, None)
      case Ok(reply, _) =>
        if !reply.List? || |reply.elems| != 4 then CallResult(0, None)
        else
          var ret := if reply.elems[3] != Nil then 1 else 0;
          var tree := reply.elems[if ret == 1 then 3 else 2];
          CallResult(ret, if tree.Dict? then Some(tree) else None)
  }

  lemma MessageEncodable(kind: nat, id: nat, a: Value, b: Value)
    requires kind < 2 && id < 0x1_0000_0000 && Encodable(a) && Encodable(b)
    ensures var m := List(false, [UInt(0, kind), UInt(2, id), a, b]);
            Encodable(m) && Rebuilt(m) == List(false, [UInt(0, kind), UInt(2, id), Rebuilt(a), Rebuilt(b)])
  {
    Powers();
    FourEncodable(UInt(0, kind), UInt(2, id), a, b);
    RebuiltFour(UInt(0, kind), UInt(2, id), a, b);
  }

  lemma FourEncodable(k: Value, i: Value, a: Value, b: Value)
    requires Encodable(k) && Encodable(i) && Encodable(a) && Encodable(b)
    ensures Encodable(List(false, [k, i, a, b]))
  {
  }

  lemma RebuiltFour(k: Value, i: Value, a: Value, b: Value)
    ensures RebuiltAll([k, i, a, b]) == [Rebuilt(k), Rebuilt(i), Rebuilt(a), Rebuilt(b)]
  {
    assert [k, i, a, b][1..] == [i, a, b] && [i, a, b][1..] == [a, b] && [a, b][1..] == [b] && [b][1..] == [];
    assert RebuiltAll([a, b]) == [Rebuilt(a), Rebuilt(b)];
  }

  /** A message is received as it was sent, whatever else is in the buffer. */
  lemma MessageComesBack(kind: nat, id: nat, a: Value, b: Value, rest: seq<byte>)
    requires kind < 2 && id < 0x1_0000_0000 && Encodable(a) && Encodable(b)
    requires |Encode(List(false, [UInt(0, kind), UInt(2, id), a, b]))| < SIZE_MAX
    ensures var m := List(false, [UInt(0, kind), UInt(2, id), a, b]);
            DecodeList(Encode(m) + rest, |Encode(m)|)
            == Ok(List(false, [UInt(0, kind), UInt(2, id), Rebuilt(a), Rebuilt(b)]), |Encode(m)|)
  {
    var m := List(false, [UInt(0, kind), UInt(2, id), a, b]);
    MessageEncodable(kind, id, a, b);
    EncodedComesBack(m);
    ItemIsRead(m, rest, |Encode(m)|);
    assert (Encode(m) + rest)[0] == LIST16;
  }

  /** The reply is a tree16 of one entry. */
  lemma IncorrectCommandSays()
    ensures IncorrectCommand().Dict? && !IncorrectCommand().wide && IncorrectCommand().count == 1
    ensures Map(IncorrectCommand().root) == map[Codes("error") + [0] := Str(0, Codes("Incorrect command.") + [0])]
  {
    assert ERROR_KEY == Codes("error") + [0];
    assert INCORRECT_COMMAND == Codes("Incorrect command.") + [0];
    InsertIsMapUpdate(Empty, ERROR_KEY, Str(0, INCORRECT_COMMAND));
  }

  lemma IncorrectCommandEncodable()
    ensures Encodable(IncorrectCommand())
  {
    var text := Str(0, INCORRECT_COMMAND);
    assert Encodable(text);
    assert [] + ERROR_KEY == ERROR_KEY;
    OneBinding([], ERROR_KEY, text);
  }

  /** A tree of one short key is in the domain of the codec. */
  lemma {:induction false} OneBinding(prefix: Key, key: Key, v: Value)
    requires key != [] && ByteKey(prefix + key) && |prefix + key| < 255 && (prefix + key)[|prefix + key| - 1] == 0
    requires Encodable(v)
    ensures var t := Insert(Empty, prefix + key, key, v);
            Ordered(t) && KeysSpelled(t, prefix) && ValuesEncodable(t) && Bound(t) == 1
    decreases |key|
  {
    assert StoredKey(prefix + key) == prefix + key;
    if |key| > 1 {
      assert prefix + key == (prefix + [key[0]]) + key[1..];
      OneBinding(prefix + [key[0]], key[1..], v);
    } else {
      assert key == [key[0]];
    }
  }

  /** A request runs the command that is bound to the name it holds, on parameters of the same meaning. */
  lemma RequestIsServed<C>(cmds: Tree<C>, exec: (C, Value) -> Outcome, id: nat, k: Key, name: Value, params: Value,
                           o: Outcome, rest: seq<byte>)
    requires id < 0x1_0000_0000 && params.List? && Encodable(params)
    requires Ordered(cmds) && k != [] && name.Str? && name.text == k + [0] && Encodable(name)
    requires o == if k in Map(cmds) then exec(Map(cmds)[k], Rebuilt(params)) else Outcome(false, None)
    requires |Encode(Request(id, name, params))| < SIZE_MAX
    ensures var request := Encode(Request(id, name, params));
            Dispatch(request + rest, |request|, cmds, exec) == ResponseTo(id, o)
    ensures MeaningOf(Rebuilt(params)) == MeaningOf(params)
  {
    MessageComesBack(0, id, name, params, rest);
    NamedCommandRuns(cmds, exec, name.len, k, name.text, Rebuilt(params));
    RebuiltMeansTheSame(params);
    Powers();
    assert ToBytes(0, 1)[0] == 0;
    BytesRoundTrip(id, 4);
  }

  /** Lists of another length, and messages of another kind or with an id of another width, are dropped. */
  lemma OddMessagesAreDropped<C>(m: Value, cmds: Tree<C>, exec: (C, Value) -> Outcome, rest: seq<byte>)
    requires m.List? && Encodable(m) && |Encode(m)| < SIZE_MAX
    ensures |m.elems| != 4 ==> Dispatch(Encode(m) + rest, |Encode(m)|, cmds, exec) == None
                               && Receive(Encode(m) + rest, |Encode(m)|) == CallResult(0, None)
    ensures |m.elems| == 4 && m.elems[0].UInt? && m.elems[0].u % 256 != 0 ==>
      Dispatch(Encode(m) + rest, |Encode(m)|, cmds, exec) == None
    ensures |m.elems| == 4 && m.elems[1].UInt? && m.elems[1].log != 2 ==>
      Dispatch(Encode(m) + rest, |Encode(m)|, cmds, exec) == None
  {
    EncodedComesBack(m);
    ItemIsRead(m, rest, |Encode(m)|);
    assert DecodeItem(Encode(m) + rest, |Encode(m)|) == DecodeList(Encode(m) + rest, |Encode(m)|);
    if |m.elems| == 4 {
      FourRebuilt(m.elems);
      assert m.elems[0].UInt? ==> ToBytes(m.elems[0].u, Width(m.elems[0].log))[0] == m.elems[0].u % 256;
    }
  }

  lemma FourRebuilt(vs: seq<Value>)
    requires |vs| == 4
    ensures RebuiltAll(vs) == [Rebuilt(vs[0]), Rebuilt(vs[1]), Rebuilt(vs[2]), Rebuilt(vs[3])]
  {
    assert vs == [vs[0], vs[1], vs[2], vs[3]];
    RebuiltFour(vs[0], vs[1], vs[2], vs[3]);
  }

  lemma ReplyIsReceived(id: nat, ok: bool, tree: Value, rest: seq<byte>)
    requires id < 0x1_0000_0000 && tree.Dict? && Encodable(tree)
    requires var reply := if ok then Response(id, Nil, tree) else Response(id, tree, Nil); |Encode(reply)| < SIZE_MAX
    ensures var reply := if ok then Response(id, Nil, tree) else Response(id, tree, Nil);
            Receive(Encode(reply) + rest, |Encode(reply)|) == CallResult(if ok then 1 else 0, Some(Rebuilt(tree)))
  {
    if ok {
      MessageComesBack(1, id, Nil, tree, rest);
    } else {
      MessageComesBack(1, id, tree, Nil, rest);
    }
  }

  /**
    A call end to end: the reply carries the request's id, exactly one of its error and result is
    nil, and co_call returns 1 with the tree the command produced, or 0 with the error tree.
   */
  lemma CallEndToEnd<C>(cmds: Tree<C>, exec: (C, Value) -> Outcome, id: nat, k: Key, name: Value, params: Value,
                        o: Outcome, rest: seq<byte>, rest': seq<byte>)
    requires id < 0x1_0000_0000 && params.List? && Encodable(params)
    requires Ordered(cmds) && k != [] && name.Str? && name.text == k + [0] && Encodable(name)
    requires o == if k in Map(cmds) then exec(Map(cmds)[k], Rebuilt(params)) else Outcome(false, None)
    requires |Encode(Request(id, name, params))| < SIZE_MAX
    requires (o.ok ==> o.output.Some?) && (o.output.Some? ==> o.output.value.Dict? && Encodable(o.output.value))
    requires |Encode(Response(id, Nil, if o.output.Some? then o.output.value else IncorrectCommand()))| < SIZE_MAX
    ensures var request := Encode(Request(id, name, params));
            var tree := if o.output.Some? then o.output.value else IncorrectCommand();
            var reply := Dispatch(request + rest, |request|, cmds, exec);
            && reply == Some(if o.ok then Response(id, Nil, tree) else Response(id, tree, Nil))
            && Receive(Encode(reply.value) + rest', |Encode(reply.value)|)
               == CallResult(if o.ok then 1 else 0, Some(Rebuilt(tree)))
            && MeaningOf(Rebuilt(tree)) == MeaningOf(tree) && MeaningOf(Rebuilt(params)) == MeaningOf(params)
  {
    var tree := if o.output.Some? then o.output.value else IncorrectCommand();
    RequestIsServed(cmds, exec, id, k, name, params, o, rest);
    IncorrectCommandEncodable();
    RebuiltMeansTheSame(tree);
    MessageLayout(1, id, Nil, tree);
    MessageLayout(1, id, tree, Nil);
    ReplyIsReceived(id, o.ok, tree, rest');
  }

  /** An empty list is read although nothing is left of the length. */
  lemma EmptyListIsRead(rest: seq<byte>, acc: seq<Value>, used: nat)
    ensures ListEnd(ListLoop([LIST16, 0, 0] + rest, 0, 1, acc, used)) == Ok(acc + [List(false, [])], used + 3)
  {
    var mem := [LIST16, 0, 0] + rest;
    assert mem[1..3] == ToBytes(0, 2);
    BytesRoundTrip(0, 2);
    assert Number(mem, 2) == 0;
    assert DecodeItem(mem, 0) == DecodeList(mem, 0) == Ok(List(false, []), 3);
    assert DecodeElems(mem, 0, 1, acc, used) == DecodeElems(mem[3..], -3, 0, acc + [List(false, [])], used + 3);
  }

  /** A reply that has lost its value: a header, a count of 1 and the bare key. */
  function BareReply(id: nat, key: Key): seq<byte> {
    Header(1, id) + (TreeHead(false, 1) + EncodeKey(key)) + [NIL]
  }

  /**
    What becomes of it: the nil behind the bare key is read as the value, the message ends before its fourth
    part, and co_call returns 0 without a tree.
   */
  lemma BareReplyIsRefused(id: nat, key: Key, rest: seq<byte>)
    requires id < 0x1_0000_0000 && 1 <= |key| < 255 && Inert(rest)
    ensures Receive(BareReply(id, key) + rest, |BareReply(id, key)|) == CallResult(0, None)
  {
    var h, t, k := Header(1, id), TreeHead(false, 1), EncodeKey(key);
    HeaderNeeds(1, id);
    HeadNeeded(false, 1, 1);
    KeyNeeded(key, 2);
    SimpleNeeded(Nil, 1);
    NeedsOn(t, k, 2, 3, 2);
    NeedsOn(h, t + k, 1, 2, 2);
    NeedsOn(h + (t + k), [NIL], 1, 2, 1);
    WantingIsRefused(BareReply(id, key), rest, 1);
  }

  /**
    With an empty list behind it in the receive buffer, that is read as the fourth part, and co_call returns
    1 without a tree.
   */
  lemma BareReplyIsMisread(id: nat, key: Key, rest: seq<byte>)
    requires id < 0x1_0000_0000 && ByteKey(key) && 1 <= |key| < 255 && key[|key| - 1] == 0
    ensures Receive(BareReply(id, key) + ([LIST16, 0, 0] + rest), |BareReply(id, key)|) == CallResult(1, None)
  {
    BareReplyParts(id, key);
    ThreePartsAreMisread([UInt(0, 1), UInt(2, id), OneEntry(key, Nil)], rest);
  }

  /** A message that ends after three parts, and the empty list behind it. */
  lemma ThreePartsAreMisread(vs: seq<Value>, rest: seq<byte>)
    requires |vs| == 3 && |EncodeAll(vs)| + 3 < SIZE_MAX && forall i :: 0 <= i < |vs| ==> ItemComesBack(vs[i])
    ensures Receive((ListHead(false, 4) + EncodeAll(vs)) + ([LIST16, 0, 0] + rest), |EncodeAll(vs)| + 3)
         == CallResult(1, None)
  {
    var tail, n := [LIST16, 0, 0] + rest, |EncodeAll(vs)|;
    ListIsReadOn(vs, rest);
    Reassociate(ListHead(false, 4), EncodeAll(vs), tail);
    ListBodyIsRead(false, 4, EncodeAll(vs) + tail, n + 3);
    ListIsReceived(ListHead(false, 4) + (EncodeAll(vs) + tail), n + 3, RebuiltAll(vs) + [List(false, [])], n + 6);
  }

  lemma ListIsReadOn(vs: seq<Value>, rest: seq<byte>)
    requires |vs| == 3 && |EncodeAll(vs)| < SIZE_MAX && forall i :: 0 <= i < |vs| ==> ItemComesBack(vs[i])
    ensures ListEnd(ListLoop(EncodeAll(vs) + ([LIST16, 0, 0] + rest), |EncodeAll(vs)|, 4, [], 3))
         == Ok(RebuiltAll(vs) + [List(false, [])], |EncodeAll(vs)| + 6)
  {
    ElemsAreRead(vs, [LIST16, 0, 0] + rest, |EncodeAll(vs)|, 1, [], 3);
    assert [] + RebuiltAll(vs) == RebuiltAll(vs);
    EmptyListIsRead(rest, RebuiltAll(vs), 3 + |EncodeAll(vs)|);
  }

  /** A reply whose fourth part is a list. */
  lemma ListIsReceived(mem: seq<byte>, len: nat, elems: seq<Value>, size: nat)
    requires DecodeItem(mem, len) == Ok(List(false, elems), size) && len > 0
    requires |elems| == 4 && elems[3].List? && mem != [] && IsListTag(mem[0])
    ensures Receive(mem, len) == CallResult(1, None)
  {
    assert DecodeItem(mem, len) == DecodeList(mem, len);
  }

  lemma BareReplyParts(id: nat, key: Key)
    requires id < 0x1_0000_0000 && ByteKey(key) && 1 <= |key| < 255 && key[|key| - 1] == 0
    ensures var vs := [UInt(0, 1), UInt(2, id), OneEntry(key, Nil)];
            && BareReply(id, key) == ListHead(false, 4) + EncodeAll(vs) && |EncodeAll(vs)| == |BareReply(id, key)| - 3
            && |EncodeAll(vs)| + 3 < SIZE_MAX
            && forall i :: 0 <= i < |vs| ==> ItemComesBack(vs[i])
  {
    var k, i, t := UInt(0, 1), UInt(2, id), OneEntry(key, Nil);
    BareEntryEncodable(key);
    Powers();
    EncodedComesBack(k);
    EncodedComesBack(i);
    EncodedComesBack(t);
    HeaderParts(1, id);
    EncodeAllCons(t, []);
    EncodeAllCons(i, [t]);
    EncodeAllCons(k, [i, t]);
    assert [i] + [t] == [i, t] && [k] + [i, t] == [k, i, t];
    FourJoined(ListHead(false, 4), Encode(k), Encode(i), TreeHead(false, 1) + EncodeKey(key), [NIL]);
  }

  lemma FourJoined(h: seq<byte>, k: seq<byte>, i: seq<byte>, t: seq<byte>, n: seq<byte>)
    ensures h + (k + (i + ((t + n) + []))) == h + k + i + t + n
  {
  }

  lemma BareEntryEncodable(key: Key)
    requires ByteKey(key) && 1 <= |key| < 255 && key[|key| - 1] == 0
    ensures Encodable(OneEntry(key, Nil))
    ensures Encode(OneEntry(key, Nil)) == (TreeHead(false, 1) + EncodeKey(key)) + [NIL]
    ensures |Encode(OneEntry(key, Nil))| == 6 + |key|
  {
    assert [] + key == key && StoredKey(key) == key;
    OneBinding([], key, Nil);
    OneEntryEncoded(key, key, Nil);
    Reassociate(TreeHead(false, 1), EncodeKey(key), [NIL]);
  }

  // ---------------------------------------------------------------- the two ends as they run

  /** The buffers of the daemon, and those of its clients. */
  const REQUEST_MAX: nat := 4096
  const RESPONSE_MAX: nat := 4096
  const CLIENT_MAX: nat := 65536

  /** The bytes of a response in the daemon's buffer; None is the length (size_t)-1. */
  function Reply(response: Value): Option<seq<byte>>
    requires response.List? && |response.elems| == 4 && response.elems[1].UInt?
  {
    Packed(1, response.elems[1].u, response.elems[2], response.elems[3], RESPONSE_MAX)
  }

  predicate ReplyFits(response: Value)
    requires response.List? && |response.elems| == 4
  {
    MessageFits(response.elems[2], response.elems[3], RESPONSE_MAX)
  }

  /** dispatcher_cb, with the received bytes in `input` and its own buffer for the response. */
  method DispatcherCb<C>(input: seq<byte>, reqlen: nat, cmds: Tree<C>, exec: (C, Value) -> Outcome,
                         respbuf: array<byte>)
      returns (ret: int, sent: Option<int>)
    requires reqlen <= 4096 && respbuf.Length == 4096
    requires var reply := Dispatch(input, reqlen, cmds, exec);
             reply.Some? ==> Writable(reply.value) && |Encode(reply.value)| <= RESPONSE_MAX
    modifies respbuf
    ensures reqlen == 0 ==> ret == 1 && sent == None
    ensures var reply := Dispatch(input, reqlen, cmds, exec);
            reqlen > 0 && reply.Some? ==>
              ret == 1 && sent.Some? && Left(respbuf[..], 0, Reply(reply.value), sent.value)
              && (sent == Some(|Encode(reply.value)|) <==> ReplyFits(reply.value))
              && (ReplyFits(reply.value) ==> StandsAt(respbuf[..], 0, Encode(reply.value)))
    ensures reqlen > 0 && Ran(input, reqlen, cmds, exec) == None ==> ret == 0 && sent == None
    ensures reqlen > 0 && Ran(input, reqlen, cmds, exec).Some? && Dispatch(input, reqlen, cmds, exec) == None ==>
              ret == 1 && sent == Some(-1)
  {
    if reqlen == 0 {
      return 1, None;
    }
    var d := ImportList(input, 0, reqlen);
    assert input[0..] == input;
    if d.Fail? || !d.value.List? || |d.value.elems| != 4 {
      return 0, None;
    }
    var elems := d.value.elems;
    var kind, id := DataOf(elems[0]), DataOf(elems[1]);
    if kind.None? || id.None? || kind.value == [] || kind.value[0] != 0 || |id.value| != 4 {
      return 0, None;
    }
    var o := Execute(cmds, exec, elems[2], elems[3]);
    var number := FromBytes(id.value);
    Powers();
    var length: int;
    if o.ok {
      if o.output.None? {
        return 1, Some(-1);
      }
      length := Respond(respbuf, number, Nil, o.output.value);
    } else {
      length := Respond(respbuf, number, if o.output.Some? then o.output.value else IncorrectCommand(), Nil);
    }
    return 1, Some(length);
  }

  method Respond(respbuf: array<byte>, id: nat, error: Value, result: Value) returns (length: int)
    requires id < 0x1_0000_0000 && respbuf.Length == RESPONSE_MAX
    requires Writable(Response(id, error, result)) && |Encode(Response(id, error, result))| <= RESPONSE_MAX
    modifies respbuf
    ensures Left(respbuf[..], 0, Reply(Response(id, error, result)), length)
    ensures length == |Encode(Response(id, error, result))| <==> ReplyFits(Response(id, error, result))
    ensures ReplyFits(Response(id, error, result)) ==> StandsAt(respbuf[..], 0, Encode(Response(id, error, result)))
  {
    var elems := Response(id, error, result).elems;
    assert elems[2] in elems && elems[3] in elems;
    PackedExactly(1, id, error, result, RESPONSE_MAX);
    length := ResponseAlloc(respbuf, RESPONSE_MAX, id, error, result);
  }

  /**
    co_call: `peer` is what the other end sends back for a message, and `behind` what lies behind that in the
    receive buffer. The transport refuses to send the length (size_t)-1 that a request without room gets.
   */
  method CoCall(ids: RequestIds, reqbuf: array<byte>, peer: seq<byte> -> seq<byte>, behind: seq<byte>,
                name: seq<byte>, params: Value)
      returns (r: CallResult, sent: Option<seq<byte>>)
    requires 1 <= |name| < 255 && name[|name| - 1] == 0 && ids.next < 0x1_0000_0000
    requires params.List? && Writable(params) && reqbuf.Length == 65536
    requires Shallow(params) || |Encode(Request(ids.next, Str(0, name), params))| <= CLIENT_MAX
    modifies ids, reqbuf
    ensures ids.next == (old(ids.next) + 1) % 0x1_0000_0000
    ensures sent == Packed(0, old(ids.next), Str(0, name), params, CLIENT_MAX)
    ensures sent == Some(Encode(Request(old(ids.next), Str(0, name), params)))
       <==> MessageFits(Str(0, name), params, CLIENT_MAX)
    ensures r == match sent case None => CallResult(0, None) case Some(m) => Receive(peer(m) + behind, |peer(m)|)
  {
    PackedExactly(0, ids.next, Str(0, name), params, CLIENT_MAX);
    var reqlen := ids.RequestAlloc(reqbuf, reqbuf.Length, Str(0, name), params);
    if reqlen == -1 {
      return CallResult(0, None), None;
    }
    sent := Some(reqbuf[..reqlen]);
    r := Answer(peer(sent.value) + behind, |peer(sent.value)|);
  }

  /** The part of co_call after `resplen` bytes came in. */
  method Answer(resp: seq<byte>, resplen: nat) returns (r: CallResult)
    ensures r == Receive(resp, resplen)
  {
    if resplen == 0 {
      return CallResult(0, None);
    }
    var d := ImportList(resp, 0, resplen);
    assert resp[0..] == resp;
    if d.Fail? || !d.value.List? || |d.value.elems| != 4 {
      return CallResult(0, None);
    }
    var rtree, retval := d.value.elems[3], 1;
    if rtree == Nil {
      rtree, retval := d.value.elems[2], 0;
    }
    r := CallResult(retval, if rtree.Dict? then Some(rtree) else None);
  }

  /**
    The bytes the daemon sends back for a message, with `behind` what lies behind that in its buffer; nothing
    is sent for a length of (size_t)-1.
   */
  function Served<C>(cmds: Tree<C>, exec: (C, Value) -> Outcome, message: seq<byte>, behind: seq<byte>): seq<byte> {
    var input := if |message| <= REQUEST_MAX then message else message[..REQUEST_MAX];
    Answered(Dispatch(input + behind, |input|, cmds, exec))
  }

  /** Of a longer message it sees the first 4096 bytes. */
  lemma LongMessageIsCut<C>(cmds: Tree<C>, exec: (C, Value) -> Outcome, message: seq<byte>, behind: seq<byte>)
    requires |message| > 4096
    ensures Served(cmds, exec, message, behind) == Served(cmds, exec, message[..4096], behind)
    ensures Served(cmds, exec, message, behind) == Answered(Dispatch(message[..4096] + behind, 4096, cmds, exec))
  {
  }

  function Answered(response: Option<Value>): seq<byte>
    requires response.Some? ==>
      response.value.List? && |response.value.elems| == 4 && response.value.elems[1].UInt?
  {
    match response
    case None => []
    case Some(r) => match Reply(r) case None => [] case Some(bytes) => bytes
  }

  /**
    A call through the buffers of both ends, of a request that fits both. The daemon sends the whole reply if
    and only if that fits its buffer, and then co_call returns 1 with the tree the command produced, or 0 with
    the error tree, whatever lies behind the messages. Otherwise it returns 0 without a tree, unless the bytes
    behind the answer are such as a decoder reads on at.
   */
  lemma CallThroughBuffers<C>(cmds: Tree<C>, exec: (C, Value) -> Outcome, id: nat, k: Key, name: Value, params: Value,
                              o: Outcome, rest: seq<byte>, rest': seq<byte>)
    requires id < 0x1_0000_0000 && params.List? && Encodable(params)
    requires Ordered(cmds) && k != [] && name.Str? && name.text == k + [0] && Encodable(name)
    requires o == if k in Map(cmds) then exec(Map(cmds)[k], Rebuilt(params)) else Outcome(false, None)
    requires |Encode(Request(id, name, params))| <= 4096 && MessageFits(name, params, 65536)
    requires (o.ok ==> o.output.Some?) && (o.output.Some? ==> o.output.value.Dict? && Encodable(o.output.value))
    ensures Packed(0, id, name, params, 65536) == Some(Encode(Request(id, name, params)))
    ensures var tree := if o.output.Some? then o.output.value else IncorrectCommand();
            var reply := if o.ok then Response(id, Nil, tree) else Response(id, tree, Nil);
            var answer := Served(cmds, exec, Encode(Request(id, name, params)), rest);
            var received, whole :=
              Receive(answer + rest', |answer|), CallResult(if o.ok then 1 else 0, Some(Rebuilt(tree)));
            var fits := MessageFits(reply.elems[2], reply.elems[3], 4096);
            && (answer == Encode(reply) <==> fits)
            && (fits ==> received == whole)
            && (!fits && Inert(rest') ==> received == CallResult(0, None))
            && (Inert(rest') ==> (received == whole <==> fits))
            && MeaningOf(Rebuilt(tree)) == MeaningOf(tree) && MeaningOf(Rebuilt(params)) == MeaningOf(params)
  {
    PackedExactly(0, id, name, params, CLIENT_MAX);
    ServedAs(cmds, exec, id, k, name, params, o, rest);
    AnswerTo(id, o, rest');
  }

  lemma ServedAs<C>(cmds: Tree<C>, exec: (C, Value) -> Outcome, id: nat, k: Key, name: Value, params: Value,
                    o: Outcome, rest: seq<byte>)
    requires id < 0x1_0000_0000 && params.List? && Encodable(params)
    requires Ordered(cmds) && k != [] && name.Str? && name.text == k + [0] && Encodable(name)
    requires o == if k in Map(cmds) then exec(Map(cmds)[k], Rebuilt(params)) else Outcome(false, None)
    requires |Encode(Request(id, name, params))| <= REQUEST_MAX
    ensures Served(cmds, exec, Encode(Request(id, name, params)), rest) == Answered(ResponseTo(id, o))
    ensures MeaningOf(Rebuilt(params)) == MeaningOf(params)
  {
    RequestIsServed(cmds, exec, id, k, name, params, o, rest);
  }

  lemma AnswerTo(id: nat, o: Outcome, rest: seq<byte>)
    requires id < 0x1_0000_0000 && (o.ok ==> o.output.Some?)
    requires o.output.Some? ==> o.output.value.Dict? && Encodable(o.output.value)
    ensures var tree := if o.output.Some? then o.output.value else IncorrectCommand();
            var reply := if o.ok then Response(id, Nil, tree) else Response(id, tree, Nil);
            var answer := Answered(ResponseTo(id, o));
            var received, whole :=
              Receive(answer + rest, |answer|), CallResult(if o.ok then 1 else 0, Some(Rebuilt(tree)));
            var fits := MessageFits(reply.elems[2], reply.elems[3], 4096);
            && (answer == Encode(reply) <==> fits)
            && (fits ==> received == whole)
            && (!fits && Inert(rest) ==> received == CallResult(0, None))
            && (Inert(rest) ==> (received == whole <==> fits))
            && MeaningOf(Rebuilt(tree)) == MeaningOf(tree)
  {
    IncorrectCommandEncodable();
    AnswerIs(id, o.ok, if o.output.Some? then o.output.value else IncorrectCommand(), rest);
  }

  /** The reply with a tree in its result or its error part, through the daemon's buffer. */
  lemma AnswerIs(id: nat, ok: bool, tree: Value, rest: seq<byte>)
    requires id < 0x1_0000_0000 && tree.Dict? && Encodable(tree)
    ensures var reply := if ok then Response(id, Nil, tree) else Response(id, tree, Nil);
            var answer := Answered(Some(reply));
            var received, whole :=
              Receive(answer + rest, |answer|), CallResult(if ok then 1 else 0, Some(Rebuilt(tree)));
            var fits := MessageFits(reply.elems[2], reply.elems[3], 4096);
            && (answer == Encode(reply) <==> fits)
            && (fits ==> received == whole)
            && (!fits && Inert(rest) ==> received == CallResult(0, None))
            && (Inert(rest) ==> (received == whole <==> fits))
            && MeaningOf(Rebuilt(tree)) == MeaningOf(tree)
  {
    var a, b := if ok then Nil else tree, if ok then tree else Nil;
    PackedExactly(1, id, a, b, RESPONSE_MAX);
    RebuiltMeansTheSame(tree);
    if ReplyFits(Response(id, a, b)) {
      ReplyIsReceived(id, ok, tree, rest);
    } else if Inert(rest) {
      CutMessageIsRefused(1, id, a, b, RESPONSE_MAX, rest);
    }
  }

  /** A request that loses values in the caller's buffer is not dispatched, and co_call returns 0 without a tree. */
  lemma CutRequestIsRefused<C>(cmds: Tree<C>, exec: (C, Value) -> Outcome, id: nat, name: Value, params: Value,
                               rest: seq<byte>, rest': seq<byte>)
    requires id < 0x1_0000_0000 && name.Str? && Encodable(name) && params.List? && Encodable(params)
    requires !MessageFits(name, params, CLIENT_MAX) && Inert(rest)
    ensures var r := Packed(0, id, name, params, CLIENT_MAX);
            r.Some? && |r.value| <= REQUEST_MAX ==>
              var answer := Served(cmds, exec, r.value, rest);
              answer == [] && Receive(answer + rest', |answer|) == CallResult(0, None)
  {
    CutMessageIsRefused(0, id, name, params, CLIENT_MAX, rest);
  }
}
