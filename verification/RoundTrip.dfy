/** Decoding what was encoded gives the value back, whatever bytes follow it. */
module RoundTrip {
  import opened Sequences
  import opened Options
  import opened Bytes
  import opened TernaryTree
  import opened Values
  import opened Decoder

  // ---------------------------------------------------------------- the domain

  /** The longest string or binary the constructors take. */
  function Most(len: Log): nat {
    if len == 0 then 254 else if len == 1 then 65534 else 2147483623
  }

  predicate SimpleEncodable(v: Value) {
    match v
    case Nil => true
    case Bool(_) => true
    case Float32(bits) => |bits| == 4
    case Float64(bits) => |bits| == 8
    case UInt(log, u) => u < Pow256(Width(log)) && (log == 3 ==> u < 0x1_0000_0000)
    case Int(log, i) => SignedFits(i, Width(log)) && (log == 3 ==> 0 <= i < 0x1_0000_0000)
    case Str(len, text) => len < 3 && 1 <= |text| <= Most(len) && text[|text| - 1] == 0
    case Bin(len, data) => len < 3 && |data| <= Most(len)
    case _ => false
  }

  /** What the fields of an object can hold at all. */
  predicate Representable(v: Value) {
    match v
    case Float32(bits) => |bits| == 4
    case Float64(bits) => |bits| == 8
    case UInt(log, u) => u < Pow256(Width(log))
    case Int(log, i) => SignedFits(i, Width(log))
    case Str(len, text) => len < 3 && |text| < Pow256(Width(len))
    case Bin(len, data) => len < 3 && |data| < Pow256(Width(len))
    case List(_, _) => false
    case Dict(_, _, _) => false
    case _ => true
  }

  /** Bound nodes store the key spelled by the way down to them, short enough for a str8. */
  predicate KeysSpelled(t: Tree<Value>, prefix: Key) {
    t.Node? ==>
      && KeysSpelled(t.low, prefix) && KeysSpelled(t.equal, prefix + [t.split]) && KeysSpelled(t.high, prefix)
      && (t.value.Some? ==> t.key == Some(prefix + [t.split]) && ByteKey(prefix + [t.split]) && |prefix| + 1 < 255)
  }

  function Bound(t: Tree<Value>): nat {
    if t.Empty? then 0 else (if t.value.Some? then 1 else 0) + Bound(t.low) + Bound(t.equal) + Bound(t.high)
  }

  ghost predicate Encodable(v: Value)
    decreases v
  {
    match v
    case List(wide, elems) =>
      |elems| < Capacity(wide) && forall e :: e in elems ==> Encodable(e)
    case Dict(wide, count, root) =>
      && count == Bound(root) < Capacity(wide)
      && Ordered(root) && KeysSpelled(root, []) && ValuesEncodable(root)
    case _ => SimpleEncodable(v)
  }

  ghost predicate ValuesEncodable(t: Tree<Value>)
    decreases t
  {
    t.Node? ==>
      && ValuesEncodable(t.low) && ValuesEncodable(t.equal) && ValuesEncodable(t.high)
      && (t.value.Some? ==> Encodable(t.value.value))
  }

  // ---------------------------------------------------------------- what comes back

  /** The value a decoder builds: the trees in it are rebuilt by insertion, in the order of the encoding. */
  function Rebuilt(v: Value): Value
    decreases v
  {
    match v
    case List(wide, elems) => List(wide, RebuiltAll(elems))
    case Dict(wide, count, root) => Dict(wide, count, RebuildInto(Empty, root))
    case _ => v
  }

  function RebuiltAll(vs: seq<Value>): (r: seq<Value>)
    ensures |r| == |vs|
    decreases vs
  {
    if vs == [] then [] else [Rebuilt(vs[0])] + RebuiltAll(vs[1..])
  }

  function RebuildInto(acc: Tree<Value>, t: Tree<Value>): Tree<Value>
    decreases t
  {
    if t.Empty? then acc else
      var acc' := if t.value.Some? && t.key.Some? && t.key.value != []
                  then Insert(acc, t.key.value, t.key.value, Rebuilt(t.value.value)) else acc;
      RebuildInto(RebuildInto(RebuildInto(acc', t.low), t.equal), t.high)
  }

  // ---------------------------------------------------------------- simple objects

  lemma HeadAndTail(tag: byte, a: seq<byte>, b: seq<byte>, rest: seq<byte>)
    ensures var s := ([tag] + a + b) + rest;
            s[0] == tag && s[1..1 + |a|] == a && s[1 + |a|..1 + |a| + |b|] == b && s[1 + |a| + |b|..] == rest
  {
  }

  lemma HeadOnly(tag: byte, a: seq<byte>, rest: seq<byte>)
    ensures var s := ([tag] + a) + rest; s[0] == tag && s[1..1 + |a|] == a && s[1 + |a|..] == rest
  {
  }

  ghost predicate ComesBack(v: Value, rest: seq<byte>) {
    DecodeSimple(Encode(v) + rest) == Ok(v, |Encode(v)|)
  }

  lemma FloatComesBack(v: Value, rest: seq<byte>)
    requires (v.Float32? && |v.bits32| == 4) || (v.Float64? && |v.bits64| == 8)
    ensures ComesBack(v, rest)
  {
    match v {
      case Float32(bits) => HeadOnly(FLOAT32, bits, rest);
      case Float64(bits) => HeadOnly(FLOAT64, bits, rest);
    }
  }

  /** A 64-bit number comes back exactly when it is below 2^32. */
  lemma UIntComesBack(log: Log, u: nat, rest: seq<byte>)
    requires u < Pow256(Width(log))
    ensures ComesBack(UInt(log, u), rest) <==> (log == 3 ==> u < 0x1_0000_0000)
  {
    HeadOnly(UINT8 + log, ToBytes(u, Width(log)), rest);
    BytesRoundTrip(u, Width(log));
  }

  lemma IntComesBack(log: Log, i: int, rest: seq<byte>)
    requires SignedFits(i, Width(log))
    ensures ComesBack(Int(log, i), rest) <==> (log == 3 ==> 0 <= i < 0x1_0000_0000)
  {
    var w := Width(log);
    SignedRoundTrip(i, w);
    HeadOnly(INT8 + log, ToBytes(Unsigned(i, w), w), rest);
    BytesRoundTrip(Unsigned(i, w), w);
  }

  lemma CountedReads(tag: byte, len: Log, data: seq<byte>, rest: seq<byte>, make: (Log, seq<byte>) -> Option<Value>)
    requires |data| < Pow256(Width(len))
    ensures var head := [tag] + ToBytes(|data|, Width(len)) + data;
            Counted(head + rest, len, make) ==
            match make(len, data) case Some(v) => Ok(v, |head|) case None => Fail
  {
    HeadAndTail(tag, ToBytes(|data|, Width(len)), data, rest);
    BytesRoundTrip(|data|, Width(len));
  }

  lemma MakeStrKeeps(len: Log, text: seq<byte>)
    ensures MakeStr(len, text) == Some(Str(len, text)) <==>
            1 <= |text| <= Most(len) && text[|text| - 1] == 0
  {
    if text != [] {
      var t := text[..|text| - 1] + [0];
      assert t[|t| - 1] == 0;
      assert text == text[..|text| - 1] + [text[|text| - 1]];
    }
  }

  lemma CountedTags(mem: seq<byte>, len: Log)
    requires mem != [] && len < 3
    ensures mem[0] == STR8 + len ==> DecodeSimple(mem) == Counted(mem, len, MakeStr)
    ensures mem[0] == BIN8 + len ==> DecodeSimple(mem) == Counted(mem, len, MakeBin)
  {
  }

  lemma StrIsRead(len: Log, text: seq<byte>, rest: seq<byte>)
    requires len < 3 && |text| < Pow256(Width(len))
    ensures var e := Encode(Str(len, text));
            DecodeSimple(e + rest) == match MakeStr(len, text) case Some(v) => Ok(v, |e|) case None => Fail
  {
    CountedReads(STR8 + len, len, text, rest, MakeStr);
    CountedTags(Encode(Str(len, text)) + rest, len);
  }

  /** A string comes back exactly when it is not empty, ends in NUL and is not too long for its constructor. */
  lemma StrComesBack(len: Log, text: seq<byte>, rest: seq<byte>)
    requires len < 3 && |text| < Pow256(Width(len))
    ensures ComesBack(Str(len, text), rest) <==> 1 <= |text| <= Most(len) && text[|text| - 1] == 0
  {
    StrIsRead(len, text, rest);
    MakeStrKeeps(len, text);
  }

  lemma BinComesBack(len: Log, data: seq<byte>, rest: seq<byte>)
    requires len < 3 && |data| < Pow256(Width(len))
    ensures ComesBack(Bin(len, data), rest) <==> |data| <= Most(len)
  {
    CountedReads(BIN8 + len, len, data, rest, MakeBin);
    CountedTags(Encode(Bin(len, data)) + rest, len);
  }

  /** For the simple objects the domain is exact: outside it, what comes back is different or nothing. */
  lemma SimpleRoundTrip(v: Value, rest: seq<byte>)
    requires Representable(v)
    ensures SimpleEncodable(v) <==> ComesBack(v, rest)
  {
    match v {
      case Nil =>
      case Bool(_) =>
      case Float32(_) => FloatComesBack(v, rest);
      case Float64(_) => FloatComesBack(v, rest);
      case UInt(log, u) => UIntComesBack(log, u, rest);
      case Int(log, i) => IntComesBack(log, i, rest);
      case Str(len, text) => StrComesBack(len, text, rest);
      case Bin(len, data) => BinComesBack(len, data, rest);
    }
  }

  // ---------------------------------------------------------------- the pairs of a tree, in encoding order

  function Pairs(t: Tree<Value>): seq<(Key, Value)> {
    if t.Empty? then [] else
      (if t.value.Some? && t.key.Some? then [(t.key.value, t.value.value)] else [])
      + (Pairs(t.low) + Pairs(t.equal) + Pairs(t.high))
  }

  function EncodePairs(ps: seq<(Key, Value)>): seq<byte> {
    if ps == [] then [] else EncodeKey(ps[0].0) + Encode(ps[0].1) + EncodePairs(ps[1..])
  }

  function InsertRebuilt(acc: Tree<Value>, ps: seq<(Key, Value)>): Tree<Value>
    decreases |ps|
  {
    if ps == [] then acc else
      InsertRebuilt(if ps[0].0 == [] then acc else Insert(acc, ps[0].0, ps[0].0, Rebuilt(ps[0].1)), ps[1..])
  }

  lemma {:induction false} EncodePairsConcat(a: seq<(Key, Value)>, b: seq<(Key, Value)>)
    ensures EncodePairs(a + b) == EncodePairs(a) + EncodePairs(b)
  {
    if a == [] {
      assert a + b == b;
    } else {
      assert (a + b)[1..] == a[1..] + b;
      EncodePairsConcat(a[1..], b);
    }
  }

  lemma {:induction false} NodesEncodePairs(t: Tree<Value>)
    ensures EncodeNodes(t) == EncodePairs(Pairs(t))
  {
    if t.Node? {
      NodesEncodePairs(t.low);
      NodesEncodePairs(t.equal);
      NodesEncodePairs(t.high);
      if t.value.Some? && t.key.Some? {
        OnePairEncodes(t.key.value, t.value.value);
        FourPartsEncode([(t.key.value, t.value.value)], Pairs(t.low), Pairs(t.equal), Pairs(t.high));
      } else {
        FourPartsEncode([], Pairs(t.low), Pairs(t.equal), Pairs(t.high));
      }
    }
  }

  lemma OnePairEncodes(k: Key, v: Value)
    ensures EncodePairs([(k, v)]) == EncodeKey(k) + Encode(v)
  {
    assert [(k, v)][1..] == [];
  }

  lemma FourPartsEncode(own: seq<(Key, Value)>, l: seq<(Key, Value)>, e: seq<(Key, Value)>, h: seq<(Key, Value)>)
    ensures EncodePairs(own + (l + e + h)) ==
            EncodePairs(own) + (EncodePairs(l) + EncodePairs(e) + EncodePairs(h))
  {
    EncodePairsConcat(l, e);
    EncodePairsConcat(l + e, h);
    EncodePairsConcat(own, l + e + h);
  }

  lemma {:induction false} InsertRebuiltConcat(acc: Tree<Value>, a: seq<(Key, Value)>, b: seq<(Key, Value)>)
    ensures InsertRebuilt(acc, a + b) == InsertRebuilt(InsertRebuilt(acc, a), b)
    decreases |a|
  {
    if a == [] {
      assert a + b == b;
    } else {
      assert (a + b)[1..] == a[1..] + b;
      InsertRebuiltConcat(if a[0].0 == [] then acc else Insert(acc, a[0].0, a[0].0, Rebuilt(a[0].1)), a[1..], b);
    }
  }

  lemma {:induction false} RebuildInsertsPairs(acc: Tree<Value>, t: Tree<Value>, prefix: Key)
    requires KeysSpelled(t, prefix)
    ensures RebuildInto(acc, t) == InsertRebuilt(acc, Pairs(t))
    ensures |Pairs(t)| == Bound(t)
    decreases t
  {
    if t.Node? {
      var own := if t.value.Some? && t.key.Some? then [(t.key.value, t.value.value)] else [];
      var l, e, h := Pairs(t.low), Pairs(t.equal), Pairs(t.high);
      var acc' := if own != [] then Insert(acc, own[0].0, own[0].0, Rebuilt(own[0].1)) else acc;
      RebuildInsertsPairs(acc', t.low, prefix);
      RebuildInsertsPairs(RebuildInto(acc', t.low), t.equal, prefix + [t.split]);
      RebuildInsertsPairs(RebuildInto(RebuildInto(acc', t.low), t.equal), t.high, prefix);
      assert acc' == InsertRebuilt(acc, own);
      FourPartsInsert(acc, own, l, e, h);
    }
  }

  lemma FourPartsInsert(acc: Tree<Value>, own: seq<(Key, Value)>, l: seq<(Key, Value)>, e: seq<(Key, Value)>,
                        h: seq<(Key, Value)>)
    ensures InsertRebuilt(acc, own + (l + e + h)) ==
            InsertRebuilt(InsertRebuilt(InsertRebuilt(InsertRebuilt(acc, own), l), e), h)
  {
    InsertRebuiltConcat(InsertRebuilt(acc, own), l, e);
    InsertRebuiltConcat(InsertRebuilt(acc, own), l + e, h);
    InsertRebuiltConcat(acc, own, l + e + h);
  }

  /** No later key is a prefix of an earlier one: a prefix of a key is emitted before it. */
  ghost predicate PrefixesFirst(ps: seq<(Key, Value)>) {
    forall i, j :: 0 <= i < j < |ps| ==> !(ps[j].0 <= ps[i].0)
  }

  lemma {:induction false} PairKeysExtend(t: Tree<Value>, prefix: Key, i: nat)
    requires KeysSpelled(t, prefix) && i < |Pairs(t)|
    ensures var k := Pairs(t)[i].0;
            && |k| > |prefix| && prefix <= k && k[|prefix|] in Heads(t) && ByteKey(k) && |k| < 255
  {
    var own := if t.value.Some? && t.key.Some? then [(t.key.value, t.value.value)] else [];
    var l, e := Pairs(t.low), Pairs(t.equal);
    var here := prefix + [t.split];
    if i < |own| {
    } else if i - |own| < |l| {
      PairKeysExtend(t.low, prefix, i - |own|);
    } else if i - |own| - |l| < |e| {
      PairKeysExtend(t.equal, here, i - |own| - |l|);
      assert Pairs(t)[i].0[|prefix|] == here[|prefix|];
    } else {
      PairKeysExtend(t.high, prefix, i - |own| - |l| - |e|);
    }
  }

  ghost predicate NoLaterPrefix(a: seq<(Key, Value)>, b: seq<(Key, Value)>) {
    forall i, j :: 0 <= i < |a| && 0 <= j < |b| ==> !(b[j].0 <= a[i].0)
  }

  lemma PrefixesFirstConcat(a: seq<(Key, Value)>, b: seq<(Key, Value)>)
    requires PrefixesFirst(a) && PrefixesFirst(b) && NoLaterPrefix(a, b)
    ensures PrefixesFirst(a + b)
  {
  }

  /** All keys start with the prefix and a character of the set. */
  ghost predicate Under(ps: seq<(Key, Value)>, prefix: Key, heads: set<int>) {
    forall i :: 0 <= i < |ps| ==> |ps[i].0| > |prefix| && prefix <= ps[i].0 && ps[i].0[|prefix|] in heads
  }

  lemma PairsUnderPrefix(t: Tree<Value>, prefix: Key)
    requires KeysSpelled(t, prefix)
    ensures Under(Pairs(t), prefix, Heads(t))
  {
    forall i | 0 <= i < |Pairs(t)|
      ensures var k := Pairs(t)[i].0; |k| > |prefix| && prefix <= k && k[|prefix|] in Heads(t) {
      PairKeysExtend(t, prefix, i);
    }
  }

  lemma UnderShorterPrefix(ps: seq<(Key, Value)>, prefix: Key, c: int, heads: set<int>)
    requires Under(ps, prefix + [c], heads)
    ensures Under(ps, prefix, {c})
    ensures NoLaterPrefix([(prefix + [c], Nil)], ps)
  {
    var here := prefix + [c];
    forall i | 0 <= i < |ps| ensures prefix <= ps[i].0 && ps[i].0[|prefix|] == c {
      assert here <= ps[i].0 && here[|prefix|] == c;
    }
  }

  lemma DisjointHeads(a: seq<(Key, Value)>, b: seq<(Key, Value)>, prefix: Key, s: set<int>, s': set<int>)
    requires Under(a, prefix, s) && Under(b, prefix, s') && s !! s'
    ensures NoLaterPrefix(a, b)
  {
    forall i, j | 0 <= i < |a| && 0 <= j < |b| ensures !(b[j].0 <= a[i].0) {
      assert b[j].0[|prefix|] != a[i].0[|prefix|];
    }
  }

  lemma {:induction false} PairsPutPrefixesFirst(t: Tree<Value>, prefix: Key)
    requires Ordered(t) && KeysSpelled(t, prefix)
    ensures PrefixesFirst(Pairs(t))
  {
    if t.Node? {
      var own := if t.value.Some? && t.key.Some? then [(t.key.value, t.value.value)] else [];
      var l, e, h := Pairs(t.low), Pairs(t.equal), Pairs(t.high);
      var here := prefix + [t.split];
      PairsPutPrefixesFirst(t.low, prefix);
      PairsPutPrefixesFirst(t.equal, here);
      PairsPutPrefixesFirst(t.high, prefix);
      PairsUnderPrefix(t.low, prefix);
      PairsUnderPrefix(t.equal, here);
      PairsUnderPrefix(t.high, prefix);
      UnderShorterPrefix(e, prefix, t.split, Heads(t.equal));
      assert Under(own, prefix, {t.split});
      DisjointHeads(own, l, prefix, {t.split}, Heads(t.low));
      DisjointHeads(own, h, prefix, {t.split}, Heads(t.high));
      DisjointHeads(l, e, prefix, Heads(t.low), {t.split});
      assert Heads(t.low) !! Heads(t.high) by {
        forall c | c in Heads(t.low) ensures c !in Heads(t.high) { assert c < t.split; }
      }
      DisjointHeads(l, h, prefix, Heads(t.low), Heads(t.high));
      DisjointHeads(e, h, prefix, {t.split}, Heads(t.high));
      assert NoLaterPrefix(own, e);
      FourPartsInOrder(own, l, e, h);
    }
  }

  lemma FourPartsInOrder(own: seq<(Key, Value)>, l: seq<(Key, Value)>, e: seq<(Key, Value)>, h: seq<(Key, Value)>)
    requires PrefixesFirst(own) && PrefixesFirst(l) && PrefixesFirst(e) && PrefixesFirst(h)
    requires NoLaterPrefix(own, l) && NoLaterPrefix(own, e) && NoLaterPrefix(own, h)
    requires NoLaterPrefix(l, e) && NoLaterPrefix(l, h) && NoLaterPrefix(e, h)
    ensures PrefixesFirst(own + (l + e + h))
  {
    PrefixesFirstConcat(l, e);
    PrefixesFirstConcat(l + e, h);
    PrefixesFirstConcat(own, l + e + h);
  }

  // ---------------------------------------------------------------- nested objects

  /** Decoding what was encoded, with any bytes behind it and any sufficient length. */
  ghost predicate ItemComesBack(v: Value) {
    forall rest: seq<byte>, left: nat :: |Encode(v)| <= left < SIZE_MAX ==>
      DecodeItem(Encode(v) + rest, left) == Ok(Rebuilt(v), |Encode(v)|)
  }

  /** None of the keys is a path of the tree built so far, and all the values decode. */
  ghost predicate Insertable(acc: Tree<Value>, ps: seq<(Key, Value)>) {
    forall i :: 0 <= i < |ps| ==>
      ByteKey(ps[i].0) && 1 <= |ps[i].0| < 255 && !HasPath(acc, ps[i].0) && ItemComesBack(ps[i].1)
  }

  /** Insertion of the first pair: the others stay insertable. */
  lemma InsertableTail(acc: Tree<Value>, ps: seq<(Key, Value)>) returns (next: Tree<Value>)
    requires ps != [] && Insertable(acc, ps) && PrefixesFirst(ps)
    ensures ps[0].0 != [] && next == Insert(acc, ps[0].0, ps[0].0, Rebuilt(ps[0].1))
    ensures Insertable(next, ps[1..]) && PrefixesFirst(ps[1..])
    ensures InsertRebuilt(acc, ps) == InsertRebuilt(next, ps[1..])
  {
    next := Insert(acc, ps[0].0, ps[0].0, Rebuilt(ps[0].1));
    forall i | 0 <= i < |ps[1..]| ensures !HasPath(next, ps[1..][i].0) {
      PathInsert(acc, ps[0].0, ps[0].0, Rebuilt(ps[0].1), ps[i + 1].0);
    }
  }

  /** Import never rejects the encoded pairs, whatever the count says: none of the insertions is refused. */
  lemma {:induction false} PairsAreRead(ps: seq<(Key, Value)>, rest: seq<byte>, left: int, n: nat, acc: Tree<Value>,
                                        used: nat)
    requires Insertable(acc, ps) && PrefixesFirst(ps) && |ps| <= n
    requires |EncodePairs(ps)| <= left < SIZE_MAX
    ensures End(Loop(EncodePairs(ps) + rest, left, n, acc, used)) ==
            End(Loop(rest, left - |EncodePairs(ps)|, n - |ps|, InsertRebuilt(acc, ps), used + |EncodePairs(ps)|))
    decreases |ps|
  {
    if ps == [] {
      assert [] + rest == rest;
    } else {
      var size := 2 + |ps[0].0| + |Encode(ps[0].1)|;
      var next := FirstPairRead(ps, rest, left, n, acc, used);
      PairsAreRead(ps[1..], rest, left - size, n - 1, next, used + size);
    }
  }

  lemma FirstPairRead(ps: seq<(Key, Value)>, rest: seq<byte>, left: int, n: nat, acc: Tree<Value>, used: nat)
      returns (next: Tree<Value>)
    requires ps != [] && Insertable(acc, ps) && PrefixesFirst(ps) && n > 0
    requires |EncodePairs(ps)| <= left < SIZE_MAX
    ensures Insertable(next, ps[1..]) && PrefixesFirst(ps[1..])
    ensures InsertRebuilt(acc, ps) == InsertRebuilt(next, ps[1..])
    ensures var size := 2 + |ps[0].0| + |Encode(ps[0].1)|;
            |EncodePairs(ps)| == size + |EncodePairs(ps[1..])| &&
            End(Loop(EncodePairs(ps) + rest, left, n, acc, used)) ==
            End(Loop(EncodePairs(ps[1..]) + rest, left - size, n - 1, next, used + size))
  {
    next := InsertableTail(acc, ps);
    FirstPairFirst(ps, rest);
    OnePairComesBack(ps[0].0, ps[0].1, EncodePairs(ps[1..]) + rest, left, n, acc, used);
  }

  /** So the right count gives back all of them. */
  lemma PairsComeBack(ps: seq<(Key, Value)>, rest: seq<byte>, left: int, acc: Tree<Value>, used: nat)
    requires Insertable(acc, ps) && PrefixesFirst(ps)
    requires |EncodePairs(ps)| <= left < SIZE_MAX
    ensures End(Loop(EncodePairs(ps) + rest, left, |ps|, acc, used))
            == Ok(InsertRebuilt(acc, ps), used + |EncodePairs(ps)|)
  {
    PairsAreRead(ps, rest, left, |ps|, acc, used);
  }

  lemma FirstPairFirst(ps: seq<(Key, Value)>, rest: seq<byte>)
    requires ps != []
    ensures EncodePairs(ps) + rest == EncodeKey(ps[0].0) + (Encode(ps[0].1) + (EncodePairs(ps[1..]) + rest))
    ensures |EncodePairs(ps)| == 2 + |ps[0].0| + |Encode(ps[0].1)| + |EncodePairs(ps[1..])|
  {
    Reassociate(EncodeKey(ps[0].0) + Encode(ps[0].1), EncodePairs(ps[1..]), rest);
    Reassociate(EncodeKey(ps[0].0), Encode(ps[0].1), EncodePairs(ps[1..]) + rest);
  }

  lemma OnePairComesBack(k: Key, v: Value, tail: seq<byte>, left: int, n: nat, acc: Tree<Value>, used: nat)
    requires ByteKey(k) && 1 <= |k| < 255 && !HasPath(acc, k) && ItemComesBack(v) && n > 0
    requires 2 + |k| + |Encode(v)| <= left < SIZE_MAX
    ensures var size := 2 + |k| + |Encode(v)|;
            End(Loop(EncodeKey(k) + (Encode(v) + tail), left, n, acc, used)) ==
            End(Loop(tail, left - size, n - 1, Insert(acc, k, k, Rebuilt(v)), used + size))
    ensures |EncodeKey(k)| == 2 + |k|
  {
    PairIsRead(k, v, tail, left);
    Reassociate(EncodeKey(k), Encode(v), tail);
    OnePairRead(EncodeKey(k) + Encode(v), k, Rebuilt(v), tail, left, n, acc, used);
  }

  /** One round of the loop, for a pair that `bytes` encode. */
  lemma OnePairRead(bytes: seq<byte>, k: Key, v: Value, tail: seq<byte>, left: int, n: nat, acc: Tree<Value>, used: nat)
    requires n > 0 && 0 < |bytes| <= left && DecodePair(bytes + tail, left) == Ok((k, v), |bytes|)
    requires 1 <= |k| < 255 && !HasPath(acc, k)
    ensures End(Loop(bytes + tail, left, n, acc, used))
            == End(Loop(tail, left - |bytes|, n - 1, Insert(acc, k, k, v), used + |bytes|))
  {
    DropFront(bytes, tail);
  }

  lemma PairIsRead(k: Key, v: Value, tail: seq<byte>, left: int)
    requires ByteKey(k) && 1 <= |k| < 255 && ItemComesBack(v)
    requires 2 + |k| + |Encode(v)| <= left < SIZE_MAX
    ensures DecodePair(EncodeKey(k) + (Encode(v) + tail), left) == Ok((k, Rebuilt(v)), 2 + |k| + |Encode(v)|)
    ensures |EncodeKey(k)| == 2 + |k|
  {
    KeyIsRead(k, Encode(v) + tail);
    ItemIsRead(v, tail, SizeT(left - (2 + |k|)));
  }

  lemma ItemIsRead(v: Value, tail: seq<byte>, left: nat)
    requires ItemComesBack(v) && |Encode(v)| <= left < SIZE_MAX
    ensures DecodeItem(Encode(v) + tail, left) == Ok(Rebuilt(v), |Encode(v)|)
  {
  }

  lemma EndIsRead(v: Value, tail: seq<byte>, left: nat)
    requires ItemComesBack(v) && |Encode(v)| <= left < SIZE_MAX
    ensures ItemEnd(Encode(v) + tail, left) == Ok(Rebuilt(v), |Encode(v)|)
  {
    ItemIsRead(v, tail, left);
  }

  lemma KeyIsRead(k: Key, rest: seq<byte>)
    requires ByteKey(k) && |k| < 256
    ensures var mem := EncodeKey(k) + rest;
            && |mem| >= 2 + |k| && mem[0] == STR8 && mem[1] == |k| && mem[2..2 + |k|] == k && mem[2 + |k|..] == rest
            && |EncodeKey(k)| == 2 + |k|
  {
    assert ToBytes(|k|, 1) == [|k| % 256] + ToBytes(|k| / 256, 0);
  }

  /** The loop over some elements goes on behind them, with `n` more to read. */
  lemma {:induction false} ElemsAreRead(vs: seq<Value>, rest: seq<byte>, left: int, n: nat, acc: seq<Value>, used: nat)
    requires forall i :: 0 <= i < |vs| ==> ItemComesBack(vs[i])
    requires |EncodeAll(vs)| <= left < SIZE_MAX
    ensures ListEnd(ListLoop(EncodeAll(vs) + rest, left, |vs| + n, acc, used))
            == ListEnd(ListLoop(rest, left - |EncodeAll(vs)|, n, acc + RebuiltAll(vs), used + |EncodeAll(vs)|))
    decreases |vs|
  {
    if vs == [] {
      assert acc + [] == acc && [] + rest == rest;
    } else {
      var e, v := Encode(vs[0]), Rebuilt(vs[0]);
      Reassociate(e, EncodeAll(vs[1..]), rest);
      EndIsRead(vs[0], EncodeAll(vs[1..]) + rest, left);
      OneElemRead(e, v, EncodeAll(vs[1..]) + rest, left, |vs| + n, acc, used);
      ElemsAreRead(vs[1..], rest, left - |e|, n, acc + [v], used + |e|);
      Reassociate(acc, [v], RebuiltAll(vs[1..]));
    }
  }

  /** One round of the loop, for an element that `bytes` encode. */
  lemma OneElemRead(bytes: seq<byte>, v: Value, tail: seq<byte>, left: int, n: nat, acc: seq<Value>, used: nat)
    requires n > 0 && 0 < |bytes| <= left && ItemEnd(bytes + tail, left) == Ok(v, |bytes|)
    ensures ListEnd(ListLoop(bytes + tail, left, n, acc, used))
            == ListEnd(ListLoop(tail, left - |bytes|, n - 1, acc + [v], used + |bytes|))
  {
    DropFront(bytes, tail);
  }

  lemma ListHeadIsRead(wide: bool, n: nat, rest: seq<byte>)
    requires n < Capacity(wide)
    ensures var w, mem := if wide then 4 else 2, ListHead(wide, n) + rest;
            && |ListHead(wide, n)| == 1 + w && mem[0] == (if wide then LIST32 else LIST16)
            && Number(mem, w) == n && mem[1 + w..] == rest
  {
    Powers();
    var w := if wide then 4 else 2;
    HeadOnly(if wide then LIST32 else LIST16, ToBytes(n, w), rest);
    BytesRoundTrip(n, w);
  }

  lemma TreeHeadIsRead(wide: bool, n: nat, rest: seq<byte>)
    requires n < Capacity(wide)
    ensures var w, mem := if wide then 4 else 2, TreeHead(wide, n) + rest;
            && |TreeHead(wide, n)| == 1 + w && mem[0] == (if wide then TREE32 else TREE16)
            && Number(mem, w) == n && mem[1 + w..] == rest
  {
    Powers();
    var w := if wide then 4 else 2;
    HeadOnly(if wide then TREE32 else TREE16, ToBytes(n, w), rest);
    BytesRoundTrip(n, w);
  }

  function AsList(wide: bool, d: Decoded<seq<Value>>): Decoded<Value> {
    match d
    case Ok(vs, size) => Ok(List(wide, vs), size)
    case Fail => Fail
  }

  /** How the import of a list ends is how its loop ends. */
  lemma ListBodyIsRead(wide: bool, n: nat, body: seq<byte>, left: nat)
    requires n < Capacity(wide)
    ensures var head := ListHead(wide, n);
            DecodeItem(head + body, left) == AsList(wide, ListEnd(ListLoop(body, left - |head|, n, [], |head|)))
  {
    ListHeadIsRead(wide, n, body);
    var mem := ListHead(wide, n) + body;
    assert DecodeItem(mem, left) == DecodeList(mem, left);
  }

  lemma {:induction false} ListComesBack(wide: bool, vs: seq<Value>)
    requires |vs| < Capacity(wide)
    requires forall i :: 0 <= i < |vs| ==> ItemComesBack(vs[i])
    ensures ItemComesBack(List(wide, vs))
  {
    var v, head := List(wide, vs), ListHead(wide, |vs|);
    forall rest: seq<byte>, left: nat | |Encode(v)| <= left < SIZE_MAX
      ensures DecodeItem(Encode(v) + rest, left) == Ok(Rebuilt(v), |Encode(v)|) {
      Reassociate(head, EncodeAll(vs), rest);
      ElemsAreRead(vs, rest, left - |head|, 0, [], |head|);
      ListBodyIsRead(wide, |vs|, EncodeAll(vs) + rest, left);
      assert [] + RebuiltAll(vs) == RebuiltAll(vs);
    }
  }

  /** The pairs of a tree can all be inserted, in their order. */
  lemma PairsAreInsertable(t: Tree<Value>)
    requires Ordered(t) && KeysSpelled(t, [])
    requires forall i :: 0 <= i < |Pairs(t)| ==> ItemComesBack(Pairs(t)[i].1)
    ensures Insertable(Empty, Pairs(t)) && PrefixesFirst(Pairs(t)) && |Pairs(t)| == Bound(t)
    ensures EncodeNodes(t) == EncodePairs(Pairs(t)) && RebuildInto(Empty, t) == InsertRebuilt(Empty, Pairs(t))
  {
    var ps := Pairs(t);
    NodesEncodePairs(t);
    RebuildInsertsPairs(Empty, t, []);
    PairsPutPrefixesFirst(t, []);
    forall i | 0 <= i < |ps| ensures ByteKey(ps[i].0) && 1 <= |ps[i].0| < 255 { PairKeysExtend(t, [], i); }
  }

  lemma {:induction false} DictComesBack(wide: bool, count: nat, t: Tree<Value>)
    requires count == Bound(t) < Capacity(wide)
    requires Ordered(t) && KeysSpelled(t, [])
    requires forall i :: 0 <= i < |Pairs(t)| ==> ItemComesBack(Pairs(t)[i].1)
    ensures ItemComesBack(Dict(wide, count, t))
  {
    var v, ps := Dict(wide, count, t), Pairs(t);
    PairsAreInsertable(t);
    forall rest: seq<byte>, left: nat | |Encode(v)| <= left < SIZE_MAX
      ensures DecodeItem(Encode(v) + rest, left) == Ok(Rebuilt(v), |Encode(v)|) {
      TreeIsRead(wide, ps, rest, left);
      assert Encode(v) == TreeHead(wide, count) + EncodePairs(ps);
    }
  }

  lemma TreeIsRead(wide: bool, ps: seq<(Key, Value)>, rest: seq<byte>, left: nat)
    requires |ps| < Capacity(wide)
    requires Insertable(Empty, ps) && PrefixesFirst(ps)
    requires |TreeHead(wide, |ps|) + EncodePairs(ps)| <= left < SIZE_MAX
    ensures DecodeItem((TreeHead(wide, |ps|) + EncodePairs(ps)) + rest, left)
            == Ok(Dict(wide, |ps|, InsertRebuilt(Empty, ps)), |TreeHead(wide, |ps|) + EncodePairs(ps)|)
  {
    var head := TreeHead(wide, |ps|);
    PairsComeBack(ps, rest, left - |head|, Empty, |head|);
    TreeBodyIsRead(wide, |ps|, EncodePairs(ps) + rest, left);
    Reassociate(head, EncodePairs(ps), rest);
  }

  function AsTree(wide: bool, count: nat, d: Decoded<Tree<Value>>): Decoded<Value> {
    match d
    case Ok(t, size) => Ok(Dict(wide, count, t), size)
    case Fail => Fail
  }

  /** How the import of a tree ends is how its loop ends. */
  lemma TreeBodyIsRead(wide: bool, count: nat, body: seq<byte>, left: nat)
    requires count < Capacity(wide)
    ensures var head := TreeHead(wide, count);
            DecodeItem(head + body, left) ==
            AsTree(wide, count, End(Loop(body, left - |head|, count, Empty, |head|)))
  {
    TreeHeadIsRead(wide, count, body);
    var mem := TreeHead(wide, count) + body;
    assert DecodeItem(mem, left) == DecodeTree(mem, left);
  }

  lemma SimpleItemComesBack(v: Value)
    requires SimpleEncodable(v)
    ensures ItemComesBack(v)
  {
    Powers();
    forall rest: seq<byte>, left: nat | |Encode(v)| <= left < SIZE_MAX
      ensures DecodeItem(Encode(v) + rest, left) == Ok(Rebuilt(v), |Encode(v)|) {
      SimpleRoundTrip(v, rest);
      assert (Encode(v) + rest)[0] == Encode(v)[0];
    }
  }

  /** The round trip, for every nested value in the domain. */
  lemma {:induction false} EncodedComesBack(v: Value)
    requires Encodable(v)
    ensures ItemComesBack(v)
    decreases v
  {
    match v {
      case List(wide, elems) =>
        forall i | 0 <= i < |elems| ensures ItemComesBack(elems[i]) {
          assert elems[i] in elems;
          EncodedComesBack(elems[i]);
        }
        ListComesBack(wide, elems);
      case Dict(wide, count, root) =>
        TreeValuesComeBack(root);
        DictComesBack(wide, count, root);
      case _ => SimpleItemComesBack(v);
    }
  }

  lemma {:induction false} TreeValuesComeBack(t: Tree<Value>)
    requires ValuesEncodable(t)
    ensures forall i :: 0 <= i < |Pairs(t)| ==> ItemComesBack(Pairs(t)[i].1)
    decreases t
  {
    if t.Node? {
      TreeValuesComeBack(t.low);
      TreeValuesComeBack(t.equal);
      TreeValuesComeBack(t.high);
      if t.value.Some? { EncodedComesBack(t.value.value); }
    }
  }
}
