/**
  The element counter of a tree is written ahead of its pairs and checked by the import, but a forced
  insertion moves it even when it overwrites: which trees, and which runs, survive the trip.
 */
module Counters {
  import opened Sequences
  import opened Bytes
  import opened TernaryTree
  import opened TreeRuns
  import opened Values
  import opened Decoder
  import opened RoundTrip

  /** All that the codec asks of a tree but for its counter. */
  ghost predicate Sendable(t: Tree<Value>) {
    Ordered(t) && KeysSpelled(t, []) && ValuesEncodable(t)
  }

  /** The import of an encoded value with `rest` behind it. */
  function Imported(v: Value, rest: seq<byte>): Decoded<Value> {
    DecodeItem(Encode(v) + rest, |Encode(v)|)
  }

  lemma SentTree(wide: bool, count: nat, t: Tree<Value>, rest: seq<byte>)
    requires count < Capacity(wide)
    ensures var v, nodes, head := Dict(wide, count, t), EncodeNodes(t), TreeHead(wide, count);
            && |Encode(v)| == |head| + |nodes|
            && Imported(v, rest) == AsTree(wide, count, End(Loop(nodes + rest, |nodes|, count, Empty, |head|)))
  {
    Reassociate(TreeHead(wide, count), EncodeNodes(t), rest);
    TreeBodyIsRead(wide, count, EncodeNodes(t) + rest, |Encode(Dict(wide, count, t))|);
  }

  /** A counter that is too high: the import runs past the pairs, and fails when nothing follows them. */
  lemma CountTooHigh(wide: bool, count: nat, t: Tree<Value>)
    requires Sendable(t) && Bound(t) < count < Capacity(wide) && |Encode(Dict(wide, count, t))| < SIZE_MAX
    ensures Imported(Dict(wide, count, t), []) == Fail
  {
    SentTree(wide, count, t, []);
    TreeValuesComeBack(t);
    PairsAreInsertable(t);
    PairsRunOut(Pairs(t), count, |TreeHead(wide, count)|);
  }

  lemma PairsRunOut(ps: seq<(Key, Value)>, n: nat, used: nat)
    requires Insertable(Empty, ps) && PrefixesFirst(ps) && |ps| < n && |EncodePairs(ps)| < SIZE_MAX
    ensures End(Loop(EncodePairs(ps) + [], |EncodePairs(ps)|, n, Empty, used)) == Fail
  {
    PairsAreRead(ps, [], |EncodePairs(ps)|, n, Empty, used);
    NothingLeft(0, n - |ps|, InsertRebuilt(Empty, ps), used + |EncodePairs(ps)|);
  }

  lemma NothingLeft(left: nat, n: nat, acc: Tree<Value>, used: nat)
    requires n > 0
    ensures End(Loop([], left, n, acc, used)) == Fail
  {
  }

  /** One that is too low: the import stops early, with the first pairs only, and reports fewer bytes. */
  lemma CountTooLow(wide: bool, count: nat, t: Tree<Value>, rest: seq<byte>)
    requires Sendable(t) && count < Bound(t) && count < Capacity(wide) && |Encode(Dict(wide, count, t))| < SIZE_MAX
    ensures count < |Pairs(t)|
    ensures var v, first := Dict(wide, count, t), Pairs(t)[..count];
            && Imported(v, rest) ==
               Ok(Dict(wide, count, InsertRebuilt(Empty, first)), |TreeHead(wide, count)| + |EncodePairs(first)|)
            && |TreeHead(wide, count)| + |EncodePairs(first)| < |Encode(v)|
  {
    SentTree(wide, count, t, rest);
    TreeValuesComeBack(t);
    PairsAreInsertable(t);
    PairsAreCut(Pairs(t), count, rest, |TreeHead(wide, count)|);
  }

  lemma PairsAreCut(ps: seq<(Key, Value)>, n: nat, rest: seq<byte>, used: nat)
    requires Insertable(Empty, ps) && PrefixesFirst(ps) && n < |ps| && |EncodePairs(ps)| < SIZE_MAX
    ensures End(Loop(EncodePairs(ps) + rest, |EncodePairs(ps)|, n, Empty, used))
            == Ok(InsertRebuilt(Empty, ps[..n]), used + |EncodePairs(ps[..n])|)
    ensures |EncodePairs(ps[..n])| < |EncodePairs(ps)|
  {
    var first, others := ps[..n], ps[n..];
    assert ps == first + others;
    EncodePairsConcat(first, others);
    Reassociate(EncodePairs(first), EncodePairs(others), rest);
    PairsComeBack(first, EncodePairs(others) + rest, |EncodePairs(ps)|, Empty, used);
  }

  /** So a tree comes back if and only if its counter is right. */
  lemma ComesBackIffCounted(wide: bool, count: nat, t: Tree<Value>)
    requires Sendable(t) && Bound(t) < Capacity(wide) && count < Capacity(wide)
    requires |Encode(Dict(wide, count, t))| < SIZE_MAX
    ensures ItemComesBack(Dict(wide, count, t)) <==> count == Bound(t)
  {
    var v := Dict(wide, count, t);
    if count == Bound(t) {
      EncodedComesBack(v);
    } else if ItemComesBack(v) {
      ItemIsRead(v, [], |Encode(v)|);
      assert Imported(v, []) == Ok(Rebuilt(v), |Encode(v)|);
      if count > Bound(t) { CountTooHigh(wide, count, t); } else { CountTooLow(wide, count, t, []); }
    }
  }

  // ---------------------------------------------------------------- bound nodes and bound keys

  lemma SizeOfUnion<K, V>(m: map<K, V>, n: map<K, V>)
    requires m.Keys !! n.Keys
    ensures |m + n| == |m| + |n|
  {
    assert (m + n).Keys == m.Keys + n.Keys;
    assert |m + n| == |(m + n).Keys| && |m| == |m.Keys| && |n| == |n.Keys|;
  }

  lemma BindingsApart<V>(t: Tree<V>, prefix: Key)
    requires t.Node? && Ordered(t)
    ensures var here := prefix + [t.split];
            var l, e, h := Bindings(t.low, prefix).Keys, Bindings(t.equal, here).Keys, Bindings(t.high, prefix).Keys;
            l !! e && l !! h && e !! h && here !in l && here !in e && here !in h
  {
    var here := prefix + [t.split];
    forall k | k in Bindings(t.low, prefix) ensures |k| > |prefix| && k[|prefix|] < t.split {
      BindingsBelowPrefix(t.low, prefix, k);
    }
    forall k | k in Bindings(t.equal, here) ensures |k| > |here| && k[|prefix|] == t.split {
      BindingsBelowPrefix(t.equal, here, k);
      assert k[|prefix|] == here[|prefix|];
    }
    forall k | k in Bindings(t.high, prefix) ensures |k| > |prefix| && k[|prefix|] > t.split {
      BindingsBelowPrefix(t.high, prefix, k);
    }
  }

  /** Every bound node is one key of the map. */
  lemma {:induction false} BoundIsSize(t: Tree<Value>, prefix: Key)
    requires Ordered(t)
    ensures Bound(t) == |Bindings(t, prefix)|
  {
    if t.Node? {
      var here := prefix + [t.split];
      var l, e, h := Bindings(t.low, prefix), Bindings(t.equal, here), Bindings(t.high, prefix);
      var own: map<Key, Value> := if t.value.Some? then map[here := t.value.value] else map[];
      BoundIsSize(t.low, prefix);
      BoundIsSize(t.equal, here);
      BoundIsSize(t.high, prefix);
      BindingsApart(t, prefix);
      SizeOfUnion(l, e);
      SizeOfUnion(l + e, h);
      SizeOfUnion(l + e + h, own);
    }
  }

  // ---------------------------------------------------------------- runs

  /** The inserted keys are C strings that a str8 holds, the values come back by themselves. */
  ghost predicate SendableOp(op: Op<Value>) {
    op.Remove? || (op.key != [] && Storable(op.key) && Encodable(op.v))
  }

  predicate Storable(key: Key) {
    ByteKey(key) && 1 <= |key| < 255 && key[|key| - 1] == 0
  }

  lemma {:induction false} InsertKeepsSendable(t: Tree<Value>, prefix: Key, key: Key, v: Value)
    requires key != [] && Storable(prefix + key) && Encodable(v)
    requires KeysSpelled(t, prefix) && ValuesEncodable(t)
    ensures var r := Insert(t, prefix + key, key, v); KeysSpelled(r, prefix) && ValuesEncodable(r)
    decreases |key|, t
  {
    if t.Node? && key[0] < t.split {
      InsertKeepsSendable(t.low, prefix, key, v);
    } else if t.Node? && key[0] > t.split {
      InsertKeepsSendable(t.high, prefix, key, v);
    } else if |key| > 1 {
      assert prefix + key == (prefix + [key[0]]) + key[1..];
      InsertKeepsSendable(if t.Empty? then Empty else t.equal, prefix + [key[0]], key[1..], v);
    } else {
      assert key == [key[0]];
    }
  }

  lemma {:induction false} DeleteKeepsSendable(t: Tree<Value>, prefix: Key, key: Key)
    requires key != [] && HasPath(t, key) && KeysSpelled(t, prefix) && ValuesEncodable(t)
    ensures KeysSpelled(Delete(t, key), prefix) && ValuesEncodable(Delete(t, key))
    decreases |key|, t
  {
    if key[0] < t.split {
      DeleteKeepsSendable(t.low, prefix, key);
    } else if key[0] > t.split {
      DeleteKeepsSendable(t.high, prefix, key);
    } else if |key| > 1 {
      DeleteKeepsSendable(t.equal, prefix + [t.split], key[1..]);
    }
  }

  lemma {:induction false} RunKeepsSendable(s: State<Value>, ops: seq<Op<Value>>, wide: bool)
    requires WellFormed(s.tree) && Sendable(s.tree) && Legal(s, ops, wide)
    requires forall i :: 0 <= i < |ops| ==> SendableOp(ops[i])
    ensures Sendable(Exec(s, ops, wide).tree)
    decreases |ops|
  {
    if ops != [] {
      var op := ops[0];
      StepRefinesMap(s, op, wide);
      if op.Remove? {
        DeleteKeepsSendable(s.tree, [], op.key);
      } else if !Refused(s, op) {
        assert [] + op.key == op.key;
        InsertKeepsSendable(s.tree, [], op.key, op.v);
      }
      RunKeepsSendable(Step(s, op, wide), ops[1..], wide);
    }
  }

  /** A tree reached from the empty one comes back if and only if no forced insertion overwrote a key. */
  lemma RunComesBackIff(ops: seq<Op<Value>>, wide: bool)
    requires Legal(State(Empty, 0), ops, wide) && |ops| < Capacity(wide)
    requires forall i :: 0 <= i < |ops| ==> SendableOp(ops[i])
    ensures var e := Exec(State(Empty, 0), ops, wide);
            |Encode(Dict(wide, e.len, e.tree))| < SIZE_MAX ==>
              (ItemComesBack(Dict(wide, e.len, e.tree)) <==> Overwrites(State(Empty, 0), ops, wide) == 0)
  {
    var s: State<Value> := State(Empty, 0);
    var e := Exec(s, ops, wide);
    RunKeepsSendable(s, ops, wide);
    CounterCountsOverwritesToo(s, ops, wide);
    CounterIsExactWithoutOverwrites(s, ops, wide);
    BoundIsSize(e.tree, []);
    if |Encode(Dict(wide, e.len, e.tree))| < SIZE_MAX { ComesBackIffCounted(wide, e.len, e.tree); }
  }
}
