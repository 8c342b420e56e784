/**
  The decoder rebuilds a tree by insertions, so it may get another shape. What it stands
  for is the same: lists as sequences, trees as finite maps.
 */
module Meanings {
  import opened Options
  import opened Bytes
  import opened TernaryTree
  import opened Values
  import opened Decoder
  import opened RoundTrip

  datatype Meaning =
    | Simple(v: Value)
    | Sequence(wide: bool, elems: seq<Meaning>)
    | Mapping(wide: bool, count: nat, bindings: map<Key, Meaning>)

  ghost function MeaningOf(v: Value): Meaning
    decreases v
  {
    match v
    case List(wide, elems) => Sequence(wide, MeaningsOf(elems))
    case Dict(wide, count, root) => Mapping(wide, count, Map(TreeMeanings(root)))
    case _ => Simple(v)
  }

  ghost function MeaningsOf(vs: seq<Value>): seq<Meaning>
    decreases vs
  {
    if vs == [] then [] else [MeaningOf(vs[0])] + MeaningsOf(vs[1..])
  }

  ghost function TreeMeanings(t: Tree<Value>): Tree<Meaning>
    decreases t
  {
    if t.Empty? then Empty else
      Node(t.split, TreeMeanings(t.low), TreeMeanings(t.equal), TreeMeanings(t.high), t.key,
           if t.value.Some? then Some(MeaningOf(t.value.value)) else None)
  }

  lemma {:induction false} MeaningsKeepHeads(t: Tree<Value>)
    ensures Heads(TreeMeanings(t)) == Heads(t)
  {
    if t.Node? {
      MeaningsKeepHeads(t.low);
      MeaningsKeepHeads(t.high);
    }
  }

  lemma {:induction false} MeaningsKeepOrder(t: Tree<Value>)
    requires Ordered(t)
    ensures Ordered(TreeMeanings(t))
  {
    if t.Node? {
      MeaningsKeepOrder(t.low);
      MeaningsKeepOrder(t.equal);
      MeaningsKeepOrder(t.high);
      MeaningsKeepHeads(t.low);
      MeaningsKeepHeads(t.high);
    }
  }

  lemma {:induction false} InsertCommutes(t: Tree<Value>, orig: Key, key: Key, v: Value)
    requires key != [] && orig != []
    ensures TreeMeanings(Insert(t, orig, key, v)) == Insert(TreeMeanings(t), orig, key, MeaningOf(v))
    decreases |key|, t
  {
    if t.Node? && key[0] < t.split {
      InsertCommutes(t.low, orig, key, v);
    } else if t.Node? && key[0] > t.split {
      InsertCommutes(t.high, orig, key, v);
    } else if |key| > 1 {
      InsertCommutes(if t.Empty? then Empty else t.equal, orig, key[1..], v);
    }
  }

  /** Rebuilding a tree into another adds exactly its bindings. */
  lemma {:induction false} RebuildAddsBindings(acc: Tree<Value>, t: Tree<Value>, prefix: Key)
    requires Ordered(acc) && Ordered(t) && KeysSpelled(t, prefix) && ValuesEncodable(t)
    ensures Ordered(RebuildInto(acc, t))
    ensures Map(TreeMeanings(RebuildInto(acc, t))) == Map(TreeMeanings(acc)) + Bindings(TreeMeanings(t), prefix)
    decreases t, 0
  {
    if t.Node? {
      var here := prefix + [t.split];
      var own: map<Key, Meaning> := if t.value.Some? then map[here := MeaningOf(t.value.value)] else map[];
      var t0 := if t.value.Some? then Insert(acc, here, here, Rebuilt(t.value.value)) else acc;
      if t.value.Some? {
        RebuiltMeansTheSame(t.value.value);
        RebuiltBinding(acc, here, t.value.value);
      }
      assert Map(TreeMeanings(t0)) == Map(TreeMeanings(acc)) + own;
      var t1 := RebuildInto(t0, t.low);
      var t2 := RebuildInto(t1, t.equal);
      RebuildAddsBindings(t0, t.low, prefix);
      RebuildAddsBindings(t1, t.equal, here);
      RebuildAddsBindings(t2, t.high, prefix);
      OwnKeyIsFree(t, prefix);
      var n := TreeMeanings(t);
      OwnFirstOrLast(Map(TreeMeanings(acc)), own,
                     Bindings(n.low, prefix), Bindings(n.equal, here), Bindings(n.high, prefix));
    }
  }

  lemma RebuiltBinding(acc: Tree<Value>, key: Key, v: Value)
    requires key != [] && Ordered(acc) && MeaningOf(Rebuilt(v)) == MeaningOf(v)
    ensures var t := Insert(acc, key, key, Rebuilt(v));
            Ordered(t) && Map(TreeMeanings(t)) == Map(TreeMeanings(acc))[key := MeaningOf(v)]
  {
    InsertKeepsOrder(acc, key, key, Rebuilt(v));
    InsertCommutes(acc, key, key, Rebuilt(v));
    MeaningsKeepOrder(acc);
    InsertIsMapUpdate(TreeMeanings(acc), key, MeaningOf(Rebuilt(v)));
  }

  lemma OwnFirstOrLast<K, V>(m: map<K, V>, own: map<K, V>, l: map<K, V>, e: map<K, V>, h: map<K, V>)
    requires forall k :: k in own ==> k !in l && k !in e && k !in h
    ensures m + own + l + e + h == m + (l + e + h + own)
  {
  }

  lemma OwnKeyIsFree(t: Tree<Value>, prefix: Key)
    requires t.Node? && Ordered(t)
    ensures var here, m := prefix + [t.split], TreeMeanings(t);
            here !in Bindings(m.low, prefix) && here !in Bindings(m.equal, here) && here !in Bindings(m.high, prefix)
  {
    var here, m := prefix + [t.split], TreeMeanings(t);
    MeaningsKeepHeads(t.low);
    MeaningsKeepHeads(t.high);
    assert here[|prefix|] == t.split;
    if here in Bindings(m.low, prefix) { BindingsBelowPrefix(m.low, prefix, here); }
    if here in Bindings(m.equal, here) { BindingsBelowPrefix(m.equal, here, here); }
    if here in Bindings(m.high, prefix) { BindingsBelowPrefix(m.high, prefix, here); }
  }

  /** What the decoder builds from an encoded value means what the value means. */
  lemma {:induction false} RebuiltMeansTheSame(v: Value)
    requires Encodable(v)
    ensures MeaningOf(Rebuilt(v)) == MeaningOf(v)
    decreases v
  {
    match v {
      case List(wide, elems) => RebuiltAllMeanTheSame(elems);
      case Dict(wide, count, root) => RebuiltTreeMeansTheSame(root);
      case _ =>
    }
  }

  lemma RebuiltTreeMeansTheSame(t: Tree<Value>)
    requires Ordered(t) && KeysSpelled(t, []) && ValuesEncodable(t)
    ensures Map(TreeMeanings(RebuildInto(Empty, t))) == Map(TreeMeanings(t))
    decreases t, 1
  {
    RebuildAddsBindings(Empty, t, []);
  }

  lemma {:induction false} RebuiltAllMeanTheSame(vs: seq<Value>)
    requires forall v :: v in vs ==> Encodable(v)
    ensures MeaningsOf(RebuiltAll(vs)) == MeaningsOf(vs)
    decreases vs
  {
    if vs != [] {
      assert vs[0] in vs;
      RebuiltMeansTheSame(vs[0]);
      RebuiltAllMeanTheSame(vs[1..]);
      assert RebuiltAll(vs)[1..] == RebuiltAll(vs[1..]);
    }
  }

  /**
    The codec round trip: importing the encoding of a value, with any bytes behind it, gives a
    value that means the same and consumes exactly the encoding.
   */
  lemma CodecRoundTrip(v: Value, rest: seq<byte>, ilen: nat)
    requires Encodable(v) && |Encode(v)| <= ilen < SIZE_MAX
    ensures var d := DecodeObj(Encode(v) + rest, ilen);
            d.Ok? && d.size == |Encode(v)| && MeaningOf(d.value) == MeaningOf(v)
  {
    EncodedComesBack(v);
    ItemIsRead(v, rest, ilen);
    RebuiltMeansTheSame(v);
    var mem := Encode(v) + rest;
    assert mem != [] && DecodeObj(mem, ilen) == DecodeItem(mem, ilen);
  }
}
