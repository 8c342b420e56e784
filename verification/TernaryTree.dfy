/**
  The ternary search tree of src/tree.c as a value: the specification that the
  heap version in TreeObject.dfy is proved against, and the laws of that
  specification.

  A C `char` is an `int` here, so nothing depends on whether `char` is signed.
 */
module TernaryTree {
  import opened Options

  type Key = seq<int>

  datatype Tree<V> =
    | Empty
    | Node(split: int, low: Tree<V>, equal: Tree<V>, high: Tree<V>, key: Option<Key>, value: Option<V>)

  // ---------------------------------------------------------------- operations

  /** The key object a node keeps: the constructor of str8 overwrites the last byte with NUL. */
  function StoredKey(key: Key): (r: Key)
    requires key != []
    ensures |r| == |key| && r[|r| - 1] == 0
    ensures r == key <==> key[|key| - 1] == 0
  {
    var r := key[..|key| - 1] + [0];
    assert key == key[..|key| - 1] + [key[|key| - 1]];
    r
  }

  /** The node at which the search for `key` stops, or Empty when it falls off the tree. */
  function FindNode<V>(t: Tree<V>, key: Key): Tree<V> {
    if key == [] || t.Empty? then t
    else if key[0] < t.split then FindNode(t.low, key)
    else if key[0] > t.split then FindNode(t.high, key)
    else if |key| > 1 then FindNode(t.equal, key[1..])
    else t
  }

  predicate HasPath<V>(t: Tree<V>, key: Key) {
    FindNode(t, key).Node?
  }

  function Lookup<V>(t: Tree<V>, key: Key): Option<V> {
    var n := FindNode(t, key);
    if n.Node? then n.value else None
  }

  /** `key` is what is left of `orig` on the way down. */
  function Insert<V>(t: Tree<V>, orig: Key, key: Key, v: V): (r: Tree<V>)
    requires key != [] && orig != []
    ensures r.Node?
    decreases |key|, t
  {
    var cur := if t.Empty? then Node(key[0], Empty, Empty, Empty, None, None) else t;
    if key[0] < cur.split then cur.(low := Insert(cur.low, orig, key, v))
    else if key[0] > cur.split then cur.(high := Insert(cur.high, orig, key, v))
    else if |key| > 1 then cur.(equal := Insert(cur.equal, orig, key[1..], v))
    else cur.(key := Some(StoredKey(orig)), value := Some(v))
  }

  /** Nodes with neither children nor a value are freed on the way back up. */
  function Prune<V>(t: Tree<V>): Tree<V> {
    if t.Node? && t.low.Empty? && t.equal.Empty? && t.high.Empty? && t.value.None? then Empty else t
  }

  function Delete<V>(t: Tree<V>, key: Key): (r: Tree<V>)
    requires key != [] && HasPath(t, key)
    decreases |key|, t
  {
    Prune(
      if key[0] < t.split then t.(low := Delete(t.low, key))
      else if key[0] > t.split then t.(high := Delete(t.high, key))
      else if |key| > 1 then t.(equal := Delete(t.equal, key[1..]))
      else t.(value := None))
  }

  /** What writing a new value into the node for `key` does to the tree. */
  function SetAt<V>(t: Tree<V>, key: Key, v: V): Tree<V>
    requires key != [] && HasPath(t, key)
    decreases |key|, t
  {
    if key[0] < t.split then t.(low := SetAt(t.low, key, v))
    else if key[0] > t.split then t.(high := SetAt(t.high, key, v))
    else if |key| > 1 then t.(equal := SetAt(t.equal, key[1..], v))
    else t.(value := Some(v))
  }

  // ---------------------------------------------------------------- invariants

  /** The characters that may follow the prefix this subtree hangs from. */
  ghost function Heads<V>(t: Tree<V>): set<int> {
    if t.Empty? then {} else {t.split} + Heads(t.low) + Heads(t.high)
  }

  /** low < splitchar < high at every node. */
  ghost predicate Ordered<V>(t: Tree<V>) {
    t.Node? ==>
      && Ordered(t.low) && Ordered(t.equal) && Ordered(t.high)
      && (forall c :: c in Heads(t.low) ==> c < t.split)
      && (forall c :: c in Heads(t.high) ==> c > t.split)
  }

  /** No node is left without both children and a value. */
  ghost predicate Live<V>(t: Tree<V>) {
    t.Node? ==> Live(t.low) && Live(t.equal) && Live(t.high) && Prune(t) == t
  }

  /** Every node is on the way to a bound key, as long as nothing was deleted. */
  ghost predicate Tight<V>(t: Tree<V>) {
    t.Node? ==> Tight(t.low) && Tight(t.equal) && Tight(t.high) && (t.value.None? ==> t.equal.Node?)
  }

  /** Every bound node stores the key spelled by the way down to it. */
  ghost predicate Spelled<V>(t: Tree<V>, prefix: Key) {
    t.Node? ==>
      && Spelled(t.low, prefix) && Spelled(t.equal, prefix + [t.split]) && Spelled(t.high, prefix)
      && (t.key.Some? ==> t.key.value == StoredKey(prefix + [t.split]))
      && (t.value.Some? ==> t.key.Some?)
  }

  lemma {:induction false} InsertHeads<V>(t: Tree<V>, orig: Key, key: Key, v: V)
    requires key != [] && orig != []
    ensures Heads(Insert(t, orig, key, v)) == Heads(t) + {key[0]}
    decreases |key|, t
  {
    if t.Node? && key[0] < t.split {
      InsertHeads(t.low, orig, key, v);
    } else if t.Node? && key[0] > t.split {
      InsertHeads(t.high, orig, key, v);
    }
  }

  lemma {:induction false} DeleteHeads<V>(t: Tree<V>, key: Key)
    requires key != [] && HasPath(t, key)
    ensures Heads(Delete(t, key)) <= Heads(t)
    decreases |key|, t
  {
    if key[0] < t.split {
      DeleteHeads(t.low, key);
    } else if key[0] > t.split {
      DeleteHeads(t.high, key);
    }
  }

  lemma {:induction false} InsertKeepsOrder<V>(t: Tree<V>, orig: Key, key: Key, v: V)
    requires key != [] && orig != [] && Ordered(t)
    ensures Ordered(Insert(t, orig, key, v))
    decreases |key|, t
  {
    if t.Empty? {
      if |key| > 1 { InsertKeepsOrder(t, orig, key[1..], v); }
    } else if key[0] < t.split {
      InsertKeepsOrder(t.low, orig, key, v);
      InsertHeads(t.low, orig, key, v);
    } else if key[0] > t.split {
      InsertKeepsOrder(t.high, orig, key, v);
      InsertHeads(t.high, orig, key, v);
    } else if |key| > 1 {
      InsertKeepsOrder(t.equal, orig, key[1..], v);
    }
  }

  lemma {:induction false} InsertKeepsLive<V>(t: Tree<V>, orig: Key, key: Key, v: V)
    requires key != [] && orig != [] && Live(t)
    ensures Live(Insert(t, orig, key, v))
    decreases |key|, t
  {
    if t.Empty? {
      if |key| > 1 { InsertKeepsLive(t, orig, key[1..], v); }
    } else if key[0] < t.split {
      InsertKeepsLive(t.low, orig, key, v);
    } else if key[0] > t.split {
      InsertKeepsLive(t.high, orig, key, v);
    } else if |key| > 1 {
      InsertKeepsLive(t.equal, orig, key[1..], v);
    }
  }

  lemma {:induction false} InsertKeepsTight<V>(t: Tree<V>, orig: Key, key: Key, v: V)
    requires key != [] && orig != [] && Tight(t)
    ensures Tight(Insert(t, orig, key, v))
    decreases |key|, t
  {
    if t.Empty? {
      if |key| > 1 { InsertKeepsTight(t, orig, key[1..], v); }
    } else if key[0] < t.split {
      InsertKeepsTight(t.low, orig, key, v);
    } else if key[0] > t.split {
      InsertKeepsTight(t.high, orig, key, v);
    } else if |key| > 1 {
      InsertKeepsTight(t.equal, orig, key[1..], v);
    }
  }

  lemma {:induction false} InsertKeepsSpelling<V>(t: Tree<V>, prefix: Key, key: Key, v: V)
    requires key != [] && Spelled(t, prefix)
    ensures Spelled(Insert(t, prefix + key, key, v), prefix)
    decreases |key|, t
  {
    if t.Node? && key[0] < t.split {
      InsertKeepsSpelling(t.low, prefix, key, v);
    } else if t.Node? && key[0] > t.split {
      InsertKeepsSpelling(t.high, prefix, key, v);
    } else if |key| > 1 {
      assert prefix + key == prefix + [key[0]] + key[1..];
      InsertKeepsSpelling(if t.Empty? then Empty else t.equal, prefix + [key[0]], key[1..], v);
    } else {
      assert key == [key[0]];
    }
  }

  lemma {:induction false} DeleteKeepsInvariants<V>(t: Tree<V>, prefix: Key, key: Key)
    requires key != [] && HasPath(t, key)
    requires Ordered(t) && Live(t) && Spelled(t, prefix)
    ensures Ordered(Delete(t, key)) && Live(Delete(t, key)) && Spelled(Delete(t, key), prefix)
    decreases |key|, t
  {
    if key[0] < t.split {
      DeleteKeepsInvariants(t.low, prefix, key);
      DeleteHeads(t.low, key);
    } else if key[0] > t.split {
      DeleteKeepsInvariants(t.high, prefix, key);
      DeleteHeads(t.high, key);
    } else if |key| > 1 {
      DeleteKeepsInvariants(t.equal, prefix + [t.split], key[1..]);
    }
  }

  // ---------------------------------------------------------------- search laws

  /** Insertion binds exactly the inserted key, whatever the shape of the tree. */
  lemma {:induction false} LookupInsert<V>(t: Tree<V>, orig: Key, key: Key, v: V, other: Key)
    requires key != [] && orig != [] && other != []
    ensures Lookup(Insert(t, orig, key, v), other) == if other == key then Some(v) else Lookup(t, other)
    decreases |key|, t
  {
    var cur := if t.Empty? then Node(key[0], Empty, Empty, Empty, None, None) else t;
    assert Lookup(cur, other) == Lookup(t, other) by {
      if t.Empty? { assert |other| > 1 ==> FindNode(cur.equal, other[1..]).Empty?; }
    }
    if key[0] < cur.split {
      LookupInsert(cur.low, orig, key, v, other);
    } else if key[0] > cur.split {
      LookupInsert(cur.high, orig, key, v, other);
    } else if |key| > 1 {
      assert key == [key[0]] + key[1..];
      if other[0] == key[0] && |other| > 1 {
        assert other == [other[0]] + other[1..];
        LookupInsert(cur.equal, orig, key[1..], v, other[1..]);
      }
    } else {
      assert key == [key[0]];
      assert |other| == 1 ==> other == [other[0]];
    }
  }

  lemma LookupPrune<V>(t: Tree<V>, key: Key)
    requires key != []
    ensures Lookup(Prune(t), key) == Lookup(t, key)
  {
    if t.Node? && |key| > 1 { assert FindNode<V>(Empty, key[1..]).Empty?; }
  }

  /** Deletion unbinds exactly the deleted key, although it prunes nodes. */
  lemma {:induction false} LookupDelete<V>(t: Tree<V>, key: Key, other: Key)
    requires key != [] && other != [] && HasPath(t, key)
    ensures Lookup(Delete(t, key), other) == if other == key then None else Lookup(t, other)
    decreases |key|, t
  {
    if key[0] < t.split {
      LookupDelete(t.low, key, other);
      LookupPrune(t.(low := Delete(t.low, key)), other);
    } else if key[0] > t.split {
      LookupDelete(t.high, key, other);
      LookupPrune(t.(high := Delete(t.high, key)), other);
    } else if |key| > 1 {
      LookupPrune(t.(equal := Delete(t.equal, key[1..])), other);
      assert key == [key[0]] + key[1..];
      if other[0] == key[0] && |other| > 1 {
        assert other == [other[0]] + other[1..];
        LookupDelete(t.equal, key[1..], other[1..]);
      }
    } else {
      LookupPrune(t.(value := None), other);
      assert key == [key[0]];
      assert |other| == 1 ==> other == [other[0]];
    }
  }

  /** A search after an insertion finds a node for the old paths and the prefixes of the new key. */
  lemma {:induction false} PathInsert<V>(t: Tree<V>, orig: Key, key: Key, v: V, other: Key)
    requires key != [] && orig != [] && other != []
    ensures HasPath(Insert(t, orig, key, v), other) <==> HasPath(t, other) || other <= key
    decreases |key|, t
  {
    var cur := if t.Empty? then Node(key[0], Empty, Empty, Empty, None, None) else t;
    if key[0] < cur.split {
      PathInsert(cur.low, orig, key, v, other);
    } else if key[0] > cur.split {
      PathInsert(cur.high, orig, key, v, other);
    } else if other[0] == key[0] && |other| == 1 {
      assert other == key[..1];
    } else if other[0] == key[0] && |key| > 1 {
      PathInsert(cur.equal, orig, key[1..], v, other[1..]);
      assert other <= key <==> other[1..] <= key[1..] by {
        assert key == [key[0]] + key[1..] && other == [other[0]] + other[1..];
      }
      assert HasPath(t, other) <==> HasPath(cur.equal, other[1..]);
    } else {
      assert !(other <= key);
      assert HasPath(cur, other) <==> HasPath(t, other) by {
        if t.Empty? { assert |other| > 1 ==> FindNode(cur.equal, other[1..]).Empty?; }
      }
    }
  }

  /** Every prefix of a path is a path. */
  lemma {:induction false} PrefixIsPath<V>(t: Tree<V>, short: Key, long: Key)
    requires short != [] && short <= long && HasPath(t, long)
    ensures HasPath(t, short)
    decreases |long|, t
  {
    if t.Node? {
      if short[0] < t.split {
        PrefixIsPath(t.low, short, long);
      } else if short[0] > t.split {
        PrefixIsPath(t.high, short, long);
      } else if |short| > 1 {
        PrefixIsPath(t.equal, short[1..], long[1..]);
      }
    }
  }

  /** Below a node of a tight tree there is always a bound key. */
  lemma {:induction false} TightHasBoundKey<V>(t: Tree<V>) returns (k: Key)
    requires t.Node? && Tight(t)
    ensures k != [] && k[0] == t.split && Lookup(t, k).Some?
  {
    if t.value.Some? {
      k := [t.split];
    } else {
      var rest := TightHasBoundKey(t.equal);
      k := [t.split] + rest;
      assert k[1..] == rest;
    }
  }

  lemma {:induction false} TightExtension<V>(t: Tree<V>, key: Key) returns (k: Key)
    requires Tight(t) && key != [] && HasPath(t, key)
    ensures key <= k && Lookup(t, k).Some?
    decreases |key|, t
  {
    if key[0] < t.split {
      k := TightExtension(t.low, key);
    } else if key[0] > t.split {
      k := TightExtension(t.high, key);
    } else if |key| > 1 {
      var rest := TightExtension(t.equal, key[1..]);
      k := [t.split] + rest;
      assert k[1..] == rest;
    } else {
      k := TightHasBoundKey(t);
    }
  }

  // ---------------------------------------------------------------- the finite map

  /** The finite map a tree stands for. */
  ghost function Bindings<V>(t: Tree<V>, prefix: Key): map<Key, V> {
    if t.Empty? then map[] else
      var here := prefix + [t.split];
      Bindings(t.low, prefix) + Bindings(t.equal, here) + Bindings(t.high, prefix)
      + (if t.value.Some? then map[here := t.value.value] else map[])
  }

  ghost function Map<V>(t: Tree<V>): map<Key, V> {
    Bindings(t, [])
  }

  lemma {:induction false} BindingsBelowPrefix<V>(t: Tree<V>, prefix: Key, k: Key)
    requires k in Bindings(t, prefix)
    ensures |k| > |prefix| && prefix <= k && k[|prefix|] in Heads(t)
  {
    var here := prefix + [t.split];
    if k in Bindings(t.low, prefix) {
      BindingsBelowPrefix(t.low, prefix, k);
    } else if k in Bindings(t.equal, here) {
      BindingsBelowPrefix(t.equal, here, k);
      assert k[|prefix|] == here[|prefix|];
    } else if k in Bindings(t.high, prefix) {
      BindingsBelowPrefix(t.high, prefix, k);
    }
  }

  /** The map holds what a search finds: this is where the order of the nodes matters. */
  lemma {:induction false} BindingsAreLookups<V>(t: Tree<V>, prefix: Key, key: Key)
    requires Ordered(t) && key != []
    ensures prefix + key in Bindings(t, prefix) <==> Lookup(t, key).Some?
    ensures Lookup(t, key).Some? ==> Bindings(t, prefix)[prefix + key] == Lookup(t, key).value
    decreases |key|, t
  {
    if t.Node? {
      var here, k := prefix + [t.split], prefix + key;
      assert k[|prefix|] == key[0];
      if k in Bindings(t.low, prefix) { BindingsBelowPrefix(t.low, prefix, k); }
      if k in Bindings(t.high, prefix) { BindingsBelowPrefix(t.high, prefix, k); }
      if k in Bindings(t.equal, here) {
        BindingsBelowPrefix(t.equal, here, k);
        assert k[|prefix|] == here[|prefix|];
      }
      if key[0] < t.split {
        BindingsAreLookups(t.low, prefix, key);
      } else if key[0] > t.split {
        BindingsAreLookups(t.high, prefix, key);
      } else if |key| > 1 {
        assert k == here + key[1..];
        BindingsAreLookups(t.equal, here, key[1..]);
      } else {
        assert k == here;
      }
    }
  }

  lemma {:induction false} MapIsLookup<V>(t: Tree<V>, key: Key)
    requires Ordered(t)
    ensures key in Map(t) <==> key != [] && Lookup(t, key).Some?
    ensures key in Map(t) ==> Map(t)[key] == Lookup(t, key).value
  {
    if key == [] {
      if key in Map(t) { BindingsBelowPrefix(t, [], key); }
    } else {
      assert [] + key == key;
      BindingsAreLookups(t, [], key);
    }
  }

  /** A forced insertion is a map update. */
  lemma {:induction false} InsertIsMapUpdate<V>(t: Tree<V>, key: Key, v: V)
    requires key != [] && Ordered(t)
    ensures Map(Insert(t, key, key, v)) == Map(t)[key := v]
  {
    var t' := Insert(t, key, key, v);
    InsertKeepsOrder(t, key, key, v);
    forall k ensures k in Map(t') <==> k in Map(t)[key := v]
             ensures k in Map(t') ==> Map(t')[k] == Map(t)[key := v][k] {
      MapIsLookup(t, k);
      MapIsLookup(t', k);
      if k != [] { LookupInsert(t, key, key, v, k); }
    }
  }

  /** A deletion removes one key and nothing else. */
  lemma {:induction false} DeleteIsMapRemoval<V>(t: Tree<V>, key: Key)
    requires key != [] && HasPath(t, key)
    requires Ordered(t) && Live(t) && Spelled(t, [])
    ensures Map(Delete(t, key)) == Map(t) - {key}
  {
    var t' := Delete(t, key);
    DeleteKeepsInvariants(t, [], key);
    forall k ensures k in Map(t') <==> k in Map(t) - {key}
             ensures k in Map(t') ==> Map(t')[k] == (Map(t) - {key})[k] {
      MapIsLookup(t, k);
      MapIsLookup(t', k);
      if k != [] { LookupDelete(t, key, k); }
    }
  }

  lemma {:induction false} SetAtIsInsertion<V>(t: Tree<V>, prefix: Key, key: Key, v: V)
    requires key != [] && HasPath(t, key) && Lookup(t, key).Some? && Spelled(t, prefix)
    ensures SetAt(t, key, v) == Insert(t, prefix + key, key, v)
    decreases |key|, t
  {
    if key[0] < t.split {
      SetAtIsInsertion(t.low, prefix, key, v);
    } else if key[0] > t.split {
      SetAtIsInsertion(t.high, prefix, key, v);
    } else if |key| > 1 {
      assert prefix + key == prefix + [t.split] + key[1..];
      SetAtIsInsertion(t.equal, prefix + [t.split], key[1..], v);
    } else {
      assert key == [t.split];
    }
  }

  /** What every tree reached from the empty one satisfies. */
  ghost predicate WellFormed<V>(t: Tree<V>) {
    Ordered(t) && Live(t) && Spelled(t, [])
  }

  lemma InsertKeepsWellFormed<V>(t: Tree<V>, key: Key, v: V)
    requires key != [] && WellFormed(t)
    ensures WellFormed(Insert(t, key, key, v))
    ensures Map(Insert(t, key, key, v)) == Map(t)[key := v]
  {
    InsertKeepsOrder(t, key, key, v);
    InsertKeepsLive(t, key, key, v);
    assert [] + key == key;
    InsertKeepsSpelling(t, [], key, v);
    InsertIsMapUpdate(t, key, v);
  }

  lemma DeleteKeepsWellFormed<V>(t: Tree<V>, key: Key)
    requires key != [] && HasPath(t, key) && WellFormed(t)
    ensures WellFormed(Delete(t, key))
    ensures Map(Delete(t, key)) == Map(t) - {key}
  {
    DeleteKeepsInvariants(t, [], key);
    DeleteIsMapRemoval(t, key);
  }

  lemma SetAtKeepsWellFormed<V>(t: Tree<V>, key: Key, v: V)
    requires key != [] && WellFormed(t) && key in Map(t)
    ensures HasPath(t, key) && WellFormed(SetAt(t, key, v))
    ensures Map(SetAt(t, key, v)) == Map(t)[key := v]
  {
    MapIsLookup(t, key);
    assert [] + key == key;
    SetAtIsInsertion(t, [], key, v);
    InsertKeepsWellFormed(t, key, v);
  }

  /** In a tree nothing was deleted from, the plain insertion refuses exactly the prefixes of bound keys. */
  lemma {:induction false} RefusedExactlyPrefixes<V>(t: Tree<V>, key: Key)
    requires Ordered(t) && Tight(t) && key != []
    ensures HasPath(t, key) <==> exists k :: k in Map(t) && key <= k
  {
    if HasPath(t, key) {
      var k := TightExtension(t, key);
      MapIsLookup(t, k);
      assert k in Map(t) && key <= k;
    }
    if k :| k in Map(t) && key <= k {
      MapIsLookup(t, k);
      PrefixIsPath(t, key, k);
    }
  }

  /** `key` is on the way to a bound key. */
  ghost predicate Extended<V>(t: Tree<V>, key: Key) {
    exists k :: IsExtension(t, key, k)
  }

  predicate IsExtension<V>(t: Tree<V>, key: Key, k: Key) {
    key <= k && Lookup(t, k).Some?
  }

  /** Every node the search reaches is on the way to a bound key. */
  ghost predicate Extends<V>(t: Tree<V>) {
    forall key :: key != [] && HasPath(t, key) ==> Extended(t, key)
  }

  lemma {:induction false} PathStartsAtHead<V>(t: Tree<V>, key: Key)
    requires key != [] && HasPath(t, key)
    ensures key[0] in Heads(t)
    decreases t
  {
    if key[0] < t.split {
      PathStartsAtHead(t.low, key);
    } else if key[0] > t.split {
      PathStartsAtHead(t.high, key);
    }
  }

  lemma ExtendsBelow<V>(t: Tree<V>)
    requires Ordered(t) && t.Node? && Extends(t)
    ensures Extends(t.low) && Extends(t.equal) && Extends(t.high)
    ensures t.value.None? ==> t.equal.Node?
  {
    forall key | key != [] && HasPath(t.low, key) ensures Extended(t.low, key) {
      PathStartsAtHead(t.low, key);
      assert HasPath(t, key);
      var k :| IsExtension(t, key, k);
      assert IsExtension(t.low, key, k);
    }
    forall key | key != [] && HasPath(t.high, key) ensures Extended(t.high, key) {
      PathStartsAtHead(t.high, key);
      assert HasPath(t, key);
      var k :| IsExtension(t, key, k);
      assert IsExtension(t.high, key, k);
    }
    forall key | key != [] && HasPath(t.equal, key) ensures Extended(t.equal, key) {
      var longer := [t.split] + key;
      assert longer[1..] == key && HasPath(t, longer);
      var k :| IsExtension(t, longer, k);
      assert k[0] == longer[0] && IsExtension(t.equal, key, k[1..]);
    }
    assert HasPath(t, [t.split]);
    var k :| IsExtension(t, [t.split], k);
    assert k[0] == t.split && (|k| > 1 ==> FindNode(t, k) == FindNode(t.equal, k[1..]));
  }

  lemma {:induction false} ExtendsIsTight<V>(t: Tree<V>)
    requires Ordered(t) && Extends(t)
    ensures Tight(t)
  {
    if t.Node? {
      ExtendsBelow(t);
      ExtendsIsTight(t.low);
      ExtendsIsTight(t.equal);
      ExtendsIsTight(t.high);
    }
  }

  /** The refusals are the prefixes of bound keys in no other trees: any other one refuses too much. */
  lemma RefusalsExactIffTight<V>(t: Tree<V>)
    requires Ordered(t)
    ensures Tight(t) <==> forall key :: key != [] ==> (HasPath(t, key) <==> exists k :: k in Map(t) && key <= k)
  {
    if Tight(t) {
      forall key | key != [] ensures HasPath(t, key) <==> exists k :: k in Map(t) && key <= k {
        RefusedExactlyPrefixes(t, key);
      }
    }
    if forall key :: key != [] ==> (HasPath(t, key) <==> exists k :: k in Map(t) && key <= k) {
      forall key | key != [] && HasPath(t, key) ensures Extended(t, key) {
        var k :| k in Map(t) && key <= k;
        MapIsLookup(t, k);
        assert IsExtension(t, key, k);
      }
      ExtendsIsTight(t);
    }
  }

  /**
    A deletion can leave such a tree: "b" NUL, "bb" NUL, delete "b" NUL, and "b" NUL is still refused,
    although it is bound to nothing and a prefix of nothing bound.
   */
  lemma {:induction false} DeletedKeyMayBeRefused<V>(v: V)
    ensures var b := ['b' as int, 0];
            var bb := ['b' as int, 'b' as int, 0];
            var t := Insert(Insert(Empty, b, b, v), bb, bb, v);
            && HasPath(t, b) && HasPath(Delete(t, b), b)
            && forall k :: b <= k ==> Lookup(Delete(t, b), k).None?
  {
    var b, bb := ['b' as int, 0], ['b' as int, 'b' as int, 0];
    var t1: Tree<V> := Insert(Empty, b, b, v);
    var t := Insert(t1, bb, bb, v);
    PathInsert<V>(Empty, b, b, v, b);
    PathInsert(t1, bb, bb, v, b);
    assert b[1..] == [0] && bb[1..] == ['b' as int, 0] && bb[1..][1..] == [0];
    assert t.equal.split == 0 && t.equal.equal.Empty? && t.equal.high.Node?;
    forall k | b <= k ensures Lookup(Delete(t, b), k).None? {
      LookupDelete(t, b, k);
      if k != b { assert k[1] == b[1] && FindNode(t, k) == FindNode(t.equal, k[1..]) == FindNode<V>(Empty, k[2..]); }
    }
  }
}
