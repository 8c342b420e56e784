/** What the enumeration gives after any run of insertions and deletions. */
module WalkRuns {
  import opened Options
  import opened TernaryTree
  import opened TreeRuns
  import opened TreeWalk
  import opened WalkOrder

  // ---------------------------------------------------------------- one operation

  lemma {:induction false} DeleteKeepsNulShape<V>(t: Tree<V>, prefix: Key, key: Key)
    requires key != [] && HasPath(t, key) && NulShaped(t, prefix)
    ensures NulShaped(Delete(t, key), prefix)
    decreases |key|, t
  {
    if key[0] < t.split {
      DeleteKeepsNulShape(t.low, prefix, key);
    } else if key[0] > t.split {
      DeleteKeepsNulShape(t.high, prefix, key);
    } else if |key| > 1 {
      DeleteKeepsNulShape(t.equal, prefix + [t.split], key[1..]);
    }
  }

  lemma {:induction false} ListedAfterInsert<V>(t: Tree<V>, orig: Key, key: Key, v: V, other: Key)
    requires key != [] && orig != [] && other != []
    ensures Listed(Insert(t, orig, key, v), other) <==> Listed(t, other) || other == key
    decreases |key|, t
  {
    var cur := if t.Empty? then Node(key[0], Empty, Empty, Empty, None, None) else t;
    assert Listed(cur, other) <==> Listed(t, other) by {
      if t.Empty? { assert |other| > 1 ==> FindNode(cur.equal, other[1..]).Empty?; }
    }
    if key[0] < cur.split {
      ListedAfterInsert(cur.low, orig, key, v, other);
    } else if key[0] > cur.split {
      ListedAfterInsert(cur.high, orig, key, v, other);
    } else if |key| > 1 {
      assert key == [key[0]] + key[1..];
      if other[0] == key[0] && |other| > 1 {
        assert other == [other[0]] + other[1..];
        ListedAfterInsert(cur.equal, orig, key[1..], v, other[1..]);
      }
    } else {
      assert key == [key[0]];
      assert |other| == 1 ==> other == [other[0]];
    }
  }

  /** A deletion takes keys off the list only together with their nodes. */
  lemma {:induction false} ListedAfterDelete<V>(t: Tree<V>, key: Key, other: Key)
    requires key != [] && other != [] && HasPath(t, key)
    ensures Listed(Delete(t, key), other) <==> Listed(t, other) && HasPath(Delete(t, key), other)
    decreases |key|, t
  {
    if key[0] < t.split {
      if other[0] < t.split { ListedAfterDelete(t.low, key, other); }
    } else if key[0] > t.split {
      if other[0] > t.split { ListedAfterDelete(t.high, key, other); }
    } else if |key| > 1 {
      if other[0] == t.split && |other| > 1 { ListedAfterDelete(t.equal, key[1..], other[1..]); }
    }
  }

  /** The node of the deleted key itself stays exactly when it has a child. */
  lemma {:induction false} NodeStaysWithChild<V>(t: Tree<V>, key: Key)
    requires key != [] && HasPath(t, key)
    ensures var n := FindNode(t, key);
            HasPath(Delete(t, key), key) <==> n.low.Node? || n.equal.Node? || n.high.Node?
    decreases |key|, t
  {
    if key[0] < t.split {
      NodeStaysWithChild(t.low, key);
    } else if key[0] > t.split {
      NodeStaysWithChild(t.high, key);
    } else if |key| > 1 {
      NodeStaysWithChild(t.equal, key[1..]);
    }
  }

  /** When co_tree_next still returns the key that was just deleted. */
  lemma DeletedKeyIsListed<V>(t: Tree<V>, key: Key)
    requires Ordered(t) && Live(t) && Spelled(t, []) && NulShaped(t, []) && key in Map(t)
    ensures key != [] && HasPath(t, key) && NulShaped(Delete(t, key), []) && key !in Map(Delete(t, key))
    ensures key in Keys(Delete(t, key)) <==> FindNode(t, key).equal.Node? || FindNode(t, key).high.Node?
  {
    MapIsLookup(t, key);
    DeleteKeepsWellFormed(t, key);
    DeleteKeepsNulShape(t, [], key);
    KeysAreListed(t, key);
    KeysAreListed(Delete(t, key), key);
    ListedAfterDelete(t, key, key);
    NodeStaysWithChild(t, key);
    SubIsNulShaped(t, [], PathTo(t, key).value);
  }

  // ---------------------------------------------------------------- runs

  /** Every inserted key is a C string of at least `least` bytes. */
  ghost predicate CStrings<V>(ops: seq<Op<V>>, least: nat) {
    forall i :: 0 <= i < |ops| && !ops[i].Remove? ==> CString(ops[i].key) && |ops[i].key| >= least
  }

  ghost predicate Walkable<V>(t: Tree<V>, least: nat) {
    WellFormed(t) && NulShaped(t, []) && forall k :: Listed(t, k) ==> |k| >= least
  }

  lemma StepKeepsWalkable<V>(s: State<V>, op: Op<V>, wide: bool, least: nat)
    requires Walkable(s.tree, least) && Allowed(s, op)
    requires op.Remove? || (CString(op.key) && |op.key| >= least)
    ensures Walkable(Step(s, op, wide).tree, least)
  {
    var t := Step(s, op, wide).tree;
    StepRefinesMap(s, op, wide);
    if op.Remove? {
      DeleteKeepsNulShape(s.tree, [], op.key);
      forall k | Listed(t, k) ensures |k| >= least { ListedAfterDelete(s.tree, op.key, k); }
    } else if !Refused(s, op) {
      assert [] + op.key == op.key;
      InsertKeepsNulShape(s.tree, [], op.key, op.v);
      forall k | Listed(t, k) ensures |k| >= least { ListedAfterInsert(s.tree, op.key, op.key, op.v, k); }
    }
  }

  lemma {:induction false} RunKeepsWalkable<V>(s: State<V>, ops: seq<Op<V>>, wide: bool, least: nat)
    requires Walkable(s.tree, least) && Legal(s, ops, wide) && CStrings(ops, least)
    ensures Walkable(Exec(s, ops, wide).tree, least)
    decreases |ops|
  {
    if ops != [] {
      StepKeepsWalkable(s, ops[0], wide, least);
      RunKeepsWalkable(Step(s, ops[0], wide), ops[1..], wide, least);
    }
  }

  /** The root and its children are too shallow to hold a key of three bytes. */
  lemma LongKeysAreEnumerable<V>(t: Tree<V>)
    requires Walkable(t, 3)
    ensures Enumerable(t)
  {
    if t.Node? {
      assert IsPath(t, []) && Sub(t, []) == t;
      if t.key.Some? { HeldKeyIsListed(t, []); }
      forall d | Child(t, d).Node? ensures Child(t, d).key.None? {
        OneStepPath(t, d);
        assert NulShaped(Child(t, d), if d == Equal then [] + [t.split] else []);
        if Child(t, d).key.Some? { HeldKeyIsListed(t, [d]); }
      }
    }
  }

  lemma HeldKeyIsListed<V>(t: Tree<V>, p: Path)
    requires Ordered(t) && NulShaped(t, []) && IsPath(t, p) && Sub(t, p).key.Some?
    ensures Listed(t, Sub(t, p).key.value)
  {
    var before := KeysAroundPath(t, p);
    assert Keys(Sub(t, p))[0] == Sub(t, p).key.value;
    assert Keys(t)[|before|] == Sub(t, p).key.value;
    KeysAreListed(t, Sub(t, p).key.value);
  }

  /**
    From the empty tree on: co_tree_next enumerates the tree exactly when no key is too close to the root,
    which keys of three bytes or more, the NUL included, never are.
   */
  lemma RunEnumerates<V>(ops: seq<Op<V>>, wide: bool)
    requires Legal(State(Empty, 0), ops, wide) && CStrings(ops, 1)
    ensures var t := Exec(State(Empty, 0), ops, wide).tree;
            && WalkOrder.Sorted(Keys(t))
            && (Enumerates(t) <==> Enumerable(t))
            && (CStrings(ops, 3) ==> Enumerates(t))
  {
    var s: State<V> := State(Empty, 0);
    RunKeepsWalkable(s, ops, wide, 1);
    KeysAreSorted(Exec(s, ops, wide).tree, []);
    EnumeratesExactly(Exec(s, ops, wide).tree);
    if CStrings(ops, 3) {
      RunKeepsWalkable(s, ops, wide, 3);
      LongKeysAreEnumerable(Exec(s, ops, wide).tree);
    }
  }

  /** The run inserts that key; it deletes it. */
  ghost predicate Inserts<V>(ops: seq<Op<V>>, key: Key) {
    exists i :: 0 <= i < |ops| && !ops[i].Remove? && ops[i].key == key
  }

  ghost predicate Removes<V>(ops: seq<Op<V>>, key: Key) {
    exists i :: 0 <= i < |ops| && ops[i].Remove? && ops[i].key == key
  }

  lemma StepListing<V>(s: State<V>, op: Op<V>, wide: bool, key: Key)
    requires WellFormed(s.tree) && Allowed(s, op) && key != []
    ensures var s' := Step(s, op, wide);
            && WellFormed(s'.tree)
            && (Listed(s'.tree, key) ==> Listed(s.tree, key) || (!op.Remove? && op.key == key))
            && ((Listed(s.tree, key) <==> Lookup(s.tree, key).Some?) && !(op.Remove? && op.key == key)
                ==> (Listed(s'.tree, key) <==> Lookup(s'.tree, key).Some?))
  {
    StepRefinesMap(s, op, wide);
    if op.Remove? {
      ListedAfterDelete(s.tree, op.key, key);
      LookupDelete(s.tree, op.key, key);
    } else if !Refused(s, op) {
      ListedAfterInsert(s.tree, op.key, op.key, op.v, key);
      LookupInsert(s.tree, op.key, op.key, op.v, key);
    }
  }

  lemma {:induction false} RunListing<V>(s: State<V>, ops: seq<Op<V>>, wide: bool, key: Key)
    requires WellFormed(s.tree) && Legal(s, ops, wide) && key != []
    ensures var e := Exec(s, ops, wide);
            && WellFormed(e.tree)
            && (Listed(e.tree, key) ==> Listed(s.tree, key) || Inserts(ops, key))
            && ((Listed(s.tree, key) <==> Lookup(s.tree, key).Some?) && !Removes(ops, key)
                ==> (Listed(e.tree, key) <==> Lookup(e.tree, key).Some?))
    decreases |ops|
  {
    if ops != [] {
      StepListing(s, ops[0], wide, key);
      RunListing(Step(s, ops[0], wide), ops[1..], wide, key);
      forall i | 0 <= i < |ops[1..]| ensures ops[1..][i] == ops[i + 1] {}
    }
  }

  /**
    What is enumerated: every bound key, and besides only keys that were inserted and deleted again
    and whose node has a child after them.
   */
  lemma RunLists<V>(ops: seq<Op<V>>, wide: bool, key: Key)
    requires Legal(State(Empty, 0), ops, wide) && CStrings(ops, 1)
    ensures var t := Exec(State(Empty, 0), ops, wide).tree;
            && (key in Map(t) ==> key in Keys(t))
            && (key in Keys(t) ==> Inserts(ops, key))
            && (key in Keys(t) && key !in Map(t) ==>
                  key != [] && Removes(ops, key) && HasPath(t, key)
                  && (FindNode(t, key).equal.Node? || FindNode(t, key).high.Node?))
  {
    var s: State<V> := State(Empty, 0);
    var t := Exec(s, ops, wide).tree;
    RunKeepsWalkable(s, ops, wide, 1);
    KeysAreListed(t, key);
    MapIsLookup(t, key);
    if key in Keys(t) {
      RunListing(s, ops, wide, key);
      SubIsNulShaped(t, [], PathTo(t, key).value);
      LiveNode(t, PathTo(t, key).value);
    }
  }

  lemma {:induction false} LiveNode<V>(t: Tree<V>, p: Path)
    requires Live(t) && IsPath(t, p)
    ensures var n := Sub(t, p); n.value.None? ==> n.low.Node? || n.equal.Node? || n.high.Node?
  {
    if p != [] { LiveNode(Child(t, p[0]), p[1..]); }
  }
}
