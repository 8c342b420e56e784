/** The walker on the heap: which neighbour it came from is a comparison of pointers. */
module TreeIterator {
  import opened Options
  import opened TernaryTree
  import opened TreeObject
  import opened TreeWalk
  import opened WalkOrder

  ghost function ChildOf<V>(n: TreeNode<V>, d: Dir): TreeNode?<V>
    reads n
  {
    match d case Low => n.low case Equal => n.equal case High => n.high
  }

  /** The node a path leads to. */
  ghost function NodeAt<V>(n: TreeNode<V>, p: Path): TreeNode<V>
    requires n.Valid() && IsPath(n.Shape(), p)
    reads n, n.repr
    ensures NodeAt(n, p) in n.repr
    ensures NodeAt(n, p).Valid() && NodeAt(n, p).repr <= n.repr && NodeAt(n, p).Shape() == Sub(n.Shape(), p)
    decreases |p|
  {
    if p == [] then n else
      assert IsPath(Child(n.Shape(), p[0]), p[1..]);
      NodeAt(ChildOf(n, p[0]), p[1..])
  }

  /** Parent pointers lead one step back along the path; no node is its own descendant. */
  lemma {:induction false} ParentOfNodeAt<V>(n: TreeNode<V>, p: Path)
    requires n.Valid() && IsPath(n.Shape(), p) && p != []
    ensures var q := p[..|p| - 1];
            && IsPath(n.Shape(), q) && ChildOf(NodeAt(n, q), p[|p| - 1]) == NodeAt(n, p)
            && NodeAt(n, p).parent == NodeAt(n, q) && NodeAt(n, q) !in NodeAt(n, p).repr
            && (NodeAt(n, q) == n <==> |p| == 1)
    decreases |p|
  {
    if |p| == 1 {
      assert p[..0] == [] && p[1..] == [];
    } else {
      assert p[..|p| - 1][1..] == p[1..][..|p[1..]| - 1];
      ParentOfNodeAt(ChildOf(n, p[0]), p[1..]);
    }
  }

  lemma {:induction false} SearchEndsAtPath<V>(n: TreeNode<V>, key: Key)
    requires n.Valid() && key != []
    ensures NodeFor(n, key) == null <==> PathTo(n.Shape(), key) == None
    ensures PathTo(n.Shape(), key).Some? ==> NodeFor(n, key) == NodeAt(n, PathTo(n.Shape(), key).value)
    decreases |key|, n.repr
  {
    if key[0] < n.splitchar {
      if n.low != null { SearchEndsAtPath(n.low, key); }
    } else if key[0] > n.splitchar {
      if n.high != null { SearchEndsAtPath(n.high, key); }
    } else if |key| > 1 {
      if n.equal != null { SearchEndsAtPath(n.equal, key[1..]); }
    }
  }

  /** `previous` is where the walker came from. */
  ghost predicate CameFrom<V>(current: TreeNode<V>, previous: TreeNode?<V>, from: From)
    reads current
  {
    match from
    case Start => previous == null
    case Above => previous != null && previous == current.parent
    case Below(d) => previous != null && previous == ChildOf(current, d)
  }

  /** The pointer comparisons tell the directions apart. */
  lemma PointersTellDirections<V>(root: TreeNode<V>, p: Path, previous: TreeNode?<V>, from: From)
    requires root.Valid() && root.parent == null && IsPath(root.Shape(), p)
    requires CameFrom(NodeAt(root, p), previous, from)
    ensures var n, t := NodeAt(root, p), Sub(root.Shape(), p);
            && (previous == null <==> from == Start)
            && (previous != null && previous == n.parent <==> from == Above)
            && (previous != null && previous == n.low <==> from == Below(Low))
            && (previous != null && previous == n.equal <==> from == Below(Equal))
            && (n.parent == root <==> |p| == 1) && (n.parent == null <==> p == [])
            && (n.low == null <==> t.low.Empty?) && (n.equal == null <==> t.equal.Empty?)
            && (n.high == null <==> t.high.Empty?)
            && n.key == t.key
  {
    if p != [] { ParentOfNodeAt(root, p); }
  }

  lemma StepUp<V>(n: TreeNode<V>, p: Path)
    requires n.Valid() && IsPath(n.Shape(), p) && p != []
    ensures var q := p[..|p| - 1];
            && IsPath(n.Shape(), q) && NodeAt(n, q) == NodeAt(n, p).parent
            && CameFrom(NodeAt(n, q), NodeAt(n, p), Below(p[|p| - 1]))
  {
    ParentOfNodeAt(n, p);
    Ascend(n.Shape(), p);
  }

  lemma {:induction false} StepDown<V>(n: TreeNode<V>, p: Path, d: Dir)
    requires n.Valid() && IsPath(n.Shape(), p) && ChildOf(NodeAt(n, p), d) != null
    ensures IsPath(n.Shape(), p + [d]) && NodeAt(n, p + [d]) == ChildOf(NodeAt(n, p), d)
    decreases |p|
  {
    Descend(n.Shape(), p, d);
    if p == [] {
      assert (p + [d])[1..] == [];
    } else {
      assert (p + [d])[1..] == p[1..] + [d];
      StepDown(ChildOf(n, p[0]), p[1..], d);
    }
  }

  /** The test under which the walker answers with the key of the node it is at. */
  predicate Answers<V>(n: TreeNode<V>, root: TreeNode<V>, previous: TreeNode?<V>)
    reads n
  {
    n.key.Some? && ((previous != null && previous == n.parent)
                    || (n.parent == root && ((previous == null && n.low == null) || previous == n.low)))
  }

  predicate GoesLow<V>(n: TreeNode<V>, previous: TreeNode?<V>)
    reads n
  {
    n.low != null && (previous == null || previous == n.parent)
  }

  predicate GoesEqual<V>(n: TreeNode<V>, previous: TreeNode?<V>)
    reads n
  {
    n.equal != null && (previous == null || previous == n.parent || previous == n.low)
  }

  predicate GoesHigh<V>(n: TreeNode<V>, previous: TreeNode?<V>)
    reads n
  {
    n.high != null && (previous == null || previous == n.parent || previous == n.low || previous == n.equal)
  }

  /** The tests on pointers make the moves of the specification. */
  lemma PointersMakeMoves<V>(root: TreeNode<V>, p: Path, previous: TreeNode?<V>, from: From)
    requires root.Valid() && root.parent == null && IsPath(root.Shape(), p)
    requires CameFrom(NodeAt(root, p), previous, from)
    ensures var n, m := NodeAt(root, p), Move(root.Shape(), p, from);
            if Answers(n, root, previous) then m == None
            else if GoesLow(n, previous) then m == Some(Place(p + [Low], Above)) && NodeAt(root, p + [Low]) == n.low
            else if GoesEqual(n, previous) then
              m == Some(Place(p + [Equal], Above)) && NodeAt(root, p + [Equal]) == n.equal
            else if GoesHigh(n, previous) then m == Some(Place(p + [High], Above)) && NodeAt(root, p + [High]) == n.high
            else if n.parent != null then
              && p != [] && m == Some(Place(p[..|p| - 1], Below(p[|p| - 1])))
              && NodeAt(root, p[..|p| - 1]) == n.parent && ChildOf(n.parent, p[|p| - 1]) == n
            else m == None
  {
    PointersTellDirections(root, p, previous, from);
    var n := NodeAt(root, p);
    if Answers(n, root, previous) {
    } else if GoesLow(n, previous) {
      StepDown(root, p, Low);
    } else if GoesEqual(n, previous) {
      StepDown(root, p, Equal);
    } else if GoesHigh(n, previous) {
      StepDown(root, p, High);
    } else if n.parent != null {
      StepUp(root, p);
    }
  }

  /** _co_tree_next_r */
  method NextR<V>(root: TreeNode<V>, current: TreeNode<V>, previous: TreeNode?<V>, ghost p: Path, ghost from: From)
      returns (key: Option<Key>)
    requires root.Valid() && root.parent == null && IsPath(root.Shape(), p)
    requires current == NodeAt(root, p) && CameFrom(current, previous, from)
    ensures key == Walk(root.Shape(), p, from)
    decreases Tour(root.Shape(), p, from)
  {
    PointersMakeMoves(root, p, previous, from);
    if Answers(current, root, previous) {
      key := current.key;
    } else if GoesLow(current, previous) {
      key := NextR(root, current.low, current, p + [Low], Above);
    } else if GoesEqual(current, previous) {
      key := NextR(root, current.equal, current, p + [Equal], Above);
    } else if GoesHigh(current, previous) {
      key := NextR(root, current.high, current, p + [High], Above);
    } else if current.parent != null {
      key := NextR(root, current.parent, current, p[..|p| - 1], Below(p[|p| - 1]));
    } else {
      key := current.key;
    }
  }

  /** co_tree_next, on the root of a tree. */
  method NextKey<V>(root: TreeNode?<V>, key: Option<Key>) returns (r: Option<Key>)
    requires root != null ==> root.Valid() && root.parent == null
    requires key.Some? ==> key.value != []
    ensures r == Next(ShapeOf(root), key)
  {
    if root == null {
      return None;
    }
    var node: TreeNode?<V> := root;
    ghost var p: Path := [];
    if key.Some? {
      node := FindNodeFrom(root, key.value);
      SearchEndsAtPath(root, key.value);
      if node == null {
        return None;
      }
      p := PathTo(root.Shape(), key.value).value;
    }
    r := NextR(root, node, null, p, Start);
    if r == key {
      r := None;
    }
  }

  /**
    The loop every caller of co_tree_next writes: on an enumerable tree it visits the listed keys in
    increasing order, that is the bound ones and those of RunLists in WalkRuns.dfy.
   */
  method AllKeys<V>(root: TreeNode?<V>) returns (keys: seq<Key>)
    requires root != null ==> root.Valid() && root.parent == null
    requires Ordered(ShapeOf(root)) && NulShaped(ShapeOf(root), []) && Enumerable(ShapeOf(root))
    ensures Sorted(keys)
    ensures forall k :: k in keys <==> Listed(ShapeOf(root), k)
    ensures forall k :: k in Map(ShapeOf(root)) ==> k in keys
  {
    ghost var t := ShapeOf(root);
    ghost var ks := Keys(t);
    SuccessorOf(t, -1);
    keys := [];
    var key := NextKey(root, None);
    while key.Some?
      invariant keys <= ks && key == Successor(ks, |keys| - 1)
      invariant key.Some? ==> key.value != []
      decreases |ks| - |keys|
    {
      SuccessorOf(t, |keys|);
      assert keys + [key.value] <= ks;
      keys := keys + [key.value];
      key := NextKey(root, key);
    }
    assert keys == ks;
    EnumeratedKeys(t);
  }

  lemma EnumeratedKeys<V>(t: Tree<V>)
    requires Ordered(t) && NulShaped(t, [])
    ensures Sorted(Keys(t)) && forall k :: (k in Keys(t) <==> Listed(t, k)) && (k in Map(t) ==> k in Keys(t))
  {
    KeysAreSorted(t, []);
    forall k ensures (k in Keys(t) <==> Listed(t, k)) && (k in Map(t) ==> k in Keys(t)) { KeysAreListed(t, k); }
  }

  lemma SuccessorOf<V>(t: Tree<V>, i: int)
    requires Ordered(t) && NulShaped(t, []) && Enumerable(t) && -1 <= i < |Keys(t)|
    ensures i == -1 ==> Next(t, None) == Successor(Keys(t), -1)
    ensures i >= 0 ==> Keys(t)[i] != [] && Next(t, Some(Keys(t)[i])) == Successor(Keys(t), i)
    ensures i + 1 < |Keys(t)| ==> Keys(t)[i + 1] != []
  {
    EnumeratesExactly(t);
    assert Enumerates(t);
  }
}
