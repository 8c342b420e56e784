/**
  The tree objects of src/tree.c on the heap: nodes with parent pointers, updated in
  place, proved against the tree values of TernaryTree.dfy.
 */
module TreeObject {
  import opened Options
  import opened TernaryTree

  class TreeNode<V> {
    var splitchar: int
    var parent: TreeNode?<V>
    var low: TreeNode?<V>
    var equal: TreeNode?<V>
    var high: TreeNode?<V>
    var key: Option<Key>
    var value: Option<V>

    ghost var repr: set<TreeNode<V>>

    /** The nodes below form a tree of distinct nodes whose children point back at them. */
    ghost predicate Valid()
      reads this, repr
      ensures Valid() ==> this in repr
      decreases repr
    {
      && this in repr
      && (low != null ==>
            low in repr && low.repr <= repr && this !in low.repr && low.parent == this && low.Valid())
      && (equal != null ==>
            equal in repr && equal.repr <= repr && this !in equal.repr && equal.parent == this && equal.Valid())
      && (high != null ==>
            high in repr && high.repr <= repr && this !in high.repr && high.parent == this && high.Valid())
      && (low != null && equal != null ==> low.repr !! equal.repr)
      && (low != null && high != null ==> low.repr !! high.repr)
      && (equal != null && high != null ==> equal.repr !! high.repr)
    }

    /** The tree value that this node and the nodes below it stand for. */
    ghost function Shape(): Tree<V>
      requires Valid()
      reads this, repr
      ensures Shape().Node?
      decreases repr
    {
      Node(splitchar,
           if low == null then Empty else low.Shape(),
           if equal == null then Empty else equal.Shape(),
           if high == null then Empty else high.Shape(),
           key, value)
    }

    method LinkLow(child: TreeNode?<V>)
      requires this in repr
      requires child != null ==> child.Valid() && child.parent == this && this !in child.repr
      requires equal != null ==> equal.Valid() && equal.parent == this && this !in equal.repr
      requires equal != null ==> equal in repr && equal.repr <= repr
      requires high != null ==> high.Valid() && high.parent == this && this !in high.repr
      requires high != null ==> high in repr && high.repr <= repr
      requires child != null && equal != null ==> child.repr !! equal.repr
      requires child != null && high != null ==> child.repr !! high.repr
      requires equal != null && high != null ==> equal.repr !! high.repr
      modifies this`low, this`repr
      ensures Valid() && repr == old(repr) + old(ReprOf(child))
      ensures Shape() == Node(splitchar, old(ShapeOf(child)), old(ShapeOf(equal)), old(ShapeOf(high)), key, value)
    {
      low := child;
      repr := repr + ReprOf(child);
    }

    method LinkEqual(child: TreeNode?<V>)
      requires this in repr
      requires child != null ==> child.Valid() && child.parent == this && this !in child.repr
      requires low != null ==> low.Valid() && low.parent == this && this !in low.repr
      requires low != null ==> low in repr && low.repr <= repr
      requires high != null ==> high.Valid() && high.parent == this && this !in high.repr
      requires high != null ==> high in repr && high.repr <= repr
      requires child != null && low != null ==> child.repr !! low.repr
      requires child != null && high != null ==> child.repr !! high.repr
      requires low != null && high != null ==> low.repr !! high.repr
      modifies this`equal, this`repr
      ensures Valid() && repr == old(repr) + old(ReprOf(child))
      ensures Shape() == Node(splitchar, old(ShapeOf(low)), old(ShapeOf(child)), old(ShapeOf(high)), key, value)
    {
      equal := child;
      repr := repr + ReprOf(child);
    }

    method LinkHigh(child: TreeNode?<V>)
      requires this in repr
      requires child != null ==> child.Valid() && child.parent == this && this !in child.repr
      requires low != null ==> low.Valid() && low.parent == this && this !in low.repr
      requires low != null ==> low in repr && low.repr <= repr
      requires equal != null ==> equal.Valid() && equal.parent == this && this !in equal.repr
      requires equal != null ==> equal in repr && equal.repr <= repr
      requires child != null && low != null ==> child.repr !! low.repr
      requires child != null && equal != null ==> child.repr !! equal.repr
      requires low != null && equal != null ==> low.repr !! equal.repr
      modifies this`high, this`repr
      ensures Valid() && repr == old(repr) + old(ReprOf(child))
      ensures Shape() == Node(splitchar, old(ShapeOf(low)), old(ShapeOf(equal)), old(ShapeOf(child)), key, value)
    {
      high := child;
      repr := repr + ReprOf(child);
    }

    constructor (splitchar: int)
      ensures Valid() && fresh(repr) && parent == null
      ensures Shape() == Node(splitchar, Empty, Empty, Empty, None, None)
    {
      this.splitchar := splitchar;
      parent, low, equal, high := null, null, null, null;
      key, value := None, None;
      repr := {this};
    }
  }

  ghost function ReprOf<V>(n: TreeNode?<V>): set<TreeNode<V>>
    reads n
  {
    if n == null then {} else n.repr
  }

  ghost function ShapeOf<V>(n: TreeNode?<V>): Tree<V>
    requires n != null ==> n.Valid()
    reads n, if n == null then {} else n.repr
  {
    if n == null then Empty else n.Shape()
  }

  /** co_tree_find_node: a loop with a cursor, although the specification recurses. */
  method FindNodeFrom<V>(root: TreeNode?<V>, key: Key) returns (n: TreeNode?<V>)
    requires root != null ==> root.Valid()
    ensures n == NodeFor(root, key)
  {
    n := root;
    var i := 0;
    while i < |key| && n != null
      invariant 0 <= i <= |key|
      invariant n != null ==> n.Valid()
      invariant i < |key| ==> NodeFor(n, key[i..]) == NodeFor(root, key)
      invariant i == |key| ==> n == NodeFor(root, key)
      decreases |key| - i, ReprOf(n)
    {
      if key[i] < n.splitchar {
        n := n.low;
      } else if key[i] == n.splitchar {
        i := i + 1;
        assert key[i - 1..][1..] == key[i..];
        if i < |key| {
          n := n.equal;
        }
      } else {
        n := n.high;
      }
    }
  }

  /** _co_tree_insert_r: returns the node that takes the place of `current`. */
  method InsertR<V>(parent: TreeNode?<V>, current: TreeNode?<V>, orig: Key, key: Key, v: V) returns (n: TreeNode<V>)
    requires key != [] && orig != []
    requires current != null ==> current.Valid()
    modifies if current == null then {} else current.repr
    ensures n.Valid() && n.Shape() == Insert(old(ShapeOf(current)), orig, key, v)
    ensures if current == null then fresh(n.repr) && n.parent == parent
            else n == current && fresh(n.repr - old(current.repr)) && n.parent == old(current.parent)
    decreases |key|, 1, if current == null then {} else current.repr, 2
  {
    if current == null {
      n := new TreeNode(key[0]);
      n.parent := parent;
      InsertBelow(n, orig, key, v);
    } else {
      n := current;
      InsertBelow(n, orig, key, v);
    }
  }

  /** The comparisons of _co_tree_insert_r, at a node that exists. */
  method InsertBelow<V>(n: TreeNode<V>, orig: Key, key: Key, v: V)
    requires key != [] && orig != [] && n.Valid()
    modifies n.repr
    ensures n.Valid() && fresh(n.repr - old(n.repr)) && n.parent == old(n.parent)
    ensures n.Shape() == Insert(old(n.Shape()), orig, key, v)
    decreases |key|, if key[0] == n.splitchar then 0 else 1, n.repr, 1
  {
    if key[0] < n.splitchar {
      InsertLow(n, orig, key, v);
    } else if key[0] == n.splitchar {
      if |key| > 1 {
        InsertEqual(n, orig, key, v);
      } else {
        n.value := Some(v);
        n.key := Some(StoredKey(orig));
      }
    } else {
      InsertHigh(n, orig, key, v);
    }
  }

  method InsertLow<V>(n: TreeNode<V>, orig: Key, key: Key, v: V)
    requires key != [] && orig != [] && n.Valid() && key[0] < n.Shape().split
    modifies n.repr
    ensures n.Valid() && fresh(n.repr - old(n.repr)) && n.parent == old(n.parent)
    ensures n.Shape() == old(n.Shape()).(low := Insert(old(n.Shape()).low, orig, key, v))
    decreases |key|, 1, n.repr, 0
  {
    ghost var a, b := n.equal, n.high;
    assert (a != null ==> a.Valid()) && (b != null ==> b.Valid());
    var child := InsertR(n, n.low, orig, key, v);
    assert a != null ==> a.Valid() && a.Shape() == old(a.Shape());
    assert b != null ==> b.Valid() && b.Shape() == old(b.Shape());
    n.LinkLow(child);
  }

  method InsertEqual<V>(n: TreeNode<V>, orig: Key, key: Key, v: V)
    requires key != [] && orig != [] && n.Valid() && key[0] == n.Shape().split && |key| > 1
    modifies n.repr
    ensures n.Valid() && fresh(n.repr - old(n.repr)) && n.parent == old(n.parent)
    ensures n.Shape() == old(n.Shape()).(equal := Insert(old(n.Shape()).equal, orig, key[1..], v))
    decreases |key|, 0, n.repr, 0
  {
    ghost var a, b := n.low, n.high;
    assert (a != null ==> a.Valid()) && (b != null ==> b.Valid());
    var child := InsertR(n, n.equal, orig, key[1..], v);
    assert a != null ==> a.Valid() && a.Shape() == old(a.Shape());
    assert b != null ==> b.Valid() && b.Shape() == old(b.Shape());
    n.LinkEqual(child);
  }

  method InsertHigh<V>(n: TreeNode<V>, orig: Key, key: Key, v: V)
    requires key != [] && orig != [] && n.Valid() && key[0] > n.Shape().split
    modifies n.repr
    ensures n.Valid() && fresh(n.repr - old(n.repr)) && n.parent == old(n.parent)
    ensures n.Shape() == old(n.Shape()).(high := Insert(old(n.Shape()).high, orig, key, v))
    decreases |key|, 1, n.repr, 0
  {
    ghost var a, b := n.low, n.equal;
    assert (a != null ==> a.Valid()) && (b != null ==> b.Valid());
    var child := InsertR(n, n.high, orig, key, v);
    assert a != null ==> a.Valid() && a.Shape() == old(a.Shape());
    assert b != null ==> b.Valid() && b.Shape() == old(b.Shape());
    n.LinkHigh(child);
  }

  /** _co_tree_delete_r: returns what is left of `current`, NULL when it was freed. */
  method DeleteR<V>(current: TreeNode<V>, key: Key) returns (n: TreeNode?<V>, value: Option<V>)
    requires current.Valid() && key != [] && HasPath(current.Shape(), key)
    modifies current.repr
    ensures n != null ==> n == current && n.Valid() && n.repr <= old(current.repr) && n.parent == old(current.parent)
    ensures ShapeOf(n) == Delete(old(current.Shape()), key)
    ensures value == Lookup(old(current.Shape()), key)
    decreases |key|, current.repr, 1
  {
    if key[0] < current.splitchar {
      value := DeleteLow(current, key);
    } else if key[0] == current.splitchar {
      if |key| > 1 {
        value := DeleteEqual(current, key);
      } else {
        value := current.value;
        current.value := None;
      }
    } else {
      value := DeleteHigh(current, key);
    }
    if current.low == null && current.high == null && current.equal == null && current.value == None {
      return null, value;
    }
    n := current;
  }

  method DeleteLow<V>(n: TreeNode<V>, key: Key) returns (value: Option<V>)
    requires n.Valid() && key != [] && HasPath(n.Shape().low, key)
    modifies n.repr
    ensures n.Valid() && n.repr <= old(n.repr) && n.parent == old(n.parent)
    ensures n.Shape() == old(n.Shape()).(low := Delete(old(n.Shape()).low, key))
    ensures value == Lookup(old(n.Shape()).low, key)
    decreases |key|, n.repr, 0
  {
    ghost var a, b := n.equal, n.high;
    assert (a != null ==> a.Valid()) && (b != null ==> b.Valid());
    var child;
    child, value := DeleteR(n.low, key);
    assert a != null ==> a.Valid() && a.Shape() == old(a.Shape());
    assert b != null ==> b.Valid() && b.Shape() == old(b.Shape());
    n.LinkLow(child);
  }

  method DeleteEqual<V>(n: TreeNode<V>, key: Key) returns (value: Option<V>)
    requires n.Valid() && |key| > 1 && HasPath(n.Shape().equal, key[1..])
    modifies n.repr
    ensures n.Valid() && n.repr <= old(n.repr) && n.parent == old(n.parent)
    ensures n.Shape() == old(n.Shape()).(equal := Delete(old(n.Shape()).equal, key[1..]))
    ensures value == Lookup(old(n.Shape()).equal, key[1..])
    decreases |key|, n.repr, 0
  {
    ghost var a, b := n.low, n.high;
    assert (a != null ==> a.Valid()) && (b != null ==> b.Valid());
    var child;
    child, value := DeleteR(n.equal, key[1..]);
    assert a != null ==> a.Valid() && a.Shape() == old(a.Shape());
    assert b != null ==> b.Valid() && b.Shape() == old(b.Shape());
    n.LinkEqual(child);
  }

  method DeleteHigh<V>(n: TreeNode<V>, key: Key) returns (value: Option<V>)
    requires n.Valid() && key != [] && HasPath(n.Shape().high, key)
    modifies n.repr
    ensures n.Valid() && n.repr <= old(n.repr) && n.parent == old(n.parent)
    ensures n.Shape() == old(n.Shape()).(high := Delete(old(n.Shape()).high, key))
    ensures value == Lookup(old(n.Shape()).high, key)
    decreases |key|, n.repr, 0
  {
    ghost var a, b := n.low, n.equal;
    assert (a != null ==> a.Valid()) && (b != null ==> b.Valid());
    var child;
    child, value := DeleteR(n.high, key);
    assert a != null ==> a.Valid() && a.Shape() == old(a.Shape());
    assert b != null ==> b.Valid() && b.Shape() == old(b.Shape());
    n.LinkHigh(child);
  }

  // ---------------------------------------------------------------- in-place update of one node

  /** The node a search ends at, as a heap object. */
  ghost function NodeFor<V>(root: TreeNode?<V>, key: Key): TreeNode?<V>
    requires root != null ==> root.Valid()
    reads root, if root == null then {} else root.repr
    ensures var n := NodeFor(root, key); n != null ==> n in root.repr && n.Valid() && n.repr <= root.repr
    ensures ShapeOf(NodeFor(root, key)) == FindNode(ShapeOf(root), key)
    decreases |key|, if root == null then {} else root.repr
  {
    if key == [] || root == null then root
    else if key[0] < root.splitchar then NodeFor(root.low, key)
    else if key[0] > root.splitchar then NodeFor(root.high, key)
    else if |key| > 1 then NodeFor(root.equal, key[1..])
    else root
  }

  twostate lemma Untouched<V>(n: TreeNode?<V>)
    requires n != null ==> old(n.Valid()) && forall m :: m in old(n.repr) ==> unchanged(m)
    ensures n != null ==> n.Valid() && n.repr == old(n.repr) && n.Shape() == old(n.Shape())
  {
  }

  twostate predicate OnlyValueChanged<V>(n: TreeNode<V>)
    reads n
  {
    unchanged(n`splitchar, n`parent, n`low, n`equal, n`high, n`key, n`repr)
  }

  /** One write: `value` goes into `node`, which the search for `key` below `root` ends at. */
  datatype Write<V> = Write(root: TreeNode<V>, key: Key, node: TreeNode<V>, value: V)

  /** Overwriting the value of one node leaves a tree that differs at that key only. */
  twostate lemma ValueWritten<V>(w: Write<V>)
    requires old(w.root.Valid()) && w.key != [] && w.node == old(NodeFor(w.root, w.key))
    requires forall m :: m in old(w.root.repr) && m != w.node ==> unchanged(m)
    requires OnlyValueChanged(w.node) && w.node.value == Some(w.value)
    ensures w.root.Valid() && w.root.repr == old(w.root.repr)
    ensures w.root.Shape() == SetAt(old(w.root.Shape()), w.key, w.value)
    decreases |w.key|, old(w.root.repr)
  {
    var root, key := w.root, w.key;
    if key[0] < old(root.splitchar) {
      Untouched(root.equal);
      Untouched(root.high);
      ValueWritten(w.(root := root.low));
    } else if key[0] > old(root.splitchar) {
      Untouched(root.low);
      Untouched(root.equal);
      ValueWritten(w.(root := root.high));
    } else {
      Untouched(root.low);
      Untouched(root.high);
      if |key| > 1 {
        ValueWritten(w.(root := root.equal, key := key[1..]));
      } else {
        Untouched(root.equal);
      }
    }
  }
}
