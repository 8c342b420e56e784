/**
  The tree16/tree32 objects of src/tree.c: a root pointer and a counter of the width
  of the type, behind the public operations.
 */
module CoTree {
  import opened Options
  import opened Bytes
  import opened TernaryTree
  import opened TreeObject
  import opened TreeRuns

  class CoTree<V> {
    const wide: bool
    var len: nat
    var root: TreeNode?<V>

    ghost predicate Valid()
      reads this, root, if root == null then {} else root.repr
    {
      && (root != null ==> root.Valid() && root.parent == null)
      && WellFormed(Shape())
      && len < Capacity(wide)
    }

    ghost function Shape(): Tree<V>
      reads this, root, if root == null then {} else root.repr
      requires root != null ==> root.Valid()
    {
      ShapeOf(root)
    }

    /** The tree value and the counter, as the runs of TreeRuns.dfy see them. */
    ghost function State(): TreeRuns.State<V>
      reads this, root, if root == null then {} else root.repr
      requires root != null ==> root.Valid()
    {
      TreeRuns.State(Shape(), len)
    }

    ghost function Contents(): map<Key, V>
      reads this, root, if root == null then {} else root.repr
      requires root != null ==> root.Valid()
    {
      Map(Shape())
    }

    constructor (wide: bool)
      ensures Valid() && Contents() == map[] && len == 0 && root == null && this.wide == wide
    {
      this.wide := wide;
      len := 0;
      root := null;
    }

    /** co_tree_find */
    method Find(key: Key) returns (value: Option<V>)
      requires Valid() && key != []
      ensures value == if key in Contents() then Some(Contents()[key]) else None
    {
      MapIsLookup(Shape(), key);
      if root == null {
        return None;
      }
      var n := FindNodeFrom(root, key);
      value := if n == null then None else n.value;
    }

    /** _co_tree_insert, which co_tree_insert_force calls without looking first. */
    method InsertForce(key: Key, v: V)
      requires Valid() && 1 <= |key| < 255
      modifies this`root, this`len, ReprOf(root)
      ensures Valid() && fresh(ReprOf(root) - old(ReprOf(root)))
      ensures Contents() == old(Contents())[key := v]
      ensures State() == Step(old(State()), Force(key, v), wide)
    {
      InsertKeepsWellFormed(Shape(), key, v);
      var n := InsertR(root, root, key, key, v);
      root := n;
      len := Up(len, wide);
    }

    /** co_tree_insert: only when the search for the key finds no node at all. */
    method InsertNew(key: Key, v: V) returns (ok: bool)
      requires Valid() && 1 <= |key| < 255
      modifies this`root, this`len, ReprOf(root)
      ensures Valid() && fresh(ReprOf(root) - old(ReprOf(root)))
      ensures ok <==> !old(HasPath(Shape(), key))
      ensures ok ==> key !in old(Contents()) && Contents() == old(Contents())[key := v]
      ensures State() == Step(old(State()), Plain(key, v), wide)
      ensures !ok ==> Contents() == old(Contents())
    {
      var n := FindNodeFrom(root, key);
      if n != null {
        return false;
      }
      MapIsLookup(Shape(), key);
      InsertForce(key, v);
      ok := true;
    }

    /** co_tree_delete; the C code follows NULL pointers when the path is missing. */
    method Delete(key: Key) returns (value: Option<V>)
      requires Valid() && key != [] && HasPath(Shape(), key)
      modifies this`root, this`len, ReprOf(root)
      ensures Valid() && ReprOf(root) <= old(ReprOf(root))
      ensures Contents() == old(Contents()) - {key}
      ensures value == if key in old(Contents()) then Some(old(Contents())[key]) else None
      ensures State() == Step(old(State()), Remove(key), wide)
    {
      DeleteKeepsWellFormed(Shape(), key);
      MapIsLookup(Shape(), key);
      value := Unlink(key);
      if value.Some? {
        len := Down(len, wide);
      }
    }

    method Unlink(key: Key) returns (value: Option<V>)
      requires root != null && root.Valid() && root.parent == null && key != [] && HasPath(Shape(), key)
      modifies this`root, ReprOf(root)
      ensures root != null ==> root.Valid() && root.parent == null
      ensures ReprOf(root) <= old(ReprOf(root))
      ensures Shape() == TernaryTree.Delete(old(Shape()), key)
      ensures value == Lookup(old(Shape()), key)
    {
      var n;
      n, value := DeleteR(root, key);
      root := n;
    }

    /** The common part of the co_tree_set_* functions: a bound key gets a new value in place. */
    method SetValue(key: Key, v: V) returns (ok: bool)
      requires Valid() && key != []
      modifies ReprOf(root)
      ensures Valid() && ReprOf(root) == old(ReprOf(root))
      ensures ok <==> key in old(Contents())
      ensures Contents() == if ok then old(Contents())[key := v] else old(Contents())
    {
      MapIsLookup(Shape(), key);
      if root == null {
        return false;
      }
      var n := FindNodeFrom(root, key);
      if n == null || n.value.None? {
        return false;
      }
      SetAtKeepsWellFormed(Shape(), key, v);
      n.value := Some(v);
      ValueWritten(Write(root, key, n, v));
      ok := true;
    }
  }
}
