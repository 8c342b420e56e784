/** The doubly linked list16/list32 objects of src/list.c, refining a sequence of distinct objects. */
module ObjectList {
  import opened Options
  import opened Sequences
  import opened Bytes

  class ListNode<T> {
    var prev: ListNode?<T>
    var next: ListNode?<T>
    var value: T

    constructor (value: T)
      ensures prev == null && next == null && this.value == value
    {
      prev, next := null, null;
      this.value := value;
    }
  }

  ghost function NodeAt<T>(ns: seq<ListNode<T>>, i: int): ListNode?<T> {
    if 0 <= i < |ns| then ns[i] else null
  }

  /** Neighbours point at each other, and the ends at nothing. */
  ghost predicate Chained<T>(ns: seq<ListNode<T>>)
    reads ns
  {
    forall i :: 0 <= i < |ns| ==> LinkedAt(ns, i)
  }

  ghost predicate LinkedAt<T>(ns: seq<ListNode<T>>, i: int)
    requires 0 <= i < |ns|
    reads ns
  {
    ns[i].prev == NodeAt(ns, i - 1) && ns[i].next == NodeAt(ns, i + 1)
  }

  ghost function ValuesOf<T>(ns: seq<ListNode<T>>): (vs: seq<T>)
    reads ns
    ensures |vs| == |ns|
  {
    seq(|ns|, i requires 0 <= i < |ns| reads ns => ns[i].value)
  }

  class ObjList<T(==)> {
    const wide: bool
    var first: ListNode?<T>
    var last: ListNode?<T>
    var len: nat
    ghost var nodes: seq<ListNode<T>>

    /** What the counter can hold. */
    function Limit(): nat {
      Capacity(wide) - 1
    }

    ghost predicate Valid()
      reads this, nodes
    {
      && Different(nodes) && Chained(nodes)
      && first == NodeAt(nodes, 0) && last == NodeAt(nodes, |nodes| - 1)
      && len == |nodes| <= Limit()
      && Different(Contents())
    }

    ghost function Contents(): (vs: seq<T>)
      reads this, nodes
      ensures |vs| == |nodes|
    {
      ValuesOf(nodes)
    }

    constructor (wide: bool)
      ensures Valid() && Contents() == [] && this.wide == wide && fresh(this)
    {
      this.wide := wide;
      first, last, len, nodes := null, null, 0, [];
    }

    /** _co_list_find_node, and with it co_list_contains */
    method FindNode(item: T) returns (node: ListNode?<T>, ghost k: nat)
      requires Valid()
      ensures k <= |nodes| && node == NodeAt(nodes, k)
      ensures node == null <==> item !in Contents()
      ensures node != null ==> k < |nodes| && Contents()[k] == item
    {
      node, k := first, 0;
      while node != null && node.value != item
        invariant k <= |nodes| && node == NodeAt(nodes, k)
        invariant forall i :: 0 <= i < k ==> Contents()[i] != item
        decreases |nodes| - k
      {
        assert LinkedAt(nodes, k);
        node := node.next;
        k := k + 1;
      }
      assert node != null ==> Contents()[k] == item;
    }

    /** co_list_contains */
    method Contains(item: T) returns (found: bool)
      requires Valid()
      ensures found <==> item in Contents()
    {
      var node, k := FindNode(item);
      found := node != null;
    }

    /** co_list_parse with an iterator that leaves the list alone: the first result that is not NULL. */
    method Parse<R>(iter: T -> Option<R>) returns (result: Option<R>)
      requires Valid()
      ensures result == FirstResult(Contents(), iter)
    {
      var node := first;
      result := None;
      ghost var k := 0;
      assert Contents()[0..] == Contents();
      while node != null && result == None
        invariant k <= |nodes| && node == NodeAt(nodes, k)
        invariant result == None ==> FirstResult(Contents()[k..], iter) == FirstResult(Contents(), iter)
        invariant result != None ==> result == FirstResult(Contents(), iter)
        decreases |nodes| - k
      {
        result := iter(node.value);
        assert LinkedAt(nodes, k);
        node := node.next;
        k := k + 1;
      }
    }

    /** co_list_element; on an empty list it follows a NULL pointer for index 0. */
    method Element(index: nat) returns (value: Option<T>)
      requires Valid() && (|Contents()| > 0 || index > 0)
      ensures value == if index < |Contents()| then Some(Contents()[index]) else None
    {
      var next := first;
      var i := 0;
      if next != null {
        while i < index
          invariant 0 <= i <= index && i < |nodes| && next == nodes[i]
        {
          assert LinkedAt(nodes, i);
          next := next.next;
          if next == null {
            break;
          }
          i := i + 1;
        }
      }
      if i != index {
        return None;
      }
      value := Some(next.value);
    }

    /** A new node was linked in at position k: what is left is to count it. */
    method Count(node: ListNode<T>, ghost k: nat)
      requires k <= |nodes| && Different(nodes) && node !in nodes && OneMore(nodes, k, node)
      requires first == (if k == 0 then node else NodeAt(nodes, 0))
      requires last == (if k == |nodes| then node else NodeAt(nodes, |nodes| - 1))
      requires len == |nodes| < Limit() && Different(Contents()) && node.value !in Contents()
      modifies this`len, this`nodes
      ensures Valid() && nodes == InsertAt(old(nodes), k, node)
      ensures Contents() == InsertAt(old(Contents()), k, node.value)
    {
      InsertedIsChained(nodes, k, node);
      InsertedValues(nodes, k, node);
      InsertedIsDifferent(nodes, k, node);
      InsertedIsDifferent(Contents(), k, node.value);
      len := len + 1;
      nodes := InsertAt(nodes, k, node);
    }

    /** co_list_insert_before */
    method InsertBefore(item: T, other: T) returns (ok: bool)
      requires Valid() && len < Limit()
      modifies this, nodes
      ensures Valid() && forall n :: n in nodes && n !in old(nodes) ==> fresh(n)
      ensures ok <==> other in old(Contents()) && item !in old(Contents())
      ensures ok ==> exists k :: 0 <= k < |old(Contents())| && old(Contents())[k] == other
                                 && Contents() == InsertAt(old(Contents()), k, item)
      ensures !ok ==> Contents() == old(Contents())
    {
      var thisNode, k := FindNode(other);
      if thisNode == null {
        return false;
      }
      var present := Contains(item);
      if present {
        return false;
      }
      PutBefore(item, thisNode, k);
      ok := true;
    }

    method PutBefore(item: T, thisNode: ListNode<T>, ghost k: nat)
      requires Valid() && len < Limit() && k < |nodes| && thisNode == nodes[k] && item !in Contents()
      modifies this, nodes
      ensures Valid() && Contents() == InsertAt(old(Contents()), k, item)
      ensures forall n :: n in nodes && n !in old(nodes) ==> fresh(n)
    {
      var node := new ListNode(item);
      LinkBefore(node, thisNode, k);
      Count(node, k);
    }

    /** Its pointer updates: `node` goes between `thisNode` and the node before it. */
    method LinkBefore(node: ListNode<T>, thisNode: ListNode<T>, ghost k: nat)
      requires Valid() && k < |nodes| && thisNode == nodes[k] && node !in nodes && node.prev == null
      modifies this`first, nodes, node
      ensures OneMore(nodes, k, node) && node.value == old(node.value)
      ensures first == (if k == 0 then node else NodeAt(nodes, 0))
      ensures Contents() == old(Contents())
    {
      assert LinkedAt(nodes, k);
      var adjacent := thisNode.prev;
      if adjacent == null {
        first := node;
      } else {
        adjacent.next := node;
        node.prev := adjacent;
      }
      node.next := thisNode;
      thisNode.prev := node;
      forall i | 0 <= i < |nodes| ensures PassesAt(nodes, i, k, node) {
        assert old(LinkedAt(nodes, i));
      }
      SameElements(Contents(), old(Contents()));
    }

    /** co_list_insert_after */
    method InsertAfter(item: T, other: T) returns (ok: bool)
      requires Valid() && len < Limit()
      modifies this, nodes
      ensures Valid() && forall n :: n in nodes && n !in old(nodes) ==> fresh(n)
      ensures ok <==> other in old(Contents()) && item !in old(Contents())
      ensures ok ==> exists k :: 0 <= k < |old(Contents())| && old(Contents())[k] == other
                                 && Contents() == InsertAt(old(Contents()), k + 1, item)
      ensures !ok ==> Contents() == old(Contents())
    {
      var thisNode, k := FindNode(other);
      if thisNode == null {
        return false;
      }
      var present := Contains(item);
      if present {
        return false;
      }
      PutAfter(item, thisNode, k);
      ok := true;
    }

    method PutAfter(item: T, thisNode: ListNode<T>, ghost k: nat)
      requires Valid() && len < Limit() && k < |nodes| && thisNode == nodes[k] && item !in Contents()
      modifies this, nodes
      ensures Valid() && Contents() == InsertAt(old(Contents()), k + 1, item)
      ensures forall n :: n in nodes && n !in old(nodes) ==> fresh(n)
    {
      var node := new ListNode(item);
      LinkAfter(node, thisNode, k);
      Count(node, k + 1);
    }

    method LinkAfter(node: ListNode<T>, thisNode: ListNode<T>, ghost k: nat)
      requires Valid() && k < |nodes| && thisNode == nodes[k] && node !in nodes && node.next == null
      modifies this`last, nodes, node
      ensures OneMore(nodes, k + 1, node) && node.value == old(node.value)
      ensures last == (if k + 1 == |nodes| then node else NodeAt(nodes, |nodes| - 1))
      ensures Contents() == old(Contents())
    {
      assert LinkedAt(nodes, k);
      var adjacent := thisNode.next;
      if adjacent == null {
        last := node;
      } else {
        adjacent.prev := node;
        node.next := adjacent;
      }
      node.prev := thisNode;
      thisNode.next := node;
      ghost var at := k + 1;
      forall i | 0 <= i < |nodes| ensures PassesAt(nodes, i, at, node) {
        assert old(LinkedAt(nodes, i));
      }
      SameElements(Contents(), old(Contents()));
    }

    /** The first object of an empty list. */
    method StartWith(item: T)
      requires Valid() && len == 0
      modifies this
      ensures Valid() && Contents() == [item] && forall n :: n in nodes ==> fresh(n)
    {
      var node := new ListNode(item);
      first := node;
      last := node;
      Count(node, 0);
    }

    /** co_list_prepend */
    method Prepend(item: T) returns (ok: bool)
      requires Valid() && len < Limit()
      modifies this, nodes
      ensures Valid() && forall n :: n in nodes && n !in old(nodes) ==> fresh(n)
      ensures ok <==> item !in old(Contents())
      ensures Contents() == if ok then [item] + old(Contents()) else old(Contents())
    {
      if len == 0 {
        StartWith(item);
        return true;
      }
      ghost var vs := Contents();
      assert first.value == vs[0];
      ok := InsertBefore(item, first.value);
      if ok { InsertedAtEnd(vs, Contents(), item); }
    }

    /** co_list_append */
    method Append(item: T) returns (ok: bool)
      requires Valid() && len < Limit()
      modifies this, nodes
      ensures Valid() && forall n :: n in nodes && n !in old(nodes) ==> fresh(n)
      ensures ok <==> item !in old(Contents())
      ensures Contents() == if ok then old(Contents()) + [item] else old(Contents())
    {
      if len == 0 {
        StartWith(item);
        return true;
      }
      ghost var vs := Contents();
      assert last.value == vs[|vs| - 1];
      ok := InsertAfter(item, last.value);
      if ok {
        ghost var k :| 0 <= k < |vs| && vs[k] == vs[|vs| - 1] && Contents() == InsertAt(vs, k + 1, item);
        assert k == |vs| - 1;
      }
    }

    /** co_list_delete: the object, or NULL when it is not there. */
    method Delete(item: T) returns (value: Option<T>)
      requires Valid()
      modifies this, nodes
      ensures Valid() && (forall n :: n in nodes ==> n in old(nodes))
      ensures value == if item in old(Contents()) then Some(item) else None
      ensures value == None ==> Contents() == old(Contents())
      ensures value != None ==> exists k :: 0 <= k < |old(Contents())| && old(Contents())[k] == item
                                             && Contents() == RemoveAt(old(Contents()), k)
    {
      var current, k := FindNode(item);
      if current == null {
        return None;
      }
      Unlink(current, k);
      value := Some(current.value);
    }

    method Unlink(current: ListNode<T>, ghost k: nat)
      requires Valid() && k < |nodes| && current == nodes[k]
      modifies this, nodes
      ensures Valid() && nodes == RemoveAt(old(nodes), k) && Contents() == RemoveAt(old(Contents()), k)
      ensures current.value == old(current.value)
    {
      Bypass(current, k);
      RemovedIsChained(nodes, k);
      RemovedIsDifferent(nodes, k);
      RemovedIsDifferent(Contents(), k);
      SameElements(RemoveAt(Contents(), k), ValuesOf(RemoveAt(nodes, k)));
      len := len - 1;
      nodes := RemoveAt(nodes, k);
    }

    /** The pointer updates of co_list_delete. */
    method Bypass(current: ListNode<T>, ghost k: nat)
      requires Valid() && k < |nodes| && current == nodes[k]
      modifies this`first, this`last, nodes
      ensures forall i :: 0 <= i < |nodes| && i != k ==> SkipsAt(nodes, i, k)
      ensures first == NodeAt(nodes, if k == 0 then 1 else 0)
      ensures last == NodeAt(nodes, if k == |nodes| - 1 then k - 1 else |nodes| - 1)
      ensures Contents() == old(Contents()) && current.value == old(current.value)
    {
      assert LinkedAt(nodes, k);
      if current.prev != null {
        current.prev.next := current.next;
      } else {
        first := current.next;
      }
      if current.next != null {
        current.next.prev := current.prev;
      } else {
        last := current.prev;
      }
      forall i | 0 <= i < |nodes| && i != k ensures SkipsAt(nodes, i, k) {
        assert old(LinkedAt(nodes, i));
      }
      SameElements(Contents(), old(Contents()));
    }
  }

  /** The links of a chain into which `node` was put at position k. */
  ghost predicate OneMore<T>(ns: seq<ListNode<T>>, k: nat, node: ListNode<T>)
    reads ns, node
  {
    && node.prev == NodeAt(ns, k - 1) && node.next == NodeAt(ns, k)
    && forall i :: 0 <= i < |ns| ==> PassesAt(ns, i, k, node)
  }

  ghost predicate PassesAt<T>(ns: seq<ListNode<T>>, i: int, k: nat, node: ListNode<T>)
    requires 0 <= i < |ns|
    reads ns
  {
    && ns[i].prev == (if i == k then node else NodeAt(ns, i - 1))
    && ns[i].next == (if i == k - 1 then node else NodeAt(ns, i + 1))
  }

  lemma InsertedIsChained<T>(ns: seq<ListNode<T>>, k: nat, node: ListNode<T>)
    requires k <= |ns| && OneMore(ns, k, node)
    ensures Chained(InsertAt(ns, k, node))
  {
    var more := InsertAt(ns, k, node);
    forall i | 0 <= i < |more| ensures LinkedAt(more, i) {
      if i < k {
        assert PassesAt(ns, i, k, node);
      } else if i > k {
        assert PassesAt(ns, i - 1, k, node);
      }
    }
  }

  lemma InsertedValues<T>(ns: seq<ListNode<T>>, k: nat, node: ListNode<T>)
    requires k <= |ns|
    ensures ValuesOf(InsertAt(ns, k, node)) == InsertAt(ValuesOf(ns), k, node.value)
  {
  }

  lemma InsertedAtEnd<T>(vs: seq<T>, more: seq<T>, item: T)
    requires |vs| > 0 && Different(vs)
    requires exists k :: 0 <= k < |vs| && vs[k] == vs[0] && more == InsertAt(vs, k, item)
    ensures more == [item] + vs
  {
    var k :| 0 <= k < |vs| && vs[k] == vs[0] && more == InsertAt(vs, k, item);
    assert k == 0;
  }

  /** The links around position k, when its node is left out. */
  ghost predicate SkipsAt<T>(ns: seq<ListNode<T>>, i: int, k: nat)
    requires 0 <= i < |ns|
    reads ns
  {
    && ns[i].prev == NodeAt(ns, if i == k + 1 then i - 2 else i - 1)
    && ns[i].next == NodeAt(ns, if i == k - 1 then i + 2 else i + 1)
  }

  lemma RemovedIsChained<T>(ns: seq<ListNode<T>>, k: nat)
    requires k < |ns| && forall i :: 0 <= i < |ns| && i != k ==> SkipsAt(ns, i, k)
    ensures Chained(RemoveAt(ns, k))
  {
    var less := RemoveAt(ns, k);
    forall i | 0 <= i < |less| ensures LinkedAt(less, i) {
      assert SkipsAt(ns, if i < k then i else i + 1, k);
    }
  }

  function FirstResult<T, R>(s: seq<T>, iter: T -> Option<R>): Option<R> {
    if s == [] then None else if iter(s[0]) != None then iter(s[0]) else FirstResult(s[1..], iter)
  }
}
