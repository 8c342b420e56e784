/**
  The stateless walker of src/tree.c: from the node of one key it finds the next key,
  knowing only through which neighbour it came to a node. Nodes are named by their
  path from the root; the heap version in TreeIterator.dfy compares pointers.
 */
module TreeWalk {
  import opened Options
  import opened TernaryTree

  datatype Dir = Low | Equal | High

  type Path = seq<Dir>

  /** Where the walker came from: nowhere yet, the parent, or a child. */
  datatype From = Start | Above | Below(child: Dir)

  function Child<V>(t: Tree<V>, d: Dir): Tree<V>
    requires t.Node?
  {
    match d case Low => t.low case Equal => t.equal case High => t.high
  }

  predicate IsPath<V>(t: Tree<V>, p: Path) {
    t.Node? && (p != [] ==> IsPath(Child(t, p[0]), p[1..]))
  }

  function Sub<V>(t: Tree<V>, p: Path): (r: Tree<V>)
    requires IsPath(t, p)
    ensures r.Node?
  {
    if p == [] then t else Sub(Child(t, p[0]), p[1..])
  }

  // ---------------------------------------------------------------- the walker

  /** Whether the walker answers with the key of a node at the given depth. */
  predicate StopsAt<V>(n: Tree<V>, depth: nat, from: From)
    requires n.Node?
  {
    n.key.Some? && (from.Above? || (depth == 1 && ((from.Start? && n.low.Empty?) || from == Below(Low))))
  }

  /** The child the walker turns to next, if there is one: low, then equal, then high. */
  function NextChild<V>(n: Tree<V>, from: From): Option<Dir>
    requires n.Node?
  {
    if n.low.Node? && !from.Below? then Some(Low)
    else if n.equal.Node? && (!from.Below? || from == Below(Low)) then Some(Equal)
    else if n.high.Node? && from != Below(High) then Some(High)
    else None
  }

  datatype Place = Place(path: Path, from: From)

  /** The neighbour the walker goes to, None where it answers: every move shortens the rest of the tour. */
  function Move<V>(t: Tree<V>, p: Path, from: From): (r: Option<Place>)
    requires IsPath(t, p)
    ensures r.Some? ==> IsPath(t, r.value.path) && Tour(t, r.value.path, r.value.from) < Tour(t, p, from)
  {
    var n := Sub(t, p);
    if StopsAt(n, |p|, from) then None
    else match NextChild(n, from)
      case Some(d) => Descend(t, p, d); Some(Place(p + [d], Above))
      case None =>
        if p == [] then None else Ascend(t, p); Some(Place(p[..|p| - 1], Below(p[|p| - 1])))
  }

  /** _co_tree_next_r: the key at the place where the walker answers. */
  function Walk<V>(t: Tree<V>, p: Path, from: From): Option<Key>
    requires IsPath(t, p)
    decreases Tour(t, p, from)
  {
    var next := Move(t, p, from);
    if next.None? then Sub(t, p).key else Walk(t, next.value.path, next.value.from)
  }

  /** The path a search for a key ends at. */
  function PathTo<V>(t: Tree<V>, key: Key): Option<Path>
    requires key != []
    ensures PathTo(t, key).Some? <==> HasPath(t, key)
    ensures PathTo(t, key).Some? ==> IsPath(t, PathTo(t, key).value) && Sub(t, PathTo(t, key).value) == FindNode(t, key)
    decreases |key|, t
  {
    if t.Empty? then None
    else if key[0] < t.split then Under(Low, PathTo(t.low, key))
    else if key[0] > t.split then Under(High, PathTo(t.high, key))
    else if |key| > 1 then Under(Equal, PathTo(t.equal, key[1..]))
    else Some([])
  }

  function Under(d: Dir, p: Option<Path>): (r: Option<Path>)
    ensures p.Some? ==> r.Some? && r.value != [] && r.value[0] == d && r.value[1..] == p.value
  {
    if p.None? then None else Some([d] + p.value)
  }

  /** co_tree_next: keys are compared as objects there, and stored keys are pairwise distinct. */
  function Next<V>(t: Tree<V>, key: Option<Key>): Option<Key>
    requires key.Some? ==> key.value != []
  {
    if t.Empty? then None
    else
      var p := if key.None? then Some([]) else PathTo(t, key.value);
      if p.None? then None
      else
        var r := Walk(t, p.value, Start);
        if r == key then None else r
  }

  // ---------------------------------------------------------------- termination: an Euler tour

  function Size<V>(t: Tree<V>): nat {
    if t.Empty? then 0 else 1 + Size(t.low) + Size(t.equal) + Size(t.high)
  }

  function LaterSize<V>(n: Tree<V>, d: Dir): nat
    requires n.Node?
  {
    match d case Low => Size(n.equal) + Size(n.high) case Equal => Size(n.high) case High => 0
  }

  /** Edges still to cross once the subtree at `p` is left for good. */
  function Rest<V>(t: Tree<V>, p: Path): nat
    requires IsPath(t, p)
  {
    if p == [] then 0 else 1 + 2 * LaterSize(t, p[0]) + Rest(Child(t, p[0]), p[1..])
  }

  function Tour<V>(t: Tree<V>, p: Path, from: From): nat
    requires IsPath(t, p)
  {
    Rest(t, p) + match from
      case Below(d) => 2 * LaterSize(Sub(t, p), d)
      case _ => 2 * (Size(Sub(t, p)) - 1)
  }

  lemma {:induction false} Descend<V>(t: Tree<V>, p: Path, d: Dir)
    requires IsPath(t, p) && Child(Sub(t, p), d).Node?
    ensures IsPath(t, p + [d]) && Sub(t, p + [d]) == Child(Sub(t, p), d)
    ensures Rest(t, p + [d]) == Rest(t, p) + 1 + 2 * LaterSize(Sub(t, p), d)
  {
    if p == [] {
      assert (p + [d])[1..] == [];
    } else {
      assert (p + [d])[1..] == p[1..] + [d];
      Descend(Child(t, p[0]), p[1..], d);
    }
  }

  lemma {:induction false} Ascend<V>(t: Tree<V>, p: Path)
    requires IsPath(t, p) && p != []
    ensures var q, d := p[..|p| - 1], p[|p| - 1];
            && IsPath(t, q) && Child(Sub(t, q), d) == Sub(t, p)
            && Rest(t, p) == Rest(t, q) + 1 + 2 * LaterSize(Sub(t, q), d)
  {
    var q, d := p[..|p| - 1], p[|p| - 1];
    if |p| == 1 {
      assert q == [] && p[1..] == [];
    } else {
      assert q[1..] == p[1..][..|p[1..]| - 1];
      Ascend(Child(t, p[0]), p[1..]);
    }
  }
}
