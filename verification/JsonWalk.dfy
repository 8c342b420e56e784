/** Which tokens the importers of src/profile.c see when they walk the token array. */
module JsonWalk {
  import opened Sequences
  import opened JsonScan
  import opened JsonForest
  import opened JsonParse

  predicate StringLeaf(n: Node) {
    n.Leaf? && n.kind == String
  }

  lemma {:induction false} FlatFirst(nodes: seq<Node>)
    requires nodes != []
    ensures Flat(nodes) == FlatNode(nodes[0]) + Flat(nodes[1..])
    decreases |nodes|
  {
    if |nodes| == 1 {
      assert nodes[..0] == [] && nodes[1..] == [];
    } else {
      var front, rest := nodes[..|nodes| - 1], nodes[1..];
      FlatFirst(front);
      assert rest[..|rest| - 1] == front[1..];
      Reassociate(FlatNode(nodes[0]), Flat(front[1..]), FlatNode(nodes[|nodes| - 1]));
    }
  }

  /** As long as the children are leaves, the k-th child is the k-th token. */
  lemma {:induction false} ChildToken(kids: seq<Node>, k: nat)
    requires k < |kids| && forall i :: 0 <= i < k ==> kids[i].Leaf?
    ensures k < |Flat(kids)| && Flat(kids)[k] == FlatNode(kids[k])[0]
    decreases k
  {
    FlatFirst(kids);
    if k > 0 {
      assert FlatNode(kids[0]) == [Token(kids[0].kind, kids[0].start, kids[0].end, 0)];
      ChildToken(kids[1..], k - 1);
    }
  }

  lemma RootToken(nodes: seq<Node>)
    requires nodes != []
    ensures |Flat(nodes)| > 0 && Flat(nodes)[0] == FlatNode(nodes[0])[0]
  {
    FlatFirst(nodes);
  }

  lemma TokenBelowRoot(nodes: seq<Node>, k: nat)
    requires nodes != [] && nodes[0].Branch? && k < |nodes[0].kids|
    requires forall i :: 0 <= i < k ==> nodes[0].kids[i].Leaf?
    ensures k + 1 < |Flat(nodes)| && Flat(nodes)[k + 1] == FlatNode(nodes[0].kids[k])[0]
  {
    FlatFirst(nodes);
    ChildToken(nodes[0].kids, k);
  }

  lemma {:induction false} SiblingsApart(nodes: seq<Node>, lo: int, hi: int, i: nat, j: nat)
    requires Placed(nodes, lo, hi) && i < j < |nodes|
    ensures Right(nodes[i]) <= Left(nodes[j])
    decreases |nodes|
  {
    var front := nodes[..|nodes| - 1];
    if j == |nodes| - 1 {
      WithinPlace(front, lo, Left(nodes[j]), i);
    } else {
      SiblingsApart(front, lo, Left(nodes[|nodes| - 1]), i, j);
    }
  }

  lemma {:induction false} WithinPlace(nodes: seq<Node>, lo: int, hi: int, i: nat)
    requires Placed(nodes, lo, hi) && i < |nodes|
    ensures PlacedNode(nodes[i]) && lo <= Left(nodes[i]) && Right(nodes[i]) <= hi
    decreases |nodes|
  {
    var front, n := nodes[..|nodes| - 1], nodes[|nodes| - 1];
    PlacedInOrder(front, lo, Left(n));
    if i < |nodes| - 1 {
      WithinPlace(front, lo, Left(n), i);
      if n.Branch? { PlacedInOrder(n.kids, n.start + 1, n.close); }
    }
  }

  /**
    The countdown of the importers' loop over the tokens of any forest: started at 1 on a
    container's token, and raised by each container's size, it reaches 0 after exactly
    the tokens of that container.
   */
  function Countdown(ts: seq<Token>, j: int): (seen: nat)
    ensures seen <= |ts|
    decreases |ts|
  {
    if j <= 0 || ts == [] then 0
    else 1 + Countdown(ts[1..], j + ts[0].size - 1)
  }

  lemma {:induction false} CountdownSeesForest(nodes: seq<Node>, rest: seq<Token>, j: nat)
    ensures Countdown(Flat(nodes) + rest, |nodes| + j) == |Flat(nodes)| + Countdown(rest, j)
    decreases nodes
  {
    if nodes == [] {
      assert Flat(nodes) + rest == rest;
    } else {
      var front, n := nodes[..|nodes| - 1], nodes[|nodes| - 1];
      CountdownSeesForest(front, FlatNode(n) + rest, j + 1);
      assert Flat(nodes) + rest == Flat(front) + (FlatNode(n) + rest);
      CountdownSeesNode(n, rest, j);
    }
  }

  lemma {:induction false} CountdownSeesNode(n: Node, rest: seq<Token>, j: nat)
    ensures Countdown(FlatNode(n) + rest, 1 + j) == |FlatNode(n)| + Countdown(rest, j)
    decreases n
  {
    var ts := FlatNode(n) + rest;
    assert ts[0] == FlatNode(n)[0];
    match n
    case Leaf(_, _, _) =>
      assert ts[1..] == rest;
    case Branch(_, _, _, kids) =>
      assert ts[1..] == Flat(kids) + rest;
      CountdownSeesForest(kids, rest, j);
  }

  /** So a walk over the tokens of an accepted text sees the first tree of its forest, and no more. */
  lemma CountdownSeesFirstTree(nodes: seq<Node>)
    requires nodes != []
    ensures Countdown(Flat(nodes), 1) == |FlatNode(nodes[0])|
  {
    FlatFirst(nodes);
    CountdownSeesNode(nodes[0], Flat(nodes[1..]), 0);
  }
}
