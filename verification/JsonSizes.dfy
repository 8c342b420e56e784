/** What the size of a token means, said of the token array alone. */
module JsonSizes {
  import opened Sequences
  import opened JsonScan
  import opened JsonForest
  import opened JsonParse

  /** The last of these tokens that reaches as far as `end`: the container around what comes next. */
  function Around(ts: seq<Token>, end: int): (i: int)
    ensures -1 <= i < |ts|
  {
    if ts == [] then -1
    else if end <= ts[|ts| - 1].end then |ts| - 1
    else Around(ts[..|ts| - 1], end)
  }

  /** How many tokens lie directly in token i, or in none for i = -1. */
  function Children(ts: seq<Token>, i: int): nat {
    if ts == [] then 0
    else
      var before := ts[..|ts| - 1];
      Children(before, i) + (if Around(before, ts[|ts| - 1].end) == i then 1 else 0)
  }

  lemma OneMoreToken(ts: seq<Token>, t: Token)
    ensures (ts + [t])[..|ts|] == ts
    ensures forall i :: Children(ts + [t], i) == Children(ts, i) + (if Around(ts, t.end) == i then 1 else 0)
    ensures forall end :: Around(ts + [t], end) == if end <= t.end then |ts| else Around(ts, end)
  {
    assert (ts + [t])[..|ts|] == ts;
  }

  lemma {:induction false} NothingInside(ts: seq<Token>, i: int)
    requires i >= |ts|
    ensures Children(ts, i) == 0
  {
    if ts != [] { NothingInside(ts[..|ts| - 1], i); }
  }

  /** Between `lo` and `hi` token `p` is the container around. */
  ghost predicate Inside(ts: seq<Token>, p: int, lo: int, hi: int) {
    -1 <= p < |ts| && forall end :: lo < end <= hi ==> Around(ts, end) == p
  }

  /** What appending the tokens of a forest of `n` trees inside token `p` does to the counts. */
  ghost predicate Counted(pre: seq<Token>, all: seq<Token>, p: int, n: nat, hi: int) {
    && |pre| <= |all|
    && (forall i :: -1 <= i < |pre| ==> Children(all, i) == Children(pre, i) + (if i == p then n else 0))
    && (forall i :: |pre| <= i < |all| ==> Children(all, i) == all[i].size)
    && (forall end :: end > hi ==> Around(all, end) == Around(pre, end))
    && pre <= all
  }

  lemma {:induction false} ForestIsCounted(pre: seq<Token>, nodes: seq<Node>, p: int, lo: int, hi: int)
    requires Placed(nodes, lo, hi) && Inside(pre, p, lo, hi)
    ensures Counted(pre, pre + Flat(nodes), p, |nodes|, hi)
    decreases nodes
  {
    if nodes == [] {
      assert pre + Flat(nodes) == pre;
      assert Counted(pre, pre, p, 0, hi);
    } else {
      var front, n := nodes[..|nodes| - 1], nodes[|nodes| - 1];
      if n.Branch? { PlacedInOrder(n.kids, n.start + 1, n.close); }
      ForestIsCounted(pre, front, p, lo, Left(n));
      PlacedInOrder(front, lo, Left(n));
      var mid := pre + Flat(front);
      assert Inside(mid, p, Left(n), hi);
      NodeIsCounted(mid, n, p, hi);
      Reassociate(pre, Flat(front), FlatNode(n));
    }
  }

  lemma {:induction false} NodeIsCounted(pre: seq<Token>, n: Node, p: int, hi: int)
    requires PlacedNode(n) && Right(n) <= hi && Inside(pre, p, Left(n), hi)
    ensures Counted(pre, pre + FlatNode(n), p, 1, hi)
    decreases n
  {
    var t := FlatNode(n)[0];
    OneMoreToken(pre, t);
    NothingInside(pre, |pre|);
    match n
    case Leaf(_, _, _) =>
      assert FlatNode(n) == [t];
    case Branch(_, start, close, kids) =>
      PlacedInOrder(kids, start + 1, close);
      assert Inside(pre + [t], |pre|, start + 1, close);
      ForestIsCounted(pre + [t], kids, |pre|, start + 1, close);
      Reassociate(pre, [t], Flat(kids));
      assert FlatNode(n) == [t] + Flat(kids);
  }

  /** On success the size of every token is the number of tokens directly inside it. */
  lemma SizesCountChildren(js: string, nodes: seq<Node>)
    requires Read(js, 0, Top([])) == Outcome(Success, Top(nodes))
    ensures forall i :: 0 <= i < |Flat(nodes)| ==> Flat(nodes)[i].size == Children(Flat(nodes), i)
    ensures Children(Flat(nodes), -1) == |nodes|
  {
    TokensAreLaminar(js, nodes);
    ForestIsCounted([], nodes, -1, 0, |js|);
    assert [] + Flat(nodes) == Flat(nodes);
  }
}
