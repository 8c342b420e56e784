/**
  A tokenized text as a forest, and as the token array lays it out; between the two
  a forest some of whose branches are still open, which is what the parser's token
  array is in the middle of a text.
 */
module JsonForest {
  import opened Options
  import opened JsonScan

  /** `end` is -1 while the container is open. */
  datatype Token = Token(kind: Kind, start: int, end: int, size: int)

  datatype Node = Leaf(kind: Kind, start: nat, end: nat) | Branch(kind: Kind, start: nat, close: nat, kids: seq<Node>)

  /** The lexemes a forest is written with. */
  function Ser(nodes: seq<Node>): seq<Lexeme>
    decreases nodes
  {
    if nodes == [] then [] else Ser(nodes[..|nodes| - 1]) + SerNode(nodes[|nodes| - 1])
  }

  function SerNode(n: Node): seq<Lexeme>
    decreases n
  {
    match n
    case Leaf(kind, start, end) => [Word(kind, start, end)]
    case Branch(kind, start, close, kids) => [Open(kind, start)] + Ser(kids) + [Close(kind, close)]
  }

  /** The tokens of a forest: a container comes before its children and counts them. */
  function Flat(nodes: seq<Node>): seq<Token>
    decreases nodes
  {
    if nodes == [] then [] else Flat(nodes[..|nodes| - 1]) + FlatNode(nodes[|nodes| - 1])
  }

  function FlatNode(n: Node): seq<Token>
    decreases n
  {
    match n
    case Leaf(kind, start, end) => [Token(kind, start, end, 0)]
    case Branch(kind, start, close, kids) => [Token(kind, start, close + 1, |kids|)] + Flat(kids)
  }

  // ---------------------------------------------------------------- forests with open branches

  /** The innermost open container with the children read so far, inside those around it. */
  datatype Zip = Top(kids: seq<Node>) | In(outer: Zip, kind: Kind, start: nat, kids: seq<Node>)

  function Add(z: Zip, n: Node): Zip {
    z.(kids := z.kids + [n])
  }

  function Feed(z: Zip, lexeme: Lexeme): Option<Zip> {
    match lexeme
    case Blank => Some(z)
    case Word(kind, start, end) => Some(Add(z, Leaf(kind, start, end)))
    case Open(kind, at) => Some(In(z, kind, at, []))
    case Close(kind, at) =>
      if z.In? && z.kind == kind then Some(Add(z.outer, Branch(kind, z.start, at, z.kids))) else None
  }

  /** The token array: `more` counts the open child that the innermost container already counts. */
  function FlatZip(z: Zip, more: nat): seq<Token> {
    match z
    case Top(kids) => Flat(kids)
    case In(outer, kind, start, kids) =>
      FlatZip(outer, 1) + [Token(kind, start, -1, |kids| + more)] + Flat(kids)
  }

  function Super(z: Zip): int {
    if z.Top? then -1 else |FlatZip(z.outer, 1)|
  }

  function SerZip(z: Zip): seq<Lexeme> {
    match z
    case Top(kids) => Ser(kids)
    case In(outer, kind, start, kids) => SerZip(outer) + [Open(kind, start)] + Ser(kids)
  }

  lemma SerAdd(nodes: seq<Node>, n: Node)
    ensures Ser(nodes + [n]) == Ser(nodes) + SerNode(n)
  {
    assert (nodes + [n])[..|nodes|] == nodes;
  }

  lemma FlatAdd(nodes: seq<Node>, n: Node)
    ensures Flat(nodes + [n]) == Flat(nodes) + FlatNode(n)
  {
    assert (nodes + [n])[..|nodes|] == nodes;
  }

  /** Feeding a lexeme appends it to what the open forest is written with. */
  lemma FeedAppends(z: Zip, lexeme: Lexeme)
    requires !lexeme.Blank? && Feed(z, lexeme).Some?
    ensures SerZip(Feed(z, lexeme).value) == SerZip(z) + [lexeme]
  {
    match lexeme
    case Word(kind, start, end) => SerAdd(z.kids, Leaf(kind, start, end));
    case Open(_, _) =>
    case Close(kind, at) => SerAdd(z.outer.kids, Branch(kind, z.start, at, z.kids));
  }

  // ---------------------------------------------------------------- how the array changes

  predicate Closed(t: Token) {
    t.start != -1 && t.end != -1
  }

  lemma {:induction false} FlatIsClosed(nodes: seq<Node>)
    ensures forall i :: 0 <= i < |Flat(nodes)| ==> Closed(Flat(nodes)[i])
    decreases nodes
  {
    if nodes != [] {
      var front, n := nodes[..|nodes| - 1], nodes[|nodes| - 1];
      FlatIsClosed(front);
      FlatNodeIsClosed(n);
      assert Flat(nodes) == Flat(front) + FlatNode(n);
    }
  }

  lemma {:induction false} FlatNodeIsClosed(n: Node)
    ensures forall i :: 0 <= i < |FlatNode(n)| ==> Closed(FlatNode(n)[i])
    decreases n
  {
    if n.Branch? { FlatIsClosed(n.kids); }
  }

  /** The superior token is the last open one, and -1 when there is none. */
  lemma LastOpen(z: Zip, more: nat)
    ensures -1 <= Super(z) < |FlatZip(z, more)|
    ensures z.In? ==> FlatZip(z, more)[Super(z)] == Token(z.kind, z.start, -1, |z.kids| + more)
    ensures forall i :: Super(z) < i < |FlatZip(z, more)| ==> Closed(FlatZip(z, more)[i])
  {
    FlatIsClosed(z.kids);
    if z.In? {
      var p := FlatZip(z.outer, 1) + [Token(z.kind, z.start, -1, |z.kids| + more)];
      forall i | Super(z) < i < |FlatZip(z, more)| ensures Closed(FlatZip(z, more)[i]) {
        assert FlatZip(z, more)[i] == Flat(z.kids)[i - |p|];
      }
    }
  }

  function Grown(t: Token): Token {
    t.(size := t.size + 1)
  }

  function GrownAt(s: seq<Token>, i: int): seq<Token>
    requires -1 <= i < |s|
  {
    if i == -1 then s else s[i := Grown(s[i])]
  }

  /** One more child, or one child about to be opened. */
  lemma CountsChild(z: Zip)
    ensures -1 <= Super(z) < |FlatZip(z, 0)|
    ensures FlatZip(z, 1) == GrownAt(FlatZip(z, 0), Super(z))
  {
    LastOpen(z, 0);
  }

  lemma AddsLeaf(z: Zip, n: Node)
    requires n.Leaf?
    ensures FlatZip(Add(z, n), 0) == FlatZip(z, 1) + FlatNode(n)
    ensures Super(Add(z, n)) == Super(z)
  {
    FlatAdd(z.kids, n);
  }

  lemma ClosesBranch(z: Zip, at: nat)
    requires z.In?
    ensures var n := Branch(z.kind, z.start, at, z.kids);
            var s := FlatZip(z, 0);
            0 <= Super(z) < |s| && FlatZip(Add(z.outer, n), 0) == s[Super(z) := s[Super(z)].(end := at + 1)]
    ensures Super(Add(z.outer, Branch(z.kind, z.start, at, z.kids))) == Super(z.outer)
  {
    var n := Branch(z.kind, z.start, at, z.kids);
    AddedAfterPending(z.outer, n);
    Replace(FlatZip(z.outer, 1), Token(z.kind, z.start, -1, |z.kids|), Flat(z.kids),
            Token(z.kind, z.start, at + 1, |z.kids|));
  }

  lemma Replace<T>(p: seq<T>, t: T, q: seq<T>, u: T)
    ensures (p + [t] + q)[|p| := u] == p + ([u] + q)
  {
  }

  lemma AddedAfterPending(z: Zip, n: Node)
    ensures FlatZip(Add(z, n), 0) == FlatZip(z, 1) + FlatNode(n)
  {
    FlatAdd(z.kids, n);
  }
}
