/** What jsmn_parse computes, and for which texts it succeeds. */
module JsonParse {
  import opened Options
  import opened JsonScan
  import opened JsonForest

  datatype Outcome = Outcome(code: Code, zip: Zip)

  /** The run from position `pos` when there are always tokens left. */
  function Read(js: string, pos: nat, z: Zip): Outcome
    requires pos <= |js|
    decreases |js| - pos
  {
    if pos == |js| then Outcome(if z.Top? then Success else Part, z)
    else
      match Next(js, pos)
      case Stopped(code) => Outcome(code, z)
      case Took(lexeme, next) =>
        match Feed(z, lexeme)
        case None => Outcome(Inval, z)
        case Some(fed) => Read(js, next, fed)
  }

  // ---------------------------------------------------------------- success is balance

  function FeedAll(z: Zip, lexemes: seq<Lexeme>): Option<Zip>
    decreases |lexemes|
  {
    if lexemes == [] then Some(z)
    else
      match Feed(z, lexemes[0])
      case None => None
      case Some(fed) => FeedAll(fed, lexemes[1..])
  }

  lemma {:induction false} ReadFeedsLexemes(js: string, pos: nat, z: Zip, nodes: seq<Node>)
    requires pos <= |js|
    ensures Read(js, pos, z) == Outcome(Success, Top(nodes))
       <==> Lex(js, pos).code == Success && FeedAll(z, Lex(js, pos).seen) == Some(Top(nodes))
    decreases |js| - pos
  {
    if pos < |js| {
      var r := Next(js, pos);
      if r.Took? {
        var l := Lex(js, r.next);
        assert !r.lexeme.Blank? ==> ([r.lexeme] + l.seen)[1..] == l.seen;
        if Feed(z, r.lexeme).Some? {
          ReadFeedsLexemes(js, r.next, Feed(z, r.lexeme).value, nodes);
        }
      }
    }
  }

  lemma {:induction false} FedIsWritten(z: Zip, lexemes: seq<Lexeme>)
    requires FeedAll(z, lexemes).Some? && Blank !in lexemes
    ensures SerZip(FeedAll(z, lexemes).value) == SerZip(z) + lexemes
    decreases |lexemes|
  {
    if lexemes != [] {
      var fed := Feed(z, lexemes[0]).value;
      FeedAppends(z, lexemes[0]);
      FedIsWritten(fed, lexemes[1..]);
      assert lexemes == [lexemes[0]] + lexemes[1..];
      assert SerZip(z) + lexemes == SerZip(z) + [lexemes[0]] + lexemes[1..];
    }
  }

  lemma {:induction false} FeedConcat(z: Zip, x: seq<Lexeme>, y: seq<Lexeme>)
    requires FeedAll(z, x).Some?
    ensures FeedAll(z, x + y) == FeedAll(FeedAll(z, x).value, y)
    decreases |x|
  {
    if x == [] {
      assert x + y == y;
    } else {
      assert (x + y)[1..] == x[1..] + y;
      FeedConcat(Feed(z, x[0]).value, x[1..], y);
    }
  }

  function AddAll(z: Zip, nodes: seq<Node>): Zip {
    z.(kids := z.kids + nodes)
  }

  lemma {:induction false} WrittenIsFed(z: Zip, nodes: seq<Node>)
    ensures FeedAll(z, Ser(nodes)) == Some(AddAll(z, nodes))
    decreases nodes
  {
    if nodes != [] {
      var front, n := nodes[..|nodes| - 1], nodes[|nodes| - 1];
      WrittenIsFed(z, front);
      FeedConcat(z, Ser(front), SerNode(n));
      NodeIsFed(AddAll(z, front), n);
      assert nodes == front + [n];
      assert z.kids + front + [n] == z.kids + nodes;
    } else {
      assert z.kids + nodes == z.kids;
    }
  }

  lemma {:induction false} NodeIsFed(z: Zip, n: Node)
    ensures FeedAll(z, SerNode(n)) == Some(Add(z, n))
    decreases n
  {
    match n
    case Leaf(kind, start, end) =>
      FedAlone(z, Word(kind, start, end));
    case Branch(kind, start, close, kids) =>
      var begun := In(z, kind, start, []);
      WrittenIsFed(begun, kids);
      FedAlone(z, Open(kind, start));
      FedAlone(AddAll(begun, kids), Close(kind, close));
      assert AddAll(begun, kids).kids == kids;
      FeedConcat(z, [Open(kind, start)], Ser(kids));
      FeedConcat(z, [Open(kind, start)] + Ser(kids), [Close(kind, close)]);
  }

  lemma FedAlone(z: Zip, lexeme: Lexeme)
    ensures FeedAll(z, [lexeme]) == Feed(z, lexeme)
  {
    if Feed(z, lexeme).Some? {
      assert FeedAll(Feed(z, lexeme).value, [lexeme][1..]) == Feed(z, lexeme);
    }
  }

  lemma {:induction false} BlanksAreDropped(js: string, pos: nat)
    requires pos <= |js|
    ensures Blank !in Lex(js, pos).seen
    decreases |js| - pos
  {
    if pos < |js| && Next(js, pos).Took? {
      BlanksAreDropped(js, Next(js, pos).next);
    }
  }

  /**
    Success, with the tokens of a forest, exactly when there is no lexical error and the
    lexemes are what that forest is written with: brackets match in kind and number.
   */
  lemma ReadAcceptsForests(js: string, nodes: seq<Node>)
    ensures Read(js, 0, Top([])) == Outcome(Success, Top(nodes))
       <==> Lex(js, 0).code == Success && Lex(js, 0).seen == Ser(nodes)
  {
    var seen := Lex(js, 0).seen;
    ReadFeedsLexemes(js, 0, Top([]), nodes);
    BlanksAreDropped(js, 0);
    if FeedAll(Top([]), seen) == Some(Top(nodes)) {
      FedIsWritten(Top([]), seen);
      assert seen == Ser(nodes);
    }
    WrittenIsFed(Top([]), nodes);
    assert AddAll(Top([]), nodes) == Top(nodes);
  }

  lemma SuccessLeavesNothingOpen(js: string, pos: nat, z: Zip)
    requires pos <= |js|
    ensures Read(js, pos, z).code == Success ==> Read(js, pos, z).zip.Top?
    ensures Read(js, pos, z).code != NoMem
    decreases |js| - pos
  {
  }

  lemma SucceedsIffBalanced(js: string)
    ensures Read(js, 0, Top([])).code == Success
       <==> Lex(js, 0).code == Success && exists nodes :: Ser(nodes) == Lex(js, 0).seen
  {
    var o := Read(js, 0, Top([]));
    SuccessLeavesNothingOpen(js, 0, Top([]));
    if o.code == Success {
      ReadAcceptsForests(js, o.zip.kids);
    }
    if nodes :| Lex(js, 0).code == Success && Ser(nodes) == Lex(js, 0).seen {
      ReadAcceptsForests(js, nodes);
    }
  }

  // ---------------------------------------------------------------- where the tokens lie

  function Left(n: Node): int {
    if n.kind == String then n.start - 1 else n.start
  }

  function Right(n: Node): int {
    if n.Branch? then n.close + 1 else if n.kind == String then n.end + 1 else n.end
  }

  /** The nodes lie side by side between `lo` and `hi`, a branch around its children. */
  ghost predicate Placed(nodes: seq<Node>, lo: int, hi: int)
    decreases nodes, 0
  {
    if nodes == [] then lo <= hi
    else
      var n := nodes[|nodes| - 1];
      Placed(nodes[..|nodes| - 1], lo, Left(n)) && PlacedNode(n) && Right(n) <= hi
  }

  ghost predicate PlacedNode(n: Node)
    decreases n
  {
    match n
    case Leaf(kind, start, end) => (kind == String && 1 <= start <= end) || (kind == Primitive && start < end)
    case Branch(kind, start, close, kids) =>
      (kind == Object || kind == Array) && Placed(kids, start + 1, close)
  }

  ghost predicate PlacedZip(z: Zip, pos: nat) {
    match z
    case Top(kids) => Placed(kids, 0, pos)
    case In(outer, kind, start, kids) =>
      (kind == Object || kind == Array) && PlacedZip(outer, start) && Placed(kids, start + 1, pos)
  }

  lemma PlacedAdd(nodes: seq<Node>, n: Node, lo: int, mid: int, hi: int)
    requires Placed(nodes, lo, mid) && PlacedNode(n) && mid <= Left(n) && Right(n) <= hi
    ensures Placed(nodes + [n], lo, hi)
  {
    PlacedWider(nodes, lo, mid, Left(n));
    assert (nodes + [n])[..|nodes|] == nodes;
  }

  lemma PlacedWider(nodes: seq<Node>, lo: int, mid: int, hi: int)
    requires Placed(nodes, lo, mid) && mid <= hi
    ensures Placed(nodes, lo, hi)
  {
  }

  lemma ZipWider(z: Zip, pos: nat, next: nat)
    requires PlacedZip(z, pos) && pos <= next
    ensures PlacedZip(z, next)
  {
    PlacedWider(z.kids, if z.Top? then 0 else z.start + 1, pos, next);
  }

  lemma {:induction false} PlacedInOrder(nodes: seq<Node>, lo: int, hi: int)
    requires Placed(nodes, lo, hi)
    ensures lo <= hi
    decreases nodes
  {
    if nodes != [] {
      var n := nodes[|nodes| - 1];
      PlacedInOrder(nodes[..|nodes| - 1], lo, Left(n));
      if n.Branch? { PlacedInOrder(n.kids, n.start + 1, n.close); }
    }
  }

  /** A node added to the innermost container lies where its lexeme was. */
  lemma PlacedAfter(z: Zip, n: Node, pos: nat, next: nat)
    requires PlacedZip(z, pos) && PlacedNode(n) && pos <= Left(n) && Right(n) <= next
    ensures PlacedZip(Add(z, n), next)
  {
    PlacedAdd(z.kids, n, if z.Top? then 0 else z.start + 1, pos, next);
  }

  lemma FeedPlaces(js: string, pos: nat, z: Zip)
    requires pos < |js| && PlacedZip(z, pos)
    requires Next(js, pos).Took? && Feed(z, Next(js, pos).lexeme).Some?
    ensures PlacedZip(Feed(z, Next(js, pos).lexeme).value, Next(js, pos).next)
  {
    var r := Next(js, pos);
    match r.lexeme
    case Blank => ZipWider(z, pos, r.next);
    case Open(_, _) =>
    case Word(kind, start, end) => PlacedAfter(z, Leaf(kind, start, end), pos, r.next);
    case Close(kind, at) =>
      PlacedAfter(z.outer, Branch(kind, z.start, at, z.kids), z.start, r.next);
  }

  lemma {:induction false} ReadPlaces(js: string, pos: nat, z: Zip)
    requires pos <= |js| && PlacedZip(z, pos)
    ensures PlacedZip(Read(js, pos, z).zip, |js|)
    decreases |js| - pos
  {
    ZipWider(z, pos, |js|);
    if pos < |js| && Next(js, pos).Took? && Feed(z, Next(js, pos).lexeme).Some? {
      FeedPlaces(js, pos, z);
      ReadPlaces(js, Next(js, pos).next, Feed(z, Next(js, pos).lexeme).value);
    }
  }

  /** Later tokens start later, and any two token intervals are nested or disjoint. */
  ghost predicate Laminar(ts: seq<Token>, lo: int, hi: int) {
    && (forall i :: 0 <= i < |ts| ==> lo <= ts[i].start <= ts[i].end <= hi && ts[i].start < hi)
    && (forall i, j :: 0 <= i < j < |ts| ==>
          ts[i].start < ts[j].start && (ts[i].end <= ts[j].start || ts[j].end <= ts[i].end))
  }

  lemma {:induction false} PlacedIsLaminar(nodes: seq<Node>, lo: int, hi: int)
    requires Placed(nodes, lo, hi)
    ensures Laminar(Flat(nodes), lo, hi)
    decreases nodes
  {
    if nodes != [] {
      var front, n := nodes[..|nodes| - 1], nodes[|nodes| - 1];
      PlacedIsLaminar(front, lo, Left(n));
      PlacedInOrder(front, lo, Left(n));
      if n.Branch? {
        PlacedIsLaminar(n.kids, n.start + 1, n.close);
        PlacedInOrder(n.kids, n.start + 1, n.close);
      }
      SideBySide(Flat(front), FlatNode(n), lo, Left(n), Right(n), hi);
    }
  }

  lemma SideBySide(x: seq<Token>, y: seq<Token>, lo: int, mid: int, end: int, hi: int)
    requires lo <= mid <= end <= hi && Laminar(x, lo, mid) && Laminar(y, mid, end)
    ensures Laminar(x + y, lo, hi)
  {
  }

  /** The shape of the tokens of every accepted text. */
  lemma TokensAreLaminar(js: string, nodes: seq<Node>)
    requires Read(js, 0, Top([])) == Outcome(Success, Top(nodes))
    ensures Placed(nodes, 0, |js|) && Laminar(Flat(nodes), 0, |js|)
  {
    ReadPlaces(js, 0, Top([]));
    PlacedIsLaminar(nodes, 0, |js|);
  }

  // ---------------------------------------------------------------- how many tokens

  lemma FeedAddsATokenAtMost(z: Zip, lexeme: Lexeme)
    requires Feed(z, lexeme).Some?
    ensures |FlatZip(Feed(z, lexeme).value, 0)| <= |FlatZip(z, 0)| + 1
  {
    CountsChild(z);
    assert |FlatZip(z, 1)| == |FlatZip(z, 0)|;
    match lexeme
    case Blank =>
    case Open(kind, at) =>
      assert FlatZip(In(z, kind, at, []), 0) == FlatZip(z, 1) + [Token(kind, at, -1, 0)];
    case Word(kind, start, end) =>
      AddsLeaf(z, Leaf(kind, start, end));
    case Close(kind, at) =>
      ClosesBranch(z, at);
      assert |FlatZip(Feed(z, lexeme).value, 0)| == |FlatZip(z, 0)|;
  }

  /** There are never more tokens than characters. */
  lemma {:induction false} TokensFitCharacters(js: string, pos: nat, z: Zip)
    requires pos <= |js| && |FlatZip(z, 0)| <= pos
    ensures |FlatZip(Read(js, pos, z).zip, 0)| <= |js|
    decreases |js| - pos
  {
    if pos < |js| {
      var r := Next(js, pos);
      if r.Took? && Feed(z, r.lexeme).Some? {
        FeedAddsATokenAtMost(z, r.lexeme);
        TokensFitCharacters(js, r.next, Feed(z, r.lexeme).value);
      }
    }
  }
}
