/** The profile store of src/profile.c: settings are strings in a tree whose keys come from a schema. */
module Profile {
  import opened Options
  import opened Bytes
  import opened Values
  import opened TernaryTree
  import opened TreeObject
  import opened CoTree
  import opened JsonScan
  import opened JsonForest
  import opened JsonParse
  import opened JsonWalk
  import opened Jsmn

  // ---------------------------------------------------------------- setting a string

  /** A string object can take the text, its length field being `len` wide. */
  predicate TakesText(v: Value, text: seq<byte>) {
    v.Str? && v.len < 3 && |text| < Pow256(Width(v.len))
  }

  predicate Settable(m: map<Key, Value>, key: Key, text: seq<byte>) {
    key in m && TakesText(m[key], text)
  }

  function SetText(m: map<Key, Value>, key: Key, text: seq<byte>): map<Key, Value> {
    if Settable(m, key, text) then m[key := Str(m[key].len, text)] else m
  }

  /** co_profile_set_str, that is co_tree_set_str: never a new key, never another type. */
  method SetStr(data: CoTree<Value>, key: Key, text: seq<byte>) returns (ok: bool)
    requires data.Valid() && key != []
    modifies ReprOf(data.root)
    ensures data.Valid() && ReprOf(data.root) == old(ReprOf(data.root))
    ensures ok <==> Settable(old(data.Contents()), key, text)
    ensures data.Contents() == SetText(old(data.Contents()), key, text)
  {
    var was := data.Find(key);
    if was == None || !TakesText(was.value, text) {
      return false;
    }
    ok := data.SetValue(key, Str(was.value.len, text));
  }

  // ---------------------------------------------------------------- what an import does

  datatype Settled = Settled(ok: bool, m: map<Key, Value>)

  function Slice(js: string, n: Node): string
    requires n.Leaf?
  {
    if n.start <= n.end <= |js| then js[n.start..n.end] else ""
  }

  /** A string on the page, as the NUL-terminated bytes that reach the profile. */
  function Terminated(js: string, n: Node): (r: seq<byte>)
    requires n.Leaf?
    ensures r != []
  {
    Codes(Slice(js, n)) + [0]
  }

  function Stored(js: string, key: Node, value: Node, m: map<Key, Value>): map<Key, Value>
    requires StringLeaf(key) && StringLeaf(value)
  {
    if Slice(js, key) == "" then m else SetText(m, Terminated(js, key), Terminated(js, value))
  }

  /** The children of the root object in pairs, from the i-th on, up to one that is not a string. */
  function Settle(js: string, kids: seq<Node>, i: nat, m: map<Key, Value>): Settled
    requires i <= |kids|
    decreases |kids| - i, 0
  {
    if i == |kids| then Settled(true, m)
    else if i + 1 == |kids| || !StringLeaf(kids[i]) || !StringLeaf(kids[i + 1]) then Settled(false, m)
    else Onward(js, kids, i + 2, Stored(js, kids[i], kids[i + 1], m))
  }

  /** What is left of the page; a name that keeps the recursive definition folded in the proofs of the walk. */
  function Onward(js: string, kids: seq<Node>, i: nat, m: map<Key, Value>): Settled
    requires i <= |kids|
    decreases |kids| - i, 1
  {
    Settle(js, kids, i, m)
  }

  function ImportForest(js: string, nodes: seq<Node>, m: map<Key, Value>): Settled
  {
    if nodes == [] || !nodes[0].Branch? || nodes[0].kind != Object || |nodes[0].kids| % 2 != 0 then Settled(false, m)
    else Onward(js, nodes[0].kids, 0, m)
  }

  // ---------------------------------------------------------------- the token walk

  datatype ParseState = START | KEY | VALUE | STOP

  /** The tokens the walk has before it, and the buffer in which it cuts strings off with NULs. */
  ghost predicate Buffered(buffer: string, js: string, from: int) {
    |buffer| == |js| + 1 && forall i :: 0 <= i < |js| && from <= i ==> buffer[i] == js[i]
  }

  /** _co_json_token_stringify */
  method Stringify(buffer: array<char>, t: Token, ghost js: string, ghost n: Node) returns (start: nat)
    requires StringLeaf(n) && n.start <= n.end <= |js| && t == FlatNode(n)[0]
    requires Buffered(buffer[..], js, n.start)
    modifies buffer
    ensures start == n.start && Buffered(buffer[..], js, n.end + 1)
    ensures forall i :: 0 <= i < n.start ==> buffer[i] == old(buffer[i])
    ensures buffer[n.start..n.end] == Slice(js, n) && buffer[n.end] == '\0'
  {
    buffer[t.end] := '\0';
    start := t.start;
  }

  /** A key cut out of the buffer, waiting for its value. */
  ghost predicate KeyCut(buffer: string, key: nat, klen: nat, js: string, n: Node) {
    && StringLeaf(n) && n.start <= n.end <= |js| && n.end < |buffer|
    && key == n.start && klen == n.end - n.start
    && buffer[n.start..n.end] == Slice(js, n) && buffer[n.end] == '\0'
  }

  lemma CutIsTerminated(buffer: string, js: string, n: Node)
    requires StringLeaf(n) && n.start <= n.end <= |js| && n.end < |buffer|
    requires buffer[n.start..n.end] == Slice(js, n) && buffer[n.end] == '\0'
    ensures Codes(buffer[n.start..n.end + 1]) == Terminated(js, n)
  {
    assert buffer[n.start..n.end + 1] == Slice(js, n) + ['\0'];
  }

  lemma ChildInPlace(root: Node, hi: nat, k: nat)
    requires root.Branch? && PlacedNode(root) && Right(root) <= hi && k < |root.kids|
    ensures PlacedNode(root.kids[k]) && Right(root.kids[k]) <= hi
    ensures k > 0 ==> Right(root.kids[k - 1]) <= Left(root.kids[k])
  {
    WithinPlace(root.kids, root.start + 1, root.close, k);
    if k > 0 { SiblingsApart(root.kids, root.start + 1, root.close, k - 1, k); }
  }

  /** What is left to do, `i` tokens into the walk. */
  ghost function Rest(js: string, kids: seq<Node>, i: nat, m: map<Key, Value>): Settled
    requires 1 <= i <= |kids| + 1
  {
    Onward(js, kids, if i % 2 == 1 then i - 1 else i - 2, m)
  }

  lemma RestStep(js: string, kids: seq<Node>, i: nat, m: map<Key, Value>)
    requires 1 <= i <= |kids| && |kids| % 2 == 0
    requires i % 2 == 0 ==> StringLeaf(kids[i - 2])
    ensures !StringLeaf(kids[i - 1]) ==> Rest(js, kids, i, m) == Settled(false, m)
    ensures StringLeaf(kids[i - 1]) ==>
      Rest(js, kids, i, m) == Rest(js, kids, i + 1, if i % 2 == 1 then m else Stored(js, kids[i - 2], kids[i - 1], m))
  {
    if i % 2 == 0 { PairStep(js, kids, i - 2, m); } else { OnwardIsSettle(js, kids, i - 1, m); }
  }

  lemma OnwardIsSettle(js: string, kids: seq<Node>, i: nat, m: map<Key, Value>)
    requires i <= |kids|
    ensures Onward(js, kids, i, m) == Settle(js, kids, i, m)
  {
  }

  lemma PairStep(js: string, kids: seq<Node>, i: nat, m: map<Key, Value>)
    requires i + 1 < |kids| && StringLeaf(kids[i])
    ensures Onward(js, kids, i, m) ==
            if StringLeaf(kids[i + 1]) then Onward(js, kids, i + 2, Stored(js, kids[i], kids[i + 1], m))
            else Settled(false, m)
  {
    OnwardIsSettle(js, kids, i, m);
  }

  /** The VALUE case: an empty key is skipped, and so is a key outside the schema. */
  method StoreValue(data: CoTree<Value>, buffer: array<char>, t: Token, key: Option<nat>, klen: nat,
                    ghost js: string, ghost k: Node, ghost n: Node)
    requires data.Valid() && key.Some? && KeyCut(buffer[..], key.value, klen, js, k)
    requires StringLeaf(n) && k.end < n.start <= n.end <= |js| && t == FlatNode(n)[0]
    requires Buffered(buffer[..], js, n.start)
    modifies buffer, ReprOf(data.root)
    ensures data.Valid() && ReprOf(data.root) == old(ReprOf(data.root))
    ensures data.Contents() == Stored(js, k, n, old(data.Contents()))
    ensures Buffered(buffer[..], js, n.end + 1)
  {
    if key != None && klen > 0 {
      var at := Stringify(buffer, t, js, n);
      CutIsTerminated(buffer[..], js, k);
      CutIsTerminated(buffer[..], js, n);
      var name := Codes(buffer[key.value..key.value + klen + 1]);
      var stored := SetStr(data, name, Codes(buffer[at..at + (t.end - t.start) + 1]));
    }
  }

  /** The local variables of the walk. */
  datatype Walk = Walk(state: ParseState, left: int, key: Option<nat>, klen: nat)

  /** The walk below the root object, with `i` tokens behind it: its local variables. */
  ghost predicate At(w: Walk, kids: seq<Node>, i: nat) {
    && 1 <= i <= |kids| + 1 && |kids| % 2 == 0 && w.left == |kids| + 1 - i
    && w.state == (if w.left == 0 then STOP else StateAt(i))
    && (forall k :: 0 <= k < i - 1 ==> StringLeaf(kids[k]))
    && (w.state == VALUE ==> w.key.Some?)
  }

  /** The state in which the walk sees its i-th token: STOP sees none. */
  function StateAt(i: nat): ParseState {
    if i == 0 then START else if i % 2 == 1 then KEY else VALUE
  }

  /** The states of the first `n` tokens. */
  function States(n: nat): (r: seq<ParseState>)
    ensures |r| == n && STOP !in r
  {
    if n == 0 then [] else States(n - 1) + [StateAt(n - 1)]
  }

  lemma OneMoreState(n: nat, seen: seq<ParseState>, state: ParseState)
    requires seen == States(n) && state == StateAt(n)
    ensures seen + [state] == States(n + 1)
  {
  }

  lemma NextAt(w: Walk, kids: seq<Node>, i: nat, next: Walk)
    requires At(w, kids, i) && i <= |kids| && StringLeaf(kids[i - 1])
    requires next.left == w.left - 1
    requires next.state == if next.left == 0 then STOP else if w.state == KEY then VALUE else KEY
    requires next.state == VALUE ==> next.key.Some?
    ensures At(next, kids, i + 1)
  {
  }

  /** And what it finds in the buffer. */
  ghost predicate Walking(w: Walk, buffer: string, js: string, kids: seq<Node>, i: nat) {
    && At(w, kids, i)
    && Buffered(buffer, js, if i == 1 then 0 else kids[i - 2].end + 1)
    && (w.state == VALUE ==> KeyCut(buffer, w.key.value, w.klen, js, kids[i - 2]))
  }

  /** The KEY case. */
  method VisitKey(buffer: array<char>, t: Token, w: Walk, ghost js: string, ghost root: Node, ghost i: nat)
      returns (ok: bool, next: Walk)
    requires root.Branch? && PlacedNode(root) && Right(root) <= |js|
    requires Walking(w, buffer[..], js, root.kids, i) && i <= |root.kids| && t == FlatNode(root.kids[i - 1])[0]
    requires w.state == KEY
    modifies buffer
    ensures ok == StringLeaf(root.kids[i - 1])
    ensures ok ==> Walking(next, buffer[..], js, root.kids, i + 1)
  {
    ChildInPlace(root, |js|, i - 1);
    if t.kind != String {
      return false, w;
    }
    var at := Stringify(buffer, t, js, root.kids[i - 1]);
    next := Walk(VALUE, w.left - 1, Some(at), t.end - t.start);
    NextAt(w, root.kids, i, next);
    ok := true;
  }

  /** The VALUE case. */
  method VisitValue(data: CoTree<Value>, buffer: array<char>, t: Token, w: Walk,
                    ghost js: string, ghost root: Node, ghost i: nat) returns (ok: bool, next: Walk)
    requires data.Valid() && root.Branch? && PlacedNode(root) && Right(root) <= |js|
    requires Walking(w, buffer[..], js, root.kids, i) && i <= |root.kids| && t == FlatNode(root.kids[i - 1])[0]
    requires w.state == VALUE
    modifies buffer, ReprOf(data.root)
    ensures data.Valid() && ReprOf(data.root) == old(ReprOf(data.root))
    ensures ok == StringLeaf(root.kids[i - 1])
    ensures ok ==> Walking(next, buffer[..], js, root.kids, i + 1)
    ensures data.Contents() ==
            if ok then Stored(js, root.kids[i - 2], root.kids[i - 1], old(data.Contents())) else old(data.Contents())
  {
    ChildInPlace(root, |js|, i - 1);
    if t.kind != String {
      return false, w;
    }
    next := Walk(if w.left - 1 == 0 then STOP else KEY, w.left - 1, None, 0);
    NextAt(w, root.kids, i, next);
    StoreValue(data, buffer, t, w.key, w.klen, js, root.kids[i - 2], root.kids[i - 1]);
    ok := true;
  }

  /** The START case. */
  method VisitRoot(buffer: array<char>, t: Token, ghost js: string, ghost nodes: seq<Node>, ghost m: map<Key, Value>)
      returns (ok: bool, next: Walk)
    requires Buffered(buffer[..], js, 0)
    requires if nodes == [] then t == UNUSED else t == FlatNode(nodes[0])[0] && PlacedNode(nodes[0])
    ensures !ok ==> ImportForest(js, nodes, m) == Settled(false, m)
    ensures ok ==> nodes != [] && nodes[0].Branch? && t.size == next.left
    ensures ok ==> Walking(next, buffer[..], js, nodes[0].kids, 1)
    ensures ok ==> Rest(js, nodes[0].kids, 1, m) == ImportForest(js, nodes, m)
  {
    if t.kind != Object {
      return false, Walk(START, 0, None, 0);
    }
    next := Walk(if t.size == 0 then STOP else KEY, t.size, None, 0);
    ok := t.size % 2 == 0;
  }

  /** The whole walk: `j` tokens are still to be seen. */
  ghost predicate Walked(w: Walk, j: int, buffer: string, js: string, nodes: seq<Node>, i: nat) {
    if i == 0 then w.state == START && j == 1 && Buffered(buffer, js, 0)
    else nodes != [] && nodes[0].Branch? && j == w.left && Walking(w, buffer, js, nodes[0].kids, i)
  }

  ghost function Ahead(js: string, nodes: seq<Node>, i: nat, m: map<Key, Value>): Settled
    requires i > 0 ==> nodes != [] && nodes[0].Branch? && i <= |nodes[0].kids| + 1
  {
    if i == 0 then ImportForest(js, nodes, m) else Rest(js, nodes[0].kids, i, m)
  }

  method Visit(data: CoTree<Value>, buffer: array<char>, t: Token, w: Walk,
               ghost js: string, ghost nodes: seq<Node>, ghost i: nat, ghost j: int) returns (ok: bool, next: Walk)
    requires data.Valid() && Walked(w, j, buffer[..], js, nodes, i) && j > 0
    requires nodes != [] ==> PlacedNode(nodes[0]) && Right(nodes[0]) <= |js|
    requires if nodes == [] then t == UNUSED else t == FlatNode(if i == 0 then nodes[0] else nodes[0].kids[i - 1])[0]
    modifies buffer, ReprOf(data.root)
    ensures data.Valid() && ReprOf(data.root) == old(ReprOf(data.root))
    ensures ok ==> Walked(next, j + t.size - 1, buffer[..], js, nodes, i + 1)
    ensures ok ==> Ahead(js, nodes, i + 1, data.Contents()) == Ahead(js, nodes, i, old(data.Contents()))
    ensures !ok ==> Ahead(js, nodes, i, old(data.Contents())) == Settled(false, data.Contents())
  {
    if i > 0 {
      RestStep(js, nodes[0].kids, i, data.Contents());
    }
    match w.state {
      case START => ok, next := VisitRoot(buffer, t, js, nodes, data.Contents());
      case KEY => ok, next := VisitKey(buffer, t, w, js, nodes[0], i);
      case VALUE => ok, next := VisitValue(data, buffer, t, w, js, nodes[0], i);
      case STOP => ok, next := true, w;
    }
  }

  /** The tokens of the forest at the front of the array. */
  ghost predicate Laid(ts: seq<Token>, nodes: seq<Node>, hi: int) {
    && Placed(nodes, 0, hi) && |Flat(nodes)| <= |ts| && ts[..|Flat(nodes)|] == Flat(nodes)
    && (nodes == [] ==> ts != [] && ts[0] == UNUSED)
  }

  /** The token at `i` is there, in use and the one expected, and only containers have a size. */
  lemma TokenInPlace(ts: seq<Token>, nodes: seq<Node>, hi: nat, w: Walk, j: int, buffer: string, js: string, i: nat)
    requires Laid(ts, nodes, hi) && Walked(w, j, buffer, js, nodes, i) && j > 0
    ensures w.state == StateAt(i) && i < |ts| && (nodes != [] ==> i < |Flat(nodes)|)
    ensures nodes != [] ==> PlacedNode(nodes[0]) && Right(nodes[0]) <= hi && Closed(ts[i])
    ensures if nodes == [] then i == 0 && ts[i] == UNUSED
            else ts[i] == FlatNode(if i == 0 then nodes[0] else nodes[0].kids[i - 1])[0]
    ensures ts[i].kind == Array || ts[i].kind == Object || ts[i].size == 0
  {
    WalkedToken(nodes, i, hi);
    assert nodes != [] ==> ts[i] == ts[..|Flat(nodes)|][i];
  }

  /** One round of the loop: a container's size is added to the count, and the token is seen. */
  method SeeToken(data: CoTree<Value>, buffer: array<char>, t: Token, w: Walk, j: int,
                  ghost ts: seq<Token>, ghost js: string, ghost nodes: seq<Node>, ghost i: nat, ghost result: Settled)
      returns (ok: bool, w': Walk, j': int)
    requires data.Valid() && Laid(ts, nodes, |js|) && Walked(w, j, buffer[..], js, nodes, i) && j > 0
    requires i < |ts| && t == ts[i] && Ahead(js, nodes, i, data.Contents()) == result
    modifies buffer, ReprOf(data.root)
    ensures data.Valid() && ReprOf(data.root) == old(ReprOf(data.root))
    ensures ok ==> Walked(w', j', buffer[..], js, nodes, i + 1) && j' == j + t.size - 1
    ensures if ok then Ahead(js, nodes, i + 1, data.Contents()) == result else result == Settled(false, data.Contents())
  {
    TokenInPlace(ts, nodes, |js|, w, j, buffer[..], js, i);
    w', j' := w, j;
    if !(t.start != -1 && t.end != -1) {
      return false, w', j';
    }
    if t.kind == Array || t.kind == Object {
      j' := j + t.size;
    }
    j' := j' - 1;
    ok, w' := Visit(data, buffer, t, w, js, nodes, i, j);
  }

  /** The loop of _co_profile_import_files_i and co_profile_import_global, with the states it goes through. */
  method SeeTokens(data: CoTree<Value>, buffer: array<char>, tokens: array<Token>,
                   ghost js: string, ghost nodes: seq<Node>, ghost result: Settled)
      returns (ok: bool, ghost w: Walk, ghost seen: seq<ParseState>)
    requires data.Valid() && Buffered(buffer[..], js, 0) && Laid(tokens[..], nodes, |js|)
    requires Ahead(js, nodes, 0, data.Contents()) == result
    modifies buffer, ReprOf(data.root)
    ensures data.Valid() && ReprOf(data.root) == old(ReprOf(data.root)) && seen == States(|seen|)
    ensures Passed(tokens[..], nodes, w, |seen|, ok)
    ensures if ok then Ahead(js, nodes, |seen|, data.Contents()) == result
            else result == Settled(false, data.Contents())
  {
    var walk := Walk(START, 0, None, 0);
    var i: nat, j := 0, 1;
    ghost var ts := tokens[..];
    seen := [];
    while j > 0
      invariant data.Valid() && ReprOf(data.root) == old(ReprOf(data.root))
      invariant Walked(walk, j, buffer[..], js, nodes, i) && seen == States(i)
      invariant Ahead(js, nodes, i, data.Contents()) == result
      decreases |ts| - i
    {
      Passing(ts, nodes, |js|, walk, j, buffer[..], js, i);
      w := walk;
      ok, walk, j := SeeToken(data, buffer, tokens[i], walk, j, ts, js, nodes, i, result);
      if !ok {
        return;
      }
      OneMoreState(i, seen, w.state);
      i, seen := i + 1, seen + [w.state];
    }
    Passing(ts, nodes, |js|, walk, j, buffer[..], js, i);
    ok, w := true, walk;
  }

  /** `n` tokens of the first tree were seen, and all of them if `all`. */
  ghost predicate Passed(ts: seq<Token>, nodes: seq<Node>, w: Walk, n: nat, all: bool) {
    if n == 0 then !all else nodes != [] && nodes[0].Branch? && At(w, nodes[0].kids, n) && (all ==> w.left == 0)
  }

  lemma Passing(ts: seq<Token>, nodes: seq<Node>, hi: nat, w: Walk, j: int, buffer: string, js: string, i: nat)
    requires Laid(ts, nodes, hi) && Walked(w, j, buffer, js, nodes, i)
    ensures Passed(ts, nodes, w, i, j <= 0)
    ensures j > 0 ==> w.state == StateAt(i) && i < |ts|
  {
    if j > 0 { TokenInPlace(ts, nodes, hi, w, j, buffer, js, i); }
  }

  /** What that is in tokens: the countdown from 1 sees the tokens of the first tree. */
  lemma PassedTokens(ts: seq<Token>, nodes: seq<Node>, hi: nat, w: Walk, n: nat, all: bool)
    requires Laid(ts, nodes, hi) && Passed(ts, nodes, w, n, all)
    ensures n <= Countdown(ts, 1)
    ensures all ==> nodes != [] && n == Countdown(ts, 1) == |FlatNode(nodes[0])|
  {
    if nodes != [] {
      SeenFirstTree(ts, nodes);
      if n > 0 { LeavesFirst(nodes[0].kids, n - 1); }
    }
  }

  lemma NothingAhead(ts: seq<Token>, js: string, nodes: seq<Node>, w: Walk, n: nat, m: map<Key, Value>)
    requires Passed(ts, nodes, w, n, true)
    ensures Ahead(js, nodes, n, m) == Settled(true, m)
  {
    OnwardIsSettle(js, nodes[0].kids, |nodes[0].kids|, m);
  }

  /**
    The walk over all tokens. Those it has seen, it saw in the states `seen`, none of them STOP; an import
    that succeeds has seen exactly the tokens of the root object.
   */
  method ImportTokens(data: CoTree<Value>, buffer: array<char>, tokens: array<Token>,
                      ghost js: string, ghost nodes: seq<Node>) returns (ok: bool, ghost seen: seq<ParseState>)
    requires data.Valid() && Buffered(buffer[..], js, 0) && Laid(tokens[..], nodes, |js|)
    modifies buffer, ReprOf(data.root)
    ensures data.Valid() && ReprOf(data.root) == old(ReprOf(data.root))
    ensures Settled(ok, data.Contents()) == ImportForest(js, nodes, old(data.Contents()))
    ensures seen == States(|seen|) && STOP !in seen && |seen| <= Countdown(tokens[..], 1)
    ensures ok ==> nodes != [] && |seen| == Countdown(tokens[..], 1) == |FlatNode(nodes[0])|
  {
    ghost var w;
    ok, w, seen := SeeTokens(data, buffer, tokens, js, nodes, ImportForest(js, nodes, data.Contents()));
    PassedTokens(tokens[..], nodes, |js|, w, |seen|, ok);
    if ok { NothingAhead(tokens[..], js, nodes, w, |seen|, data.Contents()); }
  }

  lemma {:induction false} LeavesFirst(kids: seq<Node>, n: nat)
    requires n <= |kids| && forall k :: 0 <= k < n ==> kids[k].Leaf?
    ensures n <= |Flat(kids)| && (n == |kids| ==> n == |Flat(kids)|)
    decreases |kids|
  {
    if kids != [] { LeavesFirst(kids[..|kids| - 1], if n == |kids| then n - 1 else n); }
  }

  lemma SeenFirstTree(ts: seq<Token>, nodes: seq<Node>)
    requires nodes != [] && |Flat(nodes)| <= |ts| && ts[..|Flat(nodes)|] == Flat(nodes)
    ensures Countdown(ts, 1) == |FlatNode(nodes[0])|
  {
    FlatFirst(nodes);
    var rest := ts[|FlatNode(nodes[0])|..];
    assert ts == FlatNode(nodes[0]) + rest by {
      assert FlatNode(nodes[0]) == Flat(nodes)[..|FlatNode(nodes[0])|];
    }
    CountdownSeesNode(nodes[0], rest, 0);
  }

  /** The token the walk reads next is in use, and is that of the root or of the next child. */
  lemma WalkedToken(nodes: seq<Node>, i: nat, hi: int)
    requires Placed(nodes, 0, hi)
    requires i > 0 ==> nodes != [] && nodes[0].Branch? && i <= |nodes[0].kids|
    requires i > 0 ==> forall k :: 0 <= k < i - 1 ==> nodes[0].kids[k].Leaf?
    ensures nodes != [] ==> PlacedNode(nodes[0]) && Right(nodes[0]) <= hi
    ensures nodes != [] ==> i < |Flat(nodes)|
    ensures nodes != [] ==> Flat(nodes)[i] == FlatNode(if i == 0 then nodes[0] else nodes[0].kids[i - 1])[0]
    ensures nodes != [] ==> Closed(Flat(nodes)[i])
    ensures nodes != [] ==> var t := Flat(nodes)[i]; t.kind == Array || t.kind == Object || t.size == 0
  {
    if nodes != [] {
      WithinPlace(nodes, 0, hi, 0);
      FlatIsClosed(nodes);
      if i == 0 {
        RootToken(nodes);
      } else {
        TokenBelowRoot(nodes, i - 1);
        ChildInPlace(nodes[0], hi, i - 1);
      }
    }
  }

  datatype Import = Imported | Rejected | NoTokens

  /**
    The import of one file. A text the tokenizer rejects leaves the token pointer NULL, and
    the walk starts by following it: that ending is kept apart as NoTokens.
   */
  method ImportText(data: CoTree<Value>, js: string) returns (r: Import)
    requires data.Valid()
    modifies ReprOf(data.root)
    ensures data.Valid() && ReprOf(data.root) == old(ReprOf(data.root))
    ensures r == NoTokens <==> Read(js, 0, Top([])).code != Success
    ensures r == NoTokens ==> data.Contents() == old(data.Contents())
    ensures r != NoTokens ==>
      Settled(r == Imported, data.Contents()) == ImportForest(js, Read(js, 0, Top([])).zip.kids, old(data.Contents()))
  {
    var buffer := new char[|js| + 1](i => if 0 <= i < |js| then js[i] else '\0');
    var code, tokens, zip := Tokenize(js);
    if code != Success {
      return NoTokens;
    }
    SuccessLeavesNothingOpen(js, 0, Top([]));
    TokensAreLaminar(js, zip.kids);
    var ok, _ := ImportTokens(data, buffer, tokens, js, zip.kids);
    r := if ok then Imported else Rejected;
  }

  // ---------------------------------------------------------------- laws of the import

  type Assignment = (Key, seq<byte>)

  /** The assignments a page makes, from the i-th child of the root on. */
  function Assignments(js: string, kids: seq<Node>, i: nat): seq<Assignment>
    requires i <= |kids|
    decreases |kids| - i
  {
    if i + 1 >= |kids| || !StringLeaf(kids[i]) || !StringLeaf(kids[i + 1]) then []
    else
      (if Slice(js, kids[i]) == "" then [] else [(Terminated(js, kids[i]), Terminated(js, kids[i + 1]))])
      + Assignments(js, kids, i + 2)
  }

  /** All children from the i-th on are strings, and come in pairs. */
  predicate InPairs(kids: seq<Node>, i: nat)
    requires i <= |kids|
  {
    (|kids| - i) % 2 == 0 && forall k :: i <= k < |kids| ==> StringLeaf(kids[k])
  }

  function SetAll(m: map<Key, Value>, ps: seq<Assignment>): map<Key, Value> {
    if ps == [] then m
    else SetText(SetAll(m, ps[..|ps| - 1]), ps[|ps| - 1].0, ps[|ps| - 1].1)
  }

  lemma {:induction false} SetAllFromFront(m: map<Key, Value>, p: Assignment, ps: seq<Assignment>)
    ensures SetAll(m, [p] + ps) == SetAll(SetText(m, p.0, p.1), ps)
    decreases |ps|
  {
    var all := [p] + ps;
    if ps == [] {
      assert all[..0] == [];
    } else {
      assert all[..|all| - 1] == [p] + ps[..|ps| - 1];
      SetAllFromFront(m, p, ps[..|ps| - 1]);
    }
  }

  lemma InPairsStep(kids: seq<Node>, i: nat)
    requires i + 1 < |kids|
    ensures InPairs(kids, i) <==> StringLeaf(kids[i]) && StringLeaf(kids[i + 1]) && InPairs(kids, i + 2)
  {
  }

  /** An import succeeds exactly for string pairs. */
  lemma {:induction false} SettleNeedsStringPairs(js: string, kids: seq<Node>, i: nat, m: map<Key, Value>)
    requires i <= |kids|
    ensures Settle(js, kids, i, m).ok <==> InPairs(kids, i)
    decreases |kids| - i
  {
    if i + 1 < |kids| {
      InPairsStep(kids, i);
      if StringLeaf(kids[i]) && StringLeaf(kids[i + 1]) {
        SettleNeedsStringPairs(js, kids, i + 2, Stored(js, kids[i], kids[i + 1], m));
      }
    }
  }

  /** It makes the assignments of the page, in a page with a fault those before it. */
  lemma {:induction false} SettleMakesAssignments(js: string, kids: seq<Node>, i: nat, m: map<Key, Value>)
    requires i <= |kids|
    ensures Settle(js, kids, i, m).m == SetAll(m, Assignments(js, kids, i))
    decreases |kids| - i
  {
    if i + 1 < |kids| && StringLeaf(kids[i]) && StringLeaf(kids[i + 1]) {
      var later := Assignments(js, kids, i + 2);
      var next := Stored(js, kids[i], kids[i + 1], m);
      SettleMakesAssignments(js, kids, i + 2, next);
      assert SetAll(next, later) == SetAll(m, Assignments(js, kids, i)) by {
        if Slice(js, kids[i]) == "" {
          assert Assignments(js, kids, i) == later;
        } else {
          SetAllFromFront(m, (Terminated(js, kids[i]), Terminated(js, kids[i + 1])), later);
        }
      }
    }
  }

  /** One more than the longest text a string setting can hold, by the width of its length field. */
  function Room(len: Log): nat {
    if len == 0 then 256 else if len == 1 then 65536 else 4294967296
  }

  /** A text is stored in a string setting exactly when it is short enough for it. */
  lemma LongTextIsRefused(m: map<Key, Value>, key: Key, text: seq<byte>)
    requires key in m && m[key].Str? && m[key].len < 3
    ensures SetText(m, key, text) == if |text| < Room(m[key].len) then m[key := Str(m[key].len, text)] else m
  {
    Powers();
  }

  ghost predicate TextsFit(m: map<Key, Value>) {
    forall k :: k in m && m[k].Str? ==> m[k].len < 3 && |m[k].text| < Room(m[k].len)
  }

  /** So after any import every string setting is one that its type allows. */
  lemma {:induction false} ImportKeepsTextsFit(m: map<Key, Value>, ps: seq<Assignment>)
    requires TextsFit(m)
    ensures TextsFit(SetAll(m, ps))
    decreases |ps|
  {
    if ps != [] {
      var front, last := ps[..|ps| - 1], ps[|ps| - 1];
      ImportKeepsTextsFit(m, front);
      var n := SetAll(m, front);
      if last.0 in n && n[last.0].Str? { LongTextIsRefused(n, last.0, last.1); }
    }
  }

  /** An import never creates a key outside the schema, and never changes the type of a setting. */
  lemma {:induction false} ImportKeepsSchema(m: map<Key, Value>, ps: seq<Assignment>)
    ensures SetAll(m, ps).Keys == m.Keys
    ensures forall k :: k in m ==>
      SetAll(m, ps)[k] == m[k] || (m[k].Str? && SetAll(m, ps)[k].Str? && SetAll(m, ps)[k].len == m[k].len)
    decreases |ps|
  {
    if ps != [] { ImportKeepsSchema(m, ps[..|ps| - 1]); }
  }

  /** The text of the last assignment to `key` that fits into `v`. */
  function LastFitting(ps: seq<Assignment>, key: Key, v: Value): (r: Option<seq<byte>>)
    ensures r.Some? ==> v.Str?
  {
    if ps == [] then None
    else if ps[|ps| - 1].0 == key && TakesText(v, ps[|ps| - 1].1) then Some(ps[|ps| - 1].1)
    else LastFitting(ps[..|ps| - 1], key, v)
  }

  /** After an import a setting holds the last text that fits it, or what it held before. */
  lemma {:induction false} LastDuplicateWins(m: map<Key, Value>, ps: seq<Assignment>, key: Key)
    requires key in m
    ensures key in SetAll(m, ps)
    ensures SetAll(m, ps)[key] ==
            match LastFitting(ps, key, m[key])
            case Some(text) => Str(m[key].len, text)
            case None => m[key]
    decreases |ps|
  {
    if ps != [] {
      LastDuplicateWins(m, ps[..|ps| - 1], key);
      ImportKeepsSchema(m, ps[..|ps| - 1]);
    }
  }
}
