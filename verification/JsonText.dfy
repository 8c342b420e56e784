/** Which texts the tokenizer accepts, and as what, said of their characters alone. */
module JsonText {
  import opened Options
  import opened JsonScan
  import opened JsonForest
  import opened JsonParse

  // ---------------------------------------------------------------- the grammar

  /** Colons and commas count as blanks. */
  predicate BlankChar(c: char) {
    c == ' ' || c == '\t' || c == '\r' || c == '\n' || c == ':' || c == ','
  }

  predicate Gap(js: string, lo: nat, hi: nat) {
    lo <= hi <= |js| && forall i :: lo <= i < hi ==> BlankChar(js[i])
  }

  /** The inside of a string: every quote and every backslash in it is escaped, and there are nine escapes. */
  predicate StringText(s: string) {
    s == "" ||
    if s[0] == '\\' then
      && |s| > 1 && StringText(s[2..])
      && (s[1] == '"' || s[1] == '/' || s[1] == '\\' || s[1] == 'b' || s[1] == 'f' || s[1] == 'r' || s[1] == 'n'
          || s[1] == 't' || s[1] == 'u')
    else s[0] != '"' && StringText(s[1..])
  }

  /** What may stand in a primitive: printable characters but blanks and closing brackets. */
  predicate PrimitiveChar(c: char) {
    33 <= c as int <= 126 && c != ':' && c != ',' && c != ']' && c != '}'
  }

  predicate PrimitiveText(js: string, start: nat, end: nat) {
    && start < end <= |js| && js[start] != '{' && js[start] != '[' && js[start] != '"'
    && (forall i :: start <= i < end ==> PrimitiveChar(js[i]))
    && (end < |js| ==> BlankChar(js[end]) || js[end] == ']' || js[end] == '}')
  }

  /** The text from `lo` to `hi` is these nodes and blanks between them. */
  ghost predicate Spells(js: string, nodes: seq<Node>, lo: nat, hi: nat)
    decreases nodes, 0
  {
    if nodes == [] then Gap(js, lo, hi)
    else
      var n := nodes[|nodes| - 1];
      && 0 <= Left(n) && 0 <= Right(n)
      && Spells(js, nodes[..|nodes| - 1], lo, Left(n)) && SpellsNode(js, n) && Gap(js, Right(n), hi)
  }

  ghost predicate SpellsNode(js: string, n: Node)
    decreases n
  {
    match n
    case Leaf(String, start, end) =>
      1 <= start <= end < |js| && js[start - 1] == '"' && js[end] == '"' && StringText(js[start..end])
    case Leaf(Primitive, start, end) => PrimitiveText(js, start, end)
    case Branch(Object, start, close, kids) =>
      start < close < |js| && js[start] == '{' && js[close] == '}' && Spells(js, kids, start + 1, close)
    case Branch(Array, start, close, kids) =>
      start < close < |js| && js[start] == '[' && js[close] == ']' && Spells(js, kids, start + 1, close)
    case _ => false
  }

  // ---------------------------------------------------------------- the scanners

  lemma {:induction false} StringTextIsQuotable(s: string)
    ensures StringText(s) <==> Quotable(s)
    decreases |s|
  {
    if s != "" {
      if s[0] == '\\' {
        if |s| > 1 { StringTextIsQuotable(s[2..]); }
      } else {
        StringTextIsQuotable(s[1..]);
      }
    }
  }

  lemma BlankIsBlank(c: char)
    ensures BlankChar(c) <==> IsBlank(c)
    ensures EndsPrimitive(c) <==> BlankChar(c) || c == ']' || c == '}'
    ensures PrimitiveChar(c) <==> Printable(c) && !EndsPrimitive(c)
  {
  }

  /** A primitive reaches exactly to the first character that ends it. */
  lemma {:induction false} PrimitiveIsScanned(js: string, i: nat, end: nat)
    requires i <= end <= |js|
    ensures ScanPrimitive(js, i) == Found(end) <==>
      (forall k :: i <= k < end ==> PrimitiveChar(js[k])) && (end < |js| ==> EndsPrimitive(js[end]))
    decreases |js| - i
  {
    if i < |js| {
      BlankIsBlank(js[i]);
      if i < end && PrimitiveChar(js[i]) { PrimitiveIsScanned(js, i + 1, end); }
      if i == end && !EndsPrimitive(js[i]) && Printable(js[i]) { PrimitiveGoesOn(js, i); }
    }
  }

  lemma PrimitiveGoesOn(js: string, i: nat)
    requires i < |js| && !EndsPrimitive(js[i])
    ensures ScanPrimitive(js, i) != Found(i)
  {
  }

  // ---------------------------------------------------------------- what is accepted is spelled

  ghost predicate SpellsZip(js: string, z: Zip, pos: nat) {
    match z
    case Top(kids) => Spells(js, kids, 0, pos)
    case In(outer, kind, start, kids) =>
      && SpellsZip(js, outer, start) && Spells(js, kids, start + 1, pos) && start < pos <= |js|
      && ((kind == Object && js[start] == '{') || (kind == Array && js[start] == '['))
  }

  lemma {:induction false} SpellsWithin(js: string, nodes: seq<Node>, lo: nat, hi: nat)
    requires Spells(js, nodes, lo, hi)
    ensures lo <= hi <= |js|
    decreases nodes
  {
    if nodes != [] {
      var n := nodes[|nodes| - 1];
      SpellsWithin(js, nodes[..|nodes| - 1], lo, Left(n));
    }
  }

  lemma SpellsMore(js: string, nodes: seq<Node>, lo: nat, pos: nat, next: nat)
    requires Spells(js, nodes, lo, pos) && Gap(js, pos, next)
    ensures Spells(js, nodes, lo, next)
  {
    SpellsWithin(js, nodes, lo, pos);
  }

  lemma ZipBlank(js: string, z: Zip, pos: nat)
    requires SpellsZip(js, z, pos) && pos < |js| && BlankChar(js[pos])
    ensures SpellsZip(js, z, pos + 1)
  {
    SpellsMore(js, z.kids, if z.Top? then 0 else z.start + 1, pos, pos + 1);
  }

  lemma ZipAdd(js: string, z: Zip, n: Node, pos: nat, next: nat)
    requires SpellsZip(js, z, pos) && SpellsNode(js, n) && Left(n) == pos && Right(n) == next && pos < next <= |js|
    ensures SpellsZip(js, Add(z, n), next)
  {
    assert (z.kids + [n])[..|z.kids|] == z.kids;
    assert Spells(js, z.kids + [n], if z.Top? then 0 else z.start + 1, next);
  }

  lemma WordIsSpelled(js: string, pos: nat)
    requires pos < |js| && Next(js, pos).Took? && Next(js, pos).lexeme.Word?
    ensures var r := Next(js, pos); var n := Leaf(r.lexeme.kind, r.lexeme.start, r.lexeme.end);
            SpellsNode(js, n) && Left(n) == pos && Right(n) == r.next
  {
    var r := Next(js, pos);
    BlankIsBlank(js[pos]);
    if js[pos] == '"' {
      ScannedIsQuotable(js, pos + 1);
      StringTextIsQuotable(js[r.lexeme.start..r.lexeme.end]);
    } else {
      PrimitiveIsScanned(js, pos, r.lexeme.end);
      if r.lexeme.end < |js| { BlankIsBlank(js[r.lexeme.end]); }
      assert PrimitiveText(js, pos, r.lexeme.end);
    }
  }

  lemma FeedSpells(js: string, pos: nat, z: Zip)
    requires pos < |js| && SpellsZip(js, z, pos)
    requires Next(js, pos).Took? && Feed(z, Next(js, pos).lexeme).Some?
    ensures SpellsZip(js, Feed(z, Next(js, pos).lexeme).value, Next(js, pos).next)
  {
    var r := Next(js, pos);
    BlankIsBlank(js[pos]);
    match r.lexeme
    case Blank => ZipBlank(js, z, pos);
    case Open(kind, at) => assert Spells(js, [], pos + 1, pos + 1);
    case Word(kind, start, end) =>
      WordIsSpelled(js, pos);
      ZipAdd(js, z, Leaf(kind, start, end), pos, r.next);
    case Close(kind, at) =>
      ZipAdd(js, z.outer, Branch(kind, z.start, at, z.kids), z.start, pos + 1);
  }

  lemma {:induction false} ReadSpells(js: string, pos: nat, z: Zip)
    requires pos <= |js| && SpellsZip(js, z, pos) && Read(js, pos, z).code == Success
    ensures SpellsZip(js, Read(js, pos, z).zip, |js|)
    decreases |js| - pos
  {
    if pos < |js| {
      FeedSpells(js, pos, z);
      ReadSpells(js, Next(js, pos).next, Feed(z, Next(js, pos).lexeme).value);
    }
  }

  // ---------------------------------------------------------------- what is spelled is accepted

  lemma SkipBlank(js: string, pos: nat, z: Zip)
    requires pos < |js| && IsBlank(js[pos])
    ensures Read(js, pos, z) == Read(js, pos + 1, z)
  {
    assert js[pos] != '{' && js[pos] != '[' && js[pos] != '}' && js[pos] != ']' && js[pos] != '"';
  }

  lemma {:induction false} GapIsRead(js: string, lo: nat, hi: nat, z: Zip)
    requires Gap(js, lo, hi)
    ensures Read(js, lo, z) == Read(js, hi, z)
    decreases hi - lo
  {
    if lo < hi {
      BlankIsBlank(js[lo]);
      SkipBlank(js, lo, z);
      GapIsRead(js, lo + 1, hi, z);
    }
  }

  lemma ReadQuoted(js: string, pos: nat, z: Zip, s: string)
    requires pos + 1 + |s| < |js| && js[pos] == '"' && js[pos + 1 + |s|] == '"'
    requires js[pos + 1..pos + 1 + |s|] == s && Quotable(s)
    ensures Read(js, pos, z) == Read(js, pos + 2 + |s|, Add(z, Leaf(String, pos + 1, pos + 1 + |s|)))
  {
    QuotableIsScanned(js, pos + 1, s);
  }

  lemma ReadPrimitive(js: string, start: nat, end: nat, z: Zip)
    requires PrimitiveText(js, start, end)
    ensures Read(js, start, z) == Read(js, end, Add(z, Leaf(Primitive, start, end)))
  {
    BlankIsBlank(js[start]);
    if end < |js| { BlankIsBlank(js[end]); }
    PrimitiveIsScanned(js, start, end);
    assert PrimitiveChar(js[start]);
  }

  lemma {:induction false} SpelledIsRead(js: string, nodes: seq<Node>, lo: nat, hi: nat, z: Zip)
    requires Spells(js, nodes, lo, hi) && hi <= |js|
    ensures lo <= |js| && Read(js, lo, z) == Read(js, hi, AddAll(z, nodes))
    decreases nodes, 0
  {
    SpellsWithin(js, nodes, lo, hi);
    if nodes == [] {
      assert z.kids + [] == z.kids;
      GapIsRead(js, lo, hi, z);
    } else {
      var front, n := nodes[..|nodes| - 1], nodes[|nodes| - 1];
      SpelledIsRead(js, front, lo, Left(n), z);
      NodeIsRead(js, n, AddAll(z, front));
      assert z.kids + front + [n] == z.kids + nodes;
      GapIsRead(js, Right(n), hi, AddAll(z, nodes));
    }
  }

  lemma {:induction false} NodeIsRead(js: string, n: Node, z: Zip)
    requires SpellsNode(js, n) && 0 <= Left(n) && 0 <= Right(n)
    ensures Left(n) <= |js| && Right(n) <= |js| && Read(js, Left(n), z) == Read(js, Right(n), Add(z, n))
    decreases n
  {
    match n
    case Leaf(String, start, end) =>
      StringTextIsQuotable(js[start..end]);
      ReadQuoted(js, start - 1, z, js[start..end]);
    case Leaf(Primitive, start, end) => ReadPrimitive(js, start, end, z);
    case Branch(kind, start, close, kids) =>
      var begun := In(z, kind, start, []);
      assert Next(js, start) == Took(Open(kind, start), start + 1);
      SpelledIsRead(js, kids, start + 1, close, begun);
      assert [] + kids == kids;
      assert Next(js, close) == Took(Close(kind, close), close + 1);
      assert Feed(In(z, kind, start, kids), Close(kind, close)) == Some(Add(z, n));
    case _ =>
  }

  /** The texts that are accepted, and the forests they are read as, are exactly these. */
  lemma AcceptsWhatIsSpelled(js: string, nodes: seq<Node>)
    ensures Read(js, 0, Top([])) == Outcome(Success, Top(nodes)) <==> Spells(js, nodes, 0, |js|)
  {
    if Read(js, 0, Top([])) == Outcome(Success, Top(nodes)) {
      assert Spells(js, [], 0, 0);
      ReadSpells(js, 0, Top([]));
    }
    if Spells(js, nodes, 0, |js|) {
      SpelledIsRead(js, nodes, 0, |js|, Top([]));
      assert [] + nodes == nodes;
    }
  }

  // ---------------------------------------------------------------- what the tokens hold

  predicate TokenText(js: string, t: Token) {
    && 0 <= t.start <= t.end <= |js|
    && match t.kind
       case Object => t.start + 1 < t.end && js[t.start] == '{' && js[t.end - 1] == '}'
       case Array => t.start + 1 < t.end && js[t.start] == '[' && js[t.end - 1] == ']'
       case String => 0 < t.start && t.end < |js| && js[t.start - 1] == '"' && js[t.end] == '"'
                      && StringText(js[t.start..t.end])
       case Primitive => PrimitiveText(js, t.start, t.end)
  }

  ghost predicate AllTokenTexts(js: string, ts: seq<Token>) {
    forall i :: 0 <= i < |ts| ==> TokenText(js, ts[i])
  }

  lemma {:induction false} SpelledTokens(js: string, nodes: seq<Node>, lo: nat, hi: nat)
    requires Spells(js, nodes, lo, hi)
    ensures AllTokenTexts(js, Flat(nodes))
    decreases nodes
  {
    if nodes != [] {
      var front, n := nodes[..|nodes| - 1], nodes[|nodes| - 1];
      SpelledTokens(js, front, lo, Left(n));
      SpelledNodeTokens(js, n);
    }
  }

  lemma {:induction false} SpelledNodeTokens(js: string, n: Node)
    requires SpellsNode(js, n)
    ensures AllTokenTexts(js, FlatNode(n))
    decreases n
  {
    if n.Branch? { SpelledTokens(js, n.kids, n.start + 1, n.close); }
  }

  /** The position belongs to a string or a primitive. */
  ghost predicate InText(ts: seq<Token>, p: nat) {
    exists i :: 0 <= i < |ts| && (ts[i].kind == String || ts[i].kind == Primitive) && ts[i].start <= p < ts[i].end
  }

  predicate Structural(c: char) {
    BlankChar(c) || c == '{' || c == '}' || c == '[' || c == ']' || c == '"'
  }

  lemma InLonger(x: seq<Token>, y: seq<Token>, p: nat)
    ensures InText(x, p) || InText(y, p) ==> InText(x + y, p)
  {
    if InText(x, p) {
      var i :| 0 <= i < |x| && (x[i].kind == String || x[i].kind == Primitive) && x[i].start <= p < x[i].end;
      assert (x + y)[i] == x[i];
    }
    if InText(y, p) {
      var i :| 0 <= i < |y| && (y[i].kind == String || y[i].kind == Primitive) && y[i].start <= p < y[i].end;
      assert (x + y)[|x| + i] == y[i];
    }
  }

  lemma {:induction false} OutsideIsStructure(js: string, nodes: seq<Node>, lo: nat, hi: nat, p: nat)
    requires Spells(js, nodes, lo, hi) && lo <= p < hi
    ensures p < |js| && (Structural(js[p]) || InText(Flat(nodes), p))
    decreases nodes
  {
    SpellsWithin(js, nodes, lo, hi);
    if nodes != [] {
      var front, n := nodes[..|nodes| - 1], nodes[|nodes| - 1];
      InLonger(Flat(front), FlatNode(n), p);
      if p < Left(n) {
        OutsideIsStructure(js, front, lo, Left(n), p);
      } else if p < Right(n) {
        NodeIsStructure(js, n, p);
      }
    }
  }

  lemma {:induction false} NodeIsStructure(js: string, n: Node, p: nat)
    requires SpellsNode(js, n) && Left(n) <= p < Right(n) <= |js|
    ensures Structural(js[p]) || InText(FlatNode(n), p)
    decreases n
  {
    if n.Branch? {
      if n.start < p < n.close {
        OutsideIsStructure(js, n.kids, n.start + 1, n.close, p);
        InLonger([Token(n.kind, n.start, n.close + 1, |n.kids|)], Flat(n.kids), p);
      }
    } else if n.start <= p < n.end {
      assert FlatNode(n)[0].start <= p < FlatNode(n)[0].end;
    }
  }

  /**
    On success every token holds the text of its kind, and every character of the text that is in no string
    and no primitive is a bracket, a quote or a blank.
   */
  lemma TokensHoldTheText(js: string, nodes: seq<Node>)
    requires Read(js, 0, Top([])) == Outcome(Success, Top(nodes))
    ensures forall i :: 0 <= i < |Flat(nodes)| ==> TokenText(js, Flat(nodes)[i])
    ensures forall p: nat :: p < |js| ==> Structural(js[p]) || InText(Flat(nodes), p)
  {
    AcceptsWhatIsSpelled(js, nodes);
    SpelledTokens(js, nodes, 0, |js|);
    forall p: nat | p < |js| ensures Structural(js[p]) || InText(Flat(nodes), p) {
      OutsideIsStructure(js, nodes, 0, |js|, p);
    }
  }
}
