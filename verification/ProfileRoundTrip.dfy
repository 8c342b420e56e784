/** A profile exported as text and imported again. */
module ProfileRoundTrip {
  import opened Options
  import opened Bytes
  import opened Values
  import opened TernaryTree
  import opened JsonScan
  import opened JsonForest
  import opened JsonParse
  import opened JsonText
  import opened JsonWalk
  import opened Profile
  import opened ProfileExport

  /** A C string with its NUL. */
  predicate PlainText(k: seq<int>) {
    k != [] && k[|k| - 1] == 0 && forall i :: 0 <= i < |k| - 1 ==> 0 < k[i] < 256
  }

  predicate PlainSetting(k: Key, v: Value) {
    PlainText(k) && |k| > 1 && v.Str? && v.len < 3 && PlainText(v.text) && |v.text| < Pow256(Width(v.len))
  }

  /** Of characters that are bytes. */
  predicate Narrow(s: string) {
    forall i :: 0 <= i < |s| ==> s[i] < 256 as char
  }

  lemma {:induction false} PrintedReadsBack(k: seq<int>)
    requires PlainText(k)
    ensures Codes(Printed(k)) + [0] == k
  {
    if |k| == 1 {
      assert k == [0];
      assert Codes("") == [];
    } else {
      PrintedReadsBack(k[1..]);
      assert Printed(k) == [k[0] as char] + Printed(k[1..]);
      assert Codes(Printed(k)) == [k[0]] + Codes(Printed(k[1..]));
      assert k == [k[0]] + k[1..];
    }
  }

  /** Plain texts are those that print whole. */
  lemma {:induction false} PlainIsPrintedWhole(k: seq<int>)
    ensures PlainText(k) <==> Codes(Printed(k)) + [0] == k
    decreases |k|
  {
    if PlainText(k) { PrintedReadsBack(k); }
    if Codes(Printed(k)) + [0] == k { WholeIsPlain(k); }
  }

  lemma {:induction false} WholeIsPlain(k: seq<int>)
    requires Codes(Printed(k)) + [0] == k
    ensures PlainText(k)
    decreases |k|
  {
    if Printed(k) != "" {
      var rest := Printed(k[1..]);
      assert Printed(k) == [(k[0] % 256) as char] + rest;
      assert Codes(Printed(k)) == [k[0] % 256] + Codes(rest);
      assert k[1..] == Codes(rest) + [0];
      WholeIsPlain(k[1..]);
    } else {
      assert k == [0];
    }
  }

  lemma {:induction false} PrintedIsNarrow(k: seq<int>)
    ensures Narrow(Printed(k))
    decreases |k|
  {
    if k != [] { PrintedIsNarrow(k[1..]); }
  }

  // ---------------------------------------------------------------- one line

  function KeyLeaf(pos: nat, k: string): Node {
    Leaf(String, pos + 3, pos + 3 + |k|)
  }

  function ValueLeaf(pos: nat, k: string, v: string): Node {
    Leaf(String, pos + 7 + |k|, pos + 7 + |k| + |v|)
  }

  lemma QuotedChars(k: string, v: string, more: bool)
    ensures var line, i, j := Quoted(k, v, more), 3 + |k|, 7 + |k| + |v|;
      && line[0] == ' ' && line[1] == ' ' && line[2] == '"' && line[3..i] == k
      && line[i] == '"' && line[i + 1] == ':' && line[i + 2] == ' ' && line[i + 3] == '"' && line[i + 4..j] == v
      && line[j] == '"' && (more ==> line[j + 1] == ',' && line[j + 2] == '\n') && (!more ==> line[j + 1] == '\n')
  {
    var line := Quoted(k, v, more);
    var front := "  \"" + k;
    var middle := front + "\": \"";
    assert line == middle + v + (if more then "\",\n" else "\"\n");
    assert line[..|front|] == front;
    assert line[..|middle|] == middle;
    assert front[3..] == k;
  }

  /** Two blanks and a string: the beginning of a line, and the end of its pair. */
  lemma BlanksAndString(js: string, pos: nat, z: Zip, s: string)
    requires pos + 3 + |s| < |js| && IsBlank(js[pos]) && IsBlank(js[pos + 1]) && js[pos + 2] == '"'
    requires js[pos + 3..pos + 3 + |s|] == s && js[pos + 3 + |s|] == '"' && Quotable(s)
    ensures Read(js, pos, z) == Read(js, pos + 4 + |s|, Add(z, Leaf(String, pos + 3, pos + 3 + |s|)))
  {
    SkipBlank(js, pos, z);
    SkipBlank(js, pos + 1, z);
    ReadQuoted(js, pos + 2, z, s);
  }

  lemma LineEnd(js: string, pos: nat, z: Zip, more: bool)
    requires pos + (if more then 2 else 1) <= |js|
    requires if more then js[pos] == ',' && js[pos + 1] == '\n' else js[pos] == '\n'
    ensures Read(js, pos, z) == Read(js, pos + (if more then 2 else 1), z)
  {
    SkipBlank(js, pos, z);
    if more { SkipBlank(js, pos + 1, z); }
  }

  lemma SliceAt(js: string, pos: nat, line: string, i: nat, j: nat)
    requires pos + |line| <= |js| && js[pos..pos + |line|] == line && i <= j <= |line|
    ensures js[pos + i..pos + j] == line[i..j]
  {
    var part := js[pos + i..pos + j];
    forall n | 0 <= n < j - i ensures part[n] == line[i..j][n] {
      assert part[n] == js[pos + (i + n)] == js[pos..pos + |line|][i + n];
    }
    assert part == line[i..j];
  }

  /** The characters of a line where they stand in the text. */
  lemma LineChars(js: string, pos: nat, k: string, v: string, more: bool)
    requires var line := Quoted(k, v, more); pos + |line| <= |js| && js[pos..pos + |line|] == line
    ensures var i, j := pos + 3 + |k|, pos + 7 + |k| + |v|;
      && j + (if more then 3 else 2) <= |js|
      && js[pos] == ' ' && js[pos + 1] == ' ' && js[pos + 2] == '"' && js[pos + 3..i] == k
      && js[i] == '"' && js[i + 1] == ':' && js[i + 2] == ' ' && js[i + 3] == '"' && js[i + 4..j] == v && js[j] == '"'
      && (if more then js[j + 1] == ',' && js[j + 2] == '\n' else js[j + 1] == '\n')
  {
    var line := Quoted(k, v, more);
    QuotedChars(k, v, more);
    forall n | 0 <= n < |line| ensures js[pos + n] == line[n] {
      assert js[pos..pos + |line|][n] == js[pos + n];
    }
    SliceAt(js, pos, line, 3, 3 + |k|);
    SliceAt(js, pos, line, 7 + |k|, 7 + |k| + |v|);
  }

  /** Characters that stand like this are read as two strings. */
  lemma CharsAreRead(js: string, pos: nat, z: Zip, k: string, v: string, more: bool)
    requires Quotable(k) && Quotable(v)
    requires var i, j := pos + 3 + |k|, pos + 7 + |k| + |v|;
      && j + (if more then 3 else 2) <= |js|
      && js[pos] == ' ' && js[pos + 1] == ' ' && js[pos + 2] == '"' && js[pos + 3..i] == k
      && js[i] == '"' && js[i + 1] == ':' && js[i + 2] == ' ' && js[i + 3] == '"' && js[i + 4..j] == v && js[j] == '"'
      && (if more then js[j + 1] == ',' && js[j + 2] == '\n' else js[j + 1] == '\n')
    ensures Read(js, pos, z) == Read(js, pos + |k| + |v| + (if more then 10 else 9),
                                     Add(Add(z, KeyLeaf(pos, k)), ValueLeaf(pos, k, v)))
  {
    var at := pos + 4 + |k|;
    var keyed := Add(z, KeyLeaf(pos, k));
    BlanksAndString(js, pos, z, k);
    ValueIsRead(js, at, keyed, v, more);
    assert ValueLeaf(pos, k, v) == Leaf(String, at + 3, at + 3 + |v|);
  }

  lemma ValueIsRead(js: string, at: nat, z: Zip, v: string, more: bool)
    requires Quotable(v) && at + 3 + |v| + (if more then 3 else 2) <= |js|
    requires js[at] == ':' && js[at + 1] == ' ' && js[at + 2] == '"' && js[at + 3..at + 3 + |v|] == v
    requires js[at + 3 + |v|] == '"'
    requires if more then js[at + 4 + |v|] == ',' && js[at + 5 + |v|] == '\n' else js[at + 4 + |v|] == '\n'
    ensures Read(js, at, z)
         == Read(js, at + |v| + (if more then 6 else 5), Add(z, Leaf(String, at + 3, at + 3 + |v|)))
  {
    BlanksAndString(js, at, z, v);
    LineEnd(js, at + 4 + |v|, Add(z, Leaf(String, at + 3, at + 3 + |v|)), more);
  }

  lemma LineIsRead(js: string, pos: nat, z: Zip, k: string, v: string, more: bool)
    requires var line := Quoted(k, v, more); pos + |line| <= |js| && js[pos..pos + |line|] == line
    requires Quotable(k) && Quotable(v)
    ensures pos + 7 + |k| + |v| <= |js|
    ensures js[pos + 3..pos + 3 + |k|] == k && js[pos + 7 + |k|..pos + 7 + |k| + |v|] == v
    ensures Read(js, pos, z)
         == Read(js, pos + |Quoted(k, v, more)|, Add(Add(z, KeyLeaf(pos, k)), ValueLeaf(pos, k, v)))
  {
    LineChars(js, pos, k, v, more);
    CharsAreRead(js, pos, z, k, v, more);
  }

  // ---------------------------------------------------------------- all lines

  predicate AllQuotable(ps: seq<Setting>) {
    ps == [] || (Quotable(ps[0].0) && ps[0].0 != "" && Quotable(ps[0].1) && AllQuotable(ps[1..]))
  }

  function LineSize(s: Setting, more: bool): nat {
    |s.0| + |s.1| + if more then 10 else 9
  }

  /** The children of the root object that the lines from `pos` on are read as. */
  function Kids(ps: seq<Setting>, count: nat, len: nat, pos: nat): (r: seq<Node>)
    ensures |r| == 2 * |ps|
  {
    if ps == [] then []
    else
      [KeyLeaf(pos, ps[0].0), ValueLeaf(pos, ps[0].0, ps[0].1)]
      + Kids(ps[1..], count + 1, len, pos + LineSize(ps[0], count + 1 < len))
  }

  /** The key and the text that a line stands for. */
  function Meant(s: Setting): Assignment {
    (Codes(s.0) + [0], Codes(s.1) + [0])
  }

  function Expected(ps: seq<Setting>): seq<Assignment> {
    if ps == [] then [] else [Meant(ps[0])] + Expected(ps[1..])
  }

  lemma AddTwoMore(z: Zip, a: Node, b: Node, more: seq<Node>)
    ensures AddAll(Add(Add(z, a), b), more) == AddAll(z, [a, b] + more)
  {
    assert z.kids + [a] + [b] + more == z.kids + ([a, b] + more);
  }

  lemma FirstPart(js: string, pos: nat, x: string, y: string)
    requires pos + |x + y| <= |js| && js[pos..pos + |x + y|] == x + y
    ensures js[pos..pos + |x|] == x && js[pos + |x|..pos + |x| + |y|] == y
  {
    var xy := js[pos..pos + |x + y|];
    assert js[pos..pos + |x|] == xy[..|x|];
    assert js[pos + |x|..pos + |x| + |y|] == xy[|x|..];
  }

  /** Where the first of several lines ends. */
  lemma LinesSplit(js: string, pos: nat, ps: seq<Setting>, count: nat, len: nat)
    requires ps != []
    requires var l := Lines(ps, count, len); pos + |l| <= |js| && js[pos..pos + |l|] == l
    ensures var line, rest := Quoted(ps[0].0, ps[0].1, count + 1 < len), Lines(ps[1..], count + 1, len);
      && |line| == LineSize(ps[0], count + 1 < len) && |Lines(ps, count, len)| == |line| + |rest|
      && js[pos..pos + |line|] == line && js[pos + |line|..pos + |line| + |rest|] == rest
  {
    var line, rest := Quoted(ps[0].0, ps[0].1, count + 1 < len), Lines(ps[1..], count + 1, len);
    assert LinesFrom(ps, count, len) == line + rest;
    FirstPart(js, pos, line, rest);
  }

  /** What the first line of several holds, and what is behind it. */
  lemma FirstLine(js: string, pos: nat, ps: seq<Setting>, count: nat, len: nat)
    requires ps != []
    requires var l := Lines(ps, count, len); pos + |l| <= |js| && js[pos..pos + |l|] == l
    ensures var k, v := ps[0].0, ps[0].1;
            var next := pos + LineSize(ps[0], count + 1 < len);
            var rest := Lines(ps[1..], count + 1, len);
      && pos + |Lines(ps, count, len)| == next + |rest| && js[next..next + |rest|] == rest
      && pos + 7 + |k| + |v| <= |js|
      && js[pos + 3..pos + 3 + |k|] == k && js[pos + 7 + |k|..pos + 7 + |k| + |v|] == v
  {
    LinesSplit(js, pos, ps, count, len);
    LineChars(js, pos, ps[0].0, ps[0].1, count + 1 < len);
  }

  lemma FirstLineRead(js: string, pos: nat, ps: seq<Setting>, count: nat, len: nat, z: Zip)
    requires ps != [] && AllQuotable(ps)
    requires var l := Lines(ps, count, len); pos + |l| <= |js| && js[pos..pos + |l|] == l
    ensures var k, v := ps[0].0, ps[0].1;
            var next := pos + LineSize(ps[0], count + 1 < len);
            next <= |js| && Read(js, pos, z) == Read(js, next, Add(Add(z, KeyLeaf(pos, k)), ValueLeaf(pos, k, v)))
  {
    LinesSplit(js, pos, ps, count, len);
    LineIsRead(js, pos, z, ps[0].0, ps[0].1, count + 1 < len);
  }

  lemma {:induction false} LinesAreRead(js: string, pos: nat, ps: seq<Setting>, count: nat, len: nat, z: Zip)
    requires AllQuotable(ps)
    requires var l := Lines(ps, count, len); pos + |l| <= |js| && js[pos..pos + |l|] == l
    ensures Read(js, pos, z)
         == Read(js, pos + |Lines(ps, count, len)|, AddAll(z, Kids(ps, count, len, pos)))
    decreases |ps|
  {
    if ps == [] {
      assert z.kids + [] == z.kids;
    } else {
      FirstLine(js, pos, ps, count, len);
      FirstLineRead(js, pos, ps, count, len, z);
      var next := pos + LineSize(ps[0], count + 1 < len);
      var a, b := KeyLeaf(pos, ps[0].0), ValueLeaf(pos, ps[0].0, ps[0].1);
      LinesAreRead(js, next, ps[1..], count + 1, len, Add(Add(z, a), b));
      AddTwoMore(z, a, b, Kids(ps[1..], count + 1, len, next));
    }
  }

  /** These children are what the lines from `pos` on are read as. */
  ghost predicate Stands(js: string, pos: nat, ps: seq<Setting>, count: nat, len: nat, kids: seq<Node>, i: nat) {
    && AllQuotable(ps)
    && pos + |Lines(ps, count, len)| <= |js|
    && js[pos..pos + |Lines(ps, count, len)|] == Lines(ps, count, len)
    && i <= |kids| && kids[i..] == Kids(ps, count, len, pos)
  }

  /** From the i-th on, the children are the strings of these settings. */
  predicate Holds(js: string, kids: seq<Node>, i: nat, ps: seq<Setting>)
    decreases |ps|
  {
    if ps == [] then i == |kids|
    else
      && i + 1 < |kids| && StringLeaf(kids[i]) && StringLeaf(kids[i + 1])
      && Slice(js, kids[i]) == ps[0].0 != "" && Slice(js, kids[i + 1]) == ps[0].1
      && Holds(js, kids, i + 2, ps[1..])
  }

  lemma KidsStep(js: string, pos: nat, ps: seq<Setting>, count: nat, len: nat, kids: seq<Node>, i: nat)
    requires ps != [] && Stands(js, pos, ps, count, len, kids, i)
    ensures Stands(js, pos + LineSize(ps[0], count + 1 < len), ps[1..], count + 1, len, kids, i + 2)
    ensures i + 1 < |kids| && StringLeaf(kids[i]) && StringLeaf(kids[i + 1])
    ensures Slice(js, kids[i]) == ps[0].0 != "" && Slice(js, kids[i + 1]) == ps[0].1
  {
    FirstLine(js, pos, ps, count, len);
    var k, v := ps[0].0, ps[0].1;
    var next := pos + LineSize(ps[0], count + 1 < len);
    KidsAt(kids, i, KeyLeaf(pos, k), ValueLeaf(pos, k, v), Kids(ps[1..], count + 1, len, next));
  }

  lemma {:induction false} KidsHold(js: string, pos: nat, ps: seq<Setting>, count: nat, len: nat,
                                    kids: seq<Node>, i: nat)
    requires Stands(js, pos, ps, count, len, kids, i)
    ensures Holds(js, kids, i, ps)
    decreases |ps|
  {
    if ps == [] {
      assert |kids[i..]| == 0;
    } else {
      KidsStep(js, pos, ps, count, len, kids, i);
      KidsHold(js, pos + LineSize(ps[0], count + 1 < len), ps[1..], count + 1, len, kids, i + 2);
    }
  }

  /** The importer makes of these children the assignments that were exported. */
  lemma {:induction false} KidsAssign(js: string, kids: seq<Node>, i: nat, ps: seq<Setting>)
    requires i <= |kids| && Holds(js, kids, i, ps)
    ensures InPairs(kids, i) && Assignments(js, kids, i) == Expected(ps)
    decreases |ps|
  {
    if ps != [] {
      KidsAssign(js, kids, i + 2, ps[1..]);
      InPairsStep(kids, i);
    }
  }

  lemma KidsAt(kids: seq<Node>, i: nat, a: Node, b: Node, more: seq<Node>)
    requires i <= |kids| && kids[i..] == [a, b] + more
    ensures i + 1 < |kids| && kids[i] == a && kids[i + 1] == b && kids[i + 2..] == more
  {
    assert kids[i] == kids[i..][0] && kids[i + 1] == kids[i..][1] && kids[i + 2..] == kids[i..][2..];
  }

  // ---------------------------------------------------------------- the settings and the map

  ghost predicate PlainTree(t: Tree<Value>, prefix: Key) {
    t.Node? ==>
      && PlainTree(t.low, prefix) && PlainTree(t.equal, prefix + [t.split]) && PlainTree(t.high, prefix)
      && (t.value.Some? ==> t.key == Some(prefix + [t.split]) && PlainSetting(prefix + [t.split], t.value.value))
  }

  ghost predicate Binds(m: map<Key, Value>, a: Assignment) {
    a.0 in m && m[a.0].Str? && m[a.0].text == a.1
  }

  lemma {:induction false} PlainTreesHoldStrings(t: Tree<Value>, prefix: Key)
    requires PlainTree(t, prefix)
    ensures AllStrings(t)
  {
    if t.Node? {
      PlainTreesHoldStrings(t.low, prefix);
      PlainTreesHoldStrings(t.equal, prefix + [t.split]);
      PlainTreesHoldStrings(t.high, prefix);
    }
  }

  lemma {:induction false} SettingsBind(t: Tree<Value>, prefix: Key, s: Setting)
    requires Ordered(t) && PlainTree(t, prefix) && s in Settings(t)
    ensures Binds(Bindings(t, prefix), Meant(s)) && Narrow(s.0) && Narrow(s.1) && s.0 != ""
  {
    var here := prefix + [t.split];
    if s in Own(t) {
      PrintedReadsBack(here);
      PrintedReadsBack(t.value.value.text);
      PrintedIsNarrow(here);
      PrintedIsNarrow(t.value.value.text);
      assert here[0] > 0 && Printed(here) != "";
      assert Bindings(t, prefix)[here] == t.value.value;
      assert s == (Printed(here), Printed(t.value.value.text));
    } else if s in Settings(t.low) {
      SettingsBind(t.low, prefix, s);
      BelowLow(t, prefix, Meant(s).0);
    } else if s in Settings(t.equal) {
      SettingsBind(t.equal, here, s);
      BelowEqual(t, prefix, Meant(s).0);
    } else {
      SettingsBind(t.high, prefix, s);
      BelowHigh(t, prefix, Meant(s).0);
    }
  }

  lemma BelowLow(t: Tree<Value>, prefix: Key, k: Key)
    requires t.Node? && Ordered(t) && k in Bindings(t.low, prefix)
    ensures k in Bindings(t, prefix) && Bindings(t, prefix)[k] == Bindings(t.low, prefix)[k]
  {
    var here := prefix + [t.split];
    BindingsBelowPrefix(t.low, prefix, k);
    assert here[|prefix|] == t.split && k[|prefix|] < t.split;
    assert k !in Bindings(t.equal, here) by {
      if k in Bindings(t.equal, here) { BindingsBelowPrefix(t.equal, here, k); }
    }
    assert k !in Bindings(t.high, prefix) by {
      if k in Bindings(t.high, prefix) { BindingsBelowPrefix(t.high, prefix, k); }
    }
  }

  lemma BelowEqual(t: Tree<Value>, prefix: Key, k: Key)
    requires t.Node? && Ordered(t) && k in Bindings(t.equal, prefix + [t.split])
    ensures k in Bindings(t, prefix) && Bindings(t, prefix)[k] == Bindings(t.equal, prefix + [t.split])[k]
  {
    var here := prefix + [t.split];
    BindingsBelowPrefix(t.equal, here, k);
    assert here[|prefix|] == t.split && k[|prefix|] == here[|prefix|];
    if k in Bindings(t.high, prefix) { BindingsBelowPrefix(t.high, prefix, k); }
  }

  lemma BelowHigh(t: Tree<Value>, prefix: Key, k: Key)
    requires t.Node? && Ordered(t) && k in Bindings(t.high, prefix)
    ensures k in Bindings(t, prefix) && Bindings(t, prefix)[k] == Bindings(t.high, prefix)[k]
  {
    BindingsBelowPrefix(t.high, prefix, k);
    assert (prefix + [t.split])[|prefix|] == t.split;
  }

  lemma {:induction false} BindingsAreSettings(t: Tree<Value>, prefix: Key, k: Key) returns (s: Setting)
    requires PlainTree(t, prefix) && k in Bindings(t, prefix)
    ensures s in Settings(t) && Meant(s).0 == k
  {
    var here := prefix + [t.split];
    if k == here && t.value.Some? {
      s := Own(t)[0];
      PrintedReadsBack(here);
    } else if k in Bindings(t.low, prefix) {
      s := BindingsAreSettings(t.low, prefix, k);
    } else if k in Bindings(t.equal, here) {
      s := BindingsAreSettings(t.equal, here, k);
    } else {
      s := BindingsAreSettings(t.high, prefix, k);
    }
  }

  // ---------------------------------------------------------------- the round trip

  lemma {:induction false} ExpectedAreMeant(ps: seq<Setting>)
    ensures forall a :: a in Expected(ps) ==> exists s :: s in ps && Meant(s) == a
    ensures forall s :: s in ps ==> Meant(s) in Expected(ps)
    decreases |ps|
  {
    if ps != [] {
      ExpectedAreMeant(ps[1..]);
      assert ps == [ps[0]] + ps[1..];
      assert Expected(ps)[0] == Meant(ps[0]);
    }
  }

  /** All assignments to a key agree, and there is one: that is what the last of them says. */
  lemma {:induction false} AgreedText(ps: seq<Assignment>, key: Key, v: Value, text: seq<byte>)
    requires TakesText(v, text) && forall a :: a in ps && a.0 == key ==> a.1 == text
    ensures LastFitting(ps, key, v) == if (key, text) in ps then Some(text) else None
    decreases |ps|
  {
    if ps != [] {
      var front, last := ps[..|ps| - 1], ps[|ps| - 1];
      assert ps == front + [last];
      AgreedText(front, key, v, text);
    }
  }

  /** Two profiles of one schema: the same keys, with strings of the same width. */
  ghost predicate SameSchema(m: map<Key, Value>, n: map<Key, Value>) {
    m.Keys == n.Keys && forall k :: k in m ==> m[k].Str? && n[k].Str? && m[k].len == n[k].len
  }

  lemma AssignmentsGiveMap(t: Tree<Value>, m: map<Key, Value>)
    requires Ordered(t) && PlainTree(t, []) && SameSchema(m, Map(t))
    ensures SetAll(m, Expected(Settings(t))) == Map(t)
  {
    var ps := Expected(Settings(t));
    var r := SetAll(m, ps);
    ImportKeepsSchema(m, ps);
    ExpectedAreMeant(Settings(t));
    forall k | k in m ensures r[k] == Map(t)[k] {
      var text := Map(t)[k].text;
      forall a | a in ps && a.0 == k ensures a.1 == text {
        var s :| s in Settings(t) && Meant(s) == a;
        SettingsBind(t, [], s);
      }
      var own := BindingsAreSettings(t, [], k);
      SettingsBind(t, [], own);
      BoundTextFits(t, [], k);
      AgreedText(ps, k, m[k], text);
      LastDuplicateWins(m, ps, k);
      assert Meant(own) == (k, text);
    }
  }

  lemma {:induction false} BoundTextFits(t: Tree<Value>, prefix: Key, k: Key)
    requires PlainTree(t, prefix) && k in Bindings(t, prefix)
    ensures var v := Bindings(t, prefix)[k]; v.Str? && TakesText(v, v.text)
  {
    var here := prefix + [t.split];
    if k in Bindings(t.low, prefix) { BoundTextFits(t.low, prefix, k); }
    if k in Bindings(t.equal, here) { BoundTextFits(t.equal, here, k); }
    if k in Bindings(t.high, prefix) { BoundTextFits(t.high, prefix, k); }
  }

  /** The exported text is accepted, as one object around the children of its lines. */
  lemma ExportIsRead(ps: seq<Setting>, len: nat)
    requires AllQuotable(ps)
    ensures var js := "{\n" + Lines(ps, 0, len) + "}";
            Read(js, 0, Top([])) == Outcome(Success, Top([Branch(Object, 0, |js| - 1, Kids(ps, 0, len, 2))]))
  {
    var l := Lines(ps, 0, len);
    var js := "{\n" + l + "}";
    assert js[2..2 + |l|] == l && js[0] == '{' && js[1] == '\n' && js[|js| - 1] == '}';
    var z := In(Top([]), Object, 0, []);
    assert Read(js, 0, Top([])) == Read(js, 1, z);
    SkipBlank(js, 1, z);
    LinesAreRead(js, 2, ps, 0, len, z);
    var kids := Kids(ps, 0, len, 2);
    assert AddAll(z, kids) == In(Top([]), Object, 0, kids);
    ClosingBrace(js, |js| - 1, kids);
  }

  lemma ClosingBrace(js: string, pos: nat, kids: seq<Node>)
    requires pos + 1 == |js| && js[pos] == '}'
    ensures Read(js, pos, In(Top([]), Object, 0, kids)) == Outcome(Success, Top([Branch(Object, 0, pos, kids)]))
  {
    assert Next(js, pos) == Took(Close(Object, pos), pos + 1);
    assert [] + [Branch(Object, 0, pos, kids)] == [Branch(Object, 0, pos, kids)];
    assert Read(js, pos + 1, Top([Branch(Object, 0, pos, kids)])).code == Success;
  }

  /** What importing a text does to a profile. */
  function Reimport(js: string, m: map<Key, Value>): Settled {
    var o := Read(js, 0, Top([]));
    if o.code == Success then ImportForest(js, o.zip.kids, m) else Settled(false, m)
  }

  /** The children of the exported object make the assignments that give the map. */
  lemma ExportSettles(t: Tree<Value>, len: nat, m: map<Key, Value>)
    requires Ordered(t) && PlainTree(t, []) && SameSchema(m, Map(t)) && AllQuotable(Settings(t))
    ensures var kids := Kids(Settings(t), 0, len, 2);
            |kids| % 2 == 0 && Settle(ExportText(t, len), kids, 0, m) == Settled(true, Map(t))
  {
    var js, ps := ExportText(t, len), Settings(t);
    var kids := Kids(ps, 0, len, 2);
    assert js[2..2 + |Lines(ps, 0, len)|] == Lines(ps, 0, len);
    assert kids[0..] == kids;
    KidsHold(js, 2, ps, 0, len, kids, 0);
    KidsAssign(js, kids, 0, ps);
    SettleNeedsStringPairs(js, kids, 0, m);
    SettleMakesAssignments(js, kids, 0, m);
    AssignmentsGiveMap(t, m);
  }

  // ---------------------------------------------------------------- what an import can have stored

  lemma {:induction false} WordsAreQuotable(js: string, pos: nat, start: nat, end: nat)
    requires pos <= |js| && Word(String, start, end) in Lex(js, pos).seen
    ensures start <= end <= |js| && Quotable(js[start..end])
    decreases |js| - pos
  {
    var r := Next(js, pos);
    if r.lexeme == Word(String, start, end) {
      ScannedIsQuotable(js, pos + 1);
    } else {
      WordsAreQuotable(js, r.next, start, end);
    }
  }

  lemma {:induction false} WrittenAmong(nodes: seq<Node>, i: nat, l: Lexeme)
    requires i < |nodes| && l in SerNode(nodes[i])
    ensures l in Ser(nodes)
    decreases |nodes|
  {
    if i < |nodes| - 1 { WrittenAmong(nodes[..|nodes| - 1], i, l); }
  }

  /** A string child of the root object is a scanned slice of the text. */
  lemma KidIsQuotable(js: string, nodes: seq<Node>, k: nat)
    requires Read(js, 0, Top([])) == Outcome(Success, Top(nodes)) && nodes != [] && nodes[0].Branch?
    requires k < |nodes[0].kids| && StringLeaf(nodes[0].kids[k])
    ensures var n := nodes[0].kids[k]; n.start <= n.end <= |js| && Quotable(Slice(js, n))
  {
    var n := nodes[0].kids[k];
    var word := Word(String, n.start, n.end);
    ReadAcceptsForests(js, nodes);
    assert word in SerNode(n);
    WrittenAmong(nodes[0].kids, k, word);
    WrittenAmong(nodes, 0, word);
    WordsAreQuotable(js, 0, n.start, n.end);
  }

  /** The pair of children at `k` makes this assignment. */
  ghost predicate Assigns(js: string, kids: seq<Node>, k: nat, a: Assignment) {
    && k + 1 < |kids| && StringLeaf(kids[k]) && StringLeaf(kids[k + 1])
    && a == (Terminated(js, kids[k]), Terminated(js, kids[k + 1]))
  }

  lemma FirstAssigned(js: string, kids: seq<Node>, i: nat, a: Assignment) returns (here: bool)
    requires i <= |kids| && a in Assignments(js, kids, i)
    ensures if here then Assigns(js, kids, i, a) else i + 2 <= |kids| && a in Assignments(js, kids, i + 2)
  {
    here := a !in Assignments(js, kids, i + 2);
  }

  /** Where an assignment comes from. */
  lemma {:induction false} AssignedAt(js: string, kids: seq<Node>, i: nat, a: Assignment) returns (k: nat)
    requires i <= |kids| && a in Assignments(js, kids, i)
    ensures Assigns(js, kids, k, a)
    decreases |kids| - i
  {
    var here := FirstAssigned(js, kids, i, a);
    if here {
      k := i;
    } else {
      k := AssignedAt(js, kids, i + 2, a);
    }
  }

  lemma {:induction false} LastFittingIsAssigned(ps: seq<Assignment>, key: Key, v: Value)
    requires LastFitting(ps, key, v).Some?
    ensures (key, LastFitting(ps, key, v).value) in ps
    decreases |ps|
  {
    if !(ps[|ps| - 1].0 == key && TakesText(v, ps[|ps| - 1].1)) { LastFittingIsAssigned(ps[..|ps| - 1], key, v); }
  }

  lemma {:induction false} LinesAreNarrow(ps: seq<Setting>, count: nat, len: nat)
    requires forall s :: s in ps ==> Narrow(s.0) && Narrow(s.1)
    ensures Narrow(Lines(ps, count, len))
    decreases |ps|
  {
    if ps != [] {
      LinesAreNarrow(ps[1..], count + 1, len);
      assert ps[0] in ps;
      assert Lines(ps, count, len) == LinesFrom(ps, count, len);
    }
  }

  lemma ExportIsNarrow(t: Tree<Value>, len: nat)
    requires Ordered(t) && PlainTree(t, [])
    ensures Narrow(ExportText(t, len))
  {
    forall s | s in Settings(t) ensures Narrow(s.0) && Narrow(s.1) {
      SettingsBind(t, [], s);
    }
    LinesAreNarrow(Settings(t), 0, len);
  }

  lemma SameCodes(s: string, s': string)
    requires Narrow(s) && Narrow(s') && Codes(s) + [0] == Codes(s') + [0]
    ensures s == s'
  {
    assert |Codes(s) + [0]| == |s| + 1 && |Codes(s') + [0]| == |s'| + 1;
    forall i | 0 <= i < |s| ensures s[i] == s'[i] {
      assert (Codes(s) + [0])[i] == s[i] as int && (Codes(s') + [0])[i] == s'[i] as int;
    }
  }

  /** A string child that stands for the bytes of a printed text is that text. */
  lemma KidIsPrinted(js: string, nodes: seq<Node>, k: nat, s: string)
    requires Read(js, 0, Top([])) == Outcome(Success, Top(nodes)) && nodes != [] && nodes[0].Branch?
    requires k < |nodes[0].kids| && StringLeaf(nodes[0].kids[k])
    requires Narrow(js) && Narrow(s) && Terminated(js, nodes[0].kids[k]) == Codes(s) + [0]
    ensures Quotable(s)
  {
    KidIsQuotable(js, nodes, k);
    SameCodes(Slice(js, nodes[0].kids[k]), s);
  }

  /** No setting of `m` is what it is in `n`. */
  ghost predicate AllDiffer(m: map<Key, Value>, n: map<Key, Value>) {
    forall k :: k in m && k in n ==> m[k] != n[k]
  }

  /** If an import sets a key to a text that it did not have, that text stood on the page. */
  lemma ChangeIsAssigned(m: map<Key, Value>, ps: seq<Assignment>, key: Key)
    requires key in m && key in SetAll(m, ps) && SetAll(m, ps)[key] != m[key]
    ensures SetAll(m, ps)[key].Str? && (key, SetAll(m, ps)[key].text) in ps
  {
    LastDuplicateWins(m, ps, key);
    LastFittingIsAssigned(ps, key, m[key]);
  }

  /** A text that is imported whole is an object, and its pairs are assigned. */
  lemma ImportedWhole(js: string, m: map<Key, Value>, n: map<Key, Value>) returns (nodes: seq<Node>)
    requires Reimport(js, m) == Settled(true, n)
    ensures Read(js, 0, Top([])) == Outcome(Success, Top(nodes)) && nodes != [] && nodes[0].Branch?
    ensures n == SetAll(m, Assignments(js, nodes[0].kids, 0))
  {
    nodes := Read(js, 0, Top([])).zip.kids;
    SuccessLeavesNothingOpen(js, 0, Top([]));
    OnwardIsSettle(js, nodes[0].kids, 0, m);
    SettleMakesAssignments(js, nodes[0].kids, 0, m);
  }

  lemma AssignedIsQuotable(js: string, nodes: seq<Node>, k: nat, s: Setting)
    requires Read(js, 0, Top([])) == Outcome(Success, Top(nodes)) && nodes != [] && nodes[0].Branch?
    requires Narrow(js) && Narrow(s.0) && Narrow(s.1) && Assigns(js, nodes[0].kids, k, Meant(s))
    ensures Quotable(s.0) && Quotable(s.1)
  {
    KidIsPrinted(js, nodes, k, s.0);
    KidIsPrinted(js, nodes, k + 1, s.1);
  }

  /** What comes back over a profile that differs everywhere was quotable. */
  lemma ComesBackIsQuotable(t: Tree<Value>, len: nat, m: map<Key, Value>, s: Setting)
    requires Ordered(t) && PlainTree(t, []) && SameSchema(m, Map(t)) && AllDiffer(m, Map(t)) && s in Settings(t)
    requires Reimport(ExportText(t, len), m) == Settled(true, Map(t))
    ensures Quotable(s.0) && Quotable(s.1)
  {
    var js := ExportText(t, len);
    var nodes := ImportedWhole(js, m, Map(t));
    SettingsBind(t, [], s);
    ExportIsNarrow(t, len);
    ChangeIsAssigned(m, Assignments(js, nodes[0].kids, 0), Meant(s).0);
    var k := AssignedAt(js, nodes[0].kids, 0, Meant(s));
    AssignedIsQuotable(js, nodes, k, s);
  }

  // ---------------------------------------------------------------- the round trip

  lemma {:induction false} EachQuotable(ps: seq<Setting>)
    requires forall s :: s in ps ==> Quotable(s.0) && s.0 != "" && Quotable(s.1)
    ensures AllQuotable(ps)
    decreases |ps|
  {
    if ps != [] {
      assert ps[0] in ps;
      EachQuotable(ps[1..]);
    }
  }

  /** Exporting a profile and importing the text into a profile of the same schema gives the same map. */
  lemma QuotableComesBack(t: Tree<Value>, len: nat, m: map<Key, Value>)
    requires Ordered(t) && PlainTree(t, []) && SameSchema(m, Map(t)) && AllQuotable(Settings(t))
    ensures Read(ExportText(t, len), 0, Top([])).code == Success
    ensures Reimport(ExportText(t, len), m) == Settled(true, Map(t))
  {
    ExportIsRead(Settings(t), len);
    ExportSettles(t, len, m);
    OnwardIsSettle(ExportText(t, len), Kids(Settings(t), 0, len, 2), 0, m);
  }

  /** It does if the scanner takes all its texts whole, and only then over one that differs everywhere. */
  lemma ProfileComesBack(t: Tree<Value>, len: nat, m: map<Key, Value>)
    requires Ordered(t) && PlainTree(t, []) && SameSchema(m, Map(t))
    ensures AllStrings(t)
    ensures AllQuotable(Settings(t)) ==> Reimport(ExportText(t, len), m) == Settled(true, Map(t))
    ensures AllDiffer(m, Map(t)) ==>
      (AllQuotable(Settings(t)) <==> Reimport(ExportText(t, len), m) == Settled(true, Map(t)))
  {
    PlainTreesHoldStrings(t, []);
    if AllQuotable(Settings(t)) {
      QuotableComesBack(t, len, m);
    } else if AllDiffer(m, Map(t)) && Reimport(ExportText(t, len), m) == Settled(true, Map(t)) {
      forall s | s in Settings(t) ensures Quotable(s.0) && s.0 != "" && Quotable(s.1) {
        SettingsBind(t, [], s);
        ComesBackIsQuotable(t, len, m, s);
      }
      EachQuotable(Settings(t));
    }
  }

  /** The same schema with other texts: the empty one, or "\1" where that is what is held. */
  function Altered(m: map<Key, Value>): map<Key, Value> {
    map k | k in m && m[k].Str? :: Str(m[k].len, if m[k].text == [0] then [1, 0] else [0])
  }

  /** Every import over the same schema gives the map if and only if the scanner takes all the texts whole. */
  lemma ProfileComesBackIffQuotable(t: Tree<Value>, len: nat)
    requires Ordered(t) && PlainTree(t, [])
    ensures AllQuotable(Settings(t)) <==>
      forall m :: SameSchema(m, Map(t)) ==> Reimport(ExportText(t, len), m) == Settled(true, Map(t))
  {
    if AllQuotable(Settings(t)) {
      forall m | SameSchema(m, Map(t)) ensures Reimport(ExportText(t, len), m) == Settled(true, Map(t)) {
        QuotableComesBack(t, len, m);
      }
    } else {
      var m := Altered(Map(t));
      forall k | k in Map(t) ensures Map(t)[k].Str? {
        BoundTextFits(t, [], k);
      }
      assert SameSchema(m, Map(t));
      ProfileComesBack(t, len, m);
    }
  }
}
