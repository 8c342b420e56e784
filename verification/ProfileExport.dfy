/** co_profile_export_file as the text it writes, and what the importer makes of that text. */
module ProfileExport {
  import opened Bytes
  import opened Values
  import opened TernaryTree
  import opened TreeObject
  import opened CoTree
  import opened Sequences

  /** What a `%s` conversion prints: the characters before the NUL. */
  function Printed(k: seq<int>): string {
    if k == [] || k[0] == 0 then ""
    else [(k[0] % 256) as char] + Printed(k[1..])
  }

  function Text(v: Value): seq<byte> {
    if v.Str? then v.text else []
  }

  function Quoted(k: string, v: string, more: bool): (line: string)
    ensures |line| == |k| + |v| + (if more then 10 else 9)
  {
    "  \"" + k + "\": \"" + v + (if more then "\",\n" else "\"\n")
  }

  type Setting = (string, string)

  function Lines(ps: seq<Setting>, count: nat, len: nat): string
    decreases |ps|, 0
  {
    if ps == [] then "" else LinesFrom(ps, count, len)
  }

  /** The comma is left out once the count reaches the length the tree claims to have. */
  function LinesFrom(ps: seq<Setting>, count: nat, len: nat): string
    requires ps != []
    decreases |ps|, -1
  {
    Quoted(ps[0].0, ps[0].1, count + 1 < len) + Lines(ps[1..], count + 1, len)
  }

  lemma {:induction false} LinesConcat(x: seq<Setting>, y: seq<Setting>, count: nat, len: nat)
    ensures Lines(x + y, count, len) == Lines(x, count, len) + Lines(y, count + |x|, len)
    decreases |x|
  {
    if x == [] {
      assert x + y == y;
    } else {
      assert (x + y)[1..] == x[1..] + y;
      LinesConcat(x[1..], y, count + 1, len);
      var line := Quoted(x[0].0, x[0].1, count + 1 < len);
      assert LinesFrom(x + y, count, len) == line + Lines(x[1..] + y, count + 1, len);
      assert LinesFrom(x, count, len) == line + Lines(x[1..], count + 1, len);
      Reassociate(line, Lines(x[1..], count + 1, len), Lines(y, count + |x|, len));
    }
  }

  /** Profiles hold strings only. */
  predicate AllStrings(t: Tree<Value>) {
    t.Node? ==>
      && AllStrings(t.low) && AllStrings(t.equal) && AllStrings(t.high)
      && (t.value.Some? ==> t.value.value.Str? && t.key.Some?)
  }

  function Own(t: Tree<Value>): seq<Setting>
    requires t.Node?
  {
    if t.value.Some? && t.key.Some? then [(Printed(t.key.value), Printed(Text(t.value.value)))] else []
  }

  /** The settings in the order of the visit: the node's own, then those of its low, equal and high subtrees. */
  function Settings(t: Tree<Value>): seq<Setting> {
    if t.Empty? then [] else Own(t) + (Settings(t.low) + Settings(t.equal) + Settings(t.high))
  }

  lemma OwnLine(t: Tree<Value>, count: nat, len: nat)
    requires t.Node? && t.value.Some? && t.key.Some?
    ensures Lines(Own(t), count, len) == Quoted(Own(t)[0].0, Own(t)[0].1, count + 1 < len)
  {
    assert Own(t)[1..] == [];
    assert LinesFrom(Own(t), count, len) == Quoted(Own(t)[0].0, Own(t)[0].1, count + 1 < len) + "";
  }

  datatype Output = Output(count: nat, file: string)

  /** `out` and the lines of `ps` behind it. */
  function Written(out: Output, ps: seq<Setting>, len: nat): Output {
    Output(out.count + |ps|, out.file + Lines(ps, out.count, len))
  }

  lemma WrittenTogether(out: Output, x: seq<Setting>, y: seq<Setting>, len: nat)
    ensures Written(Written(out, x, len), y, len) == Written(out, x + y, len)
  {
    LinesConcat(x, y, out.count, len);
    Reassociate(out.file, Lines(x, out.count, len), Lines(y, out.count + |x|, len));
  }

  lemma FourWritten(out: Output, o: seq<Setting>, l: seq<Setting>, e: seq<Setting>, h: seq<Setting>, len: nat)
    ensures Written(Written(Written(Written(out, o, len), l, len), e, len), h, len)
         == Written(out, o + (l + e + h), len)
  {
    WrittenTogether(Written(out, o, len), l, e, len);
    WrittenTogether(Written(out, o, len), l + e, h, len);
    WrittenTogether(out, o, l + e + h, len);
  }

  /** The file and the count after the visit of a tree: node, low, equal, high. */
  function Visited(t: Tree<Value>, len: nat, out: Output): Output
    requires AllStrings(t)
  {
    if t.Empty? then out
    else Visited(t.high, len, Visited(t.equal, len, Visited(t.low, len, OwnOutput(t, len, out))))
  }

  function OwnOutput(t: Tree<Value>, len: nat, out: Output): (r: Output)
    requires t.Node? && AllStrings(t)
    ensures r == Written(out, Own(t), len)
  {
    if t.value.None? then
      assert out.file + "" == out.file;
      out
    else
      OwnLine(t, out.count, len);
      Output(out.count + 1,
             out.file + Quoted(Printed(t.key.value), Printed(Text(t.value.value)), out.count + 1 < len))
  }

  lemma {:induction false} VisitWritesLines(t: Tree<Value>, len: nat, out: Output)
    requires AllStrings(t)
    ensures Visited(t, len, out) == Written(out, Settings(t), len)
  {
    if t.Empty? {
      assert out.file + "" == out.file;
    } else {
      var own := OwnOutput(t, len, out);
      var low := Visited(t.low, len, own);
      VisitWritesLines(t.low, len, own);
      VisitWritesLines(t.equal, len, low);
      VisitWritesLines(t.high, len, Visited(t.equal, len, low));
      FourWritten(out, Own(t), Settings(t.low), Settings(t.equal), Settings(t.high), len);
    }
  }

  /** The nodes from `node` down stand for `t`. */
  ghost predicate Stands(node: TreeNode?<Value>, t: Tree<Value>)
    reads node, ReprOf(node)
  {
    if node == null then t.Empty? else node.Valid() && node.Shape() == t
  }

  /** The output after the visit of a tree; a name that keeps the recursive definition folded. */
  function After(t: Tree<Value>, len: nat, out: Output): Output
    requires AllStrings(t)
  {
    Visited(t, len, out)
  }

  lemma AfterNode(t: Tree<Value>, len: nat, out: Output)
    requires AllStrings(t) && t.Node?
    ensures AllStrings(t.low) && AllStrings(t.equal) && AllStrings(t.high)
    ensures t.value.None? ==> OwnOutput(t, len, out) == out
    ensures After(t, len, out) ==
            After(t.high, len, After(t.equal, len, After(t.low, len, OwnOutput(t, len, out))))
  {
  }

  lemma ChildrenStand(node: TreeNode<Value>, t: Tree<Value>)
    requires Stands(node, t)
    ensures Stands(node.low, t.low) && Stands(node.equal, t.equal) && Stands(node.high, t.high)
  {
  }

  /** _co_profile_export_file_r */
  method ExportR(node: TreeNode?<Value>, len: nat, out: Output, ghost t: Tree<Value>) returns (out': Output)
    requires Stands(node, t) && AllStrings(t)
    ensures out' == After(t, len, out)
    decreases t
  {
    out' := out;
    if node == null {
      return;
    }
    AfterNode(t, len, out);
    ChildrenStand(node, t);
    if node.value.Some? {
      var more := out'.count + 1 < len;
      var key, value := Printed(node.key.value), Printed(Text(node.value.value));
      out' := Output(out'.count + 1, out'.file + Quoted(key, value, more));
    }
    out' := ExportR(node.low, len, out', t.low);
    out' := ExportR(node.equal, len, out', t.equal);
    out' := ExportR(node.high, len, out', t.high);
  }

  function ExportText(t: Tree<Value>, len: nat): string {
    "{\n" + Lines(Settings(t), 0, len) + "}"
  }

  /** co_profile_export_file */
  method Export(data: CoTree<Value>) returns (file: string)
    requires data.Valid() && AllStrings(data.Shape())
    ensures file == ExportText(data.Shape(), data.len)
  {
    file := "{\n";
    var out := ExportR(data.root, data.len, Output(0, file), data.Shape());
    VisitWritesLines(data.Shape(), data.len, Output(0, file));
    file := out.file + "}";
  }
}
