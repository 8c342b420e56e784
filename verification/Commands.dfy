/** The commands of src/cmd.c: registered in a tree under their names, looked up and run by requests. */
module Commands {
  import opened Options
  import opened Bytes
  import opened TernaryTree
  import opened Values

  /** co_obj_data: the data field of an object that has one. */
  function DataOf(v: Value): Option<seq<byte>> {
    match v
    case Float32(bits) => Some(bits)
    case Float64(bits) => Some(bits)
    case UInt(log, u) => Some(ToBytes(u, Width(log)))
    case Int(log, i) => Some(ToBytes(Unsigned(i, Width(log)), Width(log)))
    case Str(_, text) => Some(text)
    case Bin(_, data) => Some(data)
    case _ => None
  }

  /** It is what the byte form of the object ends with, behind the type byte and, if there is one, the length. */
  lemma DataIsEncoded(v: Value)
    ensures DataOf(v).None? <==> v.Nil? || v.Bool? || v.List? || v.Dict?
    ensures DataOf(v).Some? ==>
      Encode(v)[1 + (if v.Str? || v.Bin? then Width(v.len) else 0)..] == DataOf(v).value
  {
    match v
    case Str(len, text) => assert Encode(v)[1 + Width(len)..] == text;
    case Bin(len, data) => assert Encode(v)[1 + Width(len)..] == data;
    case _ =>
  }

  /** What a command returns, and the object it leaves in its output parameter. */
  datatype Outcome = Outcome(ok: bool, output: Option<Value>)

  /** co_cmd_exec: commands are registered under their names without the final NUL. */
  function Execute<C>(cmds: Tree<C>, exec: (C, Value) -> Outcome, name: Value, params: Value): Outcome {
    match DataOf(name)
    case None => Outcome(false, None)
    case Some(k) =>
      if k == [] then Outcome(false, None)
      else match Lookup(cmds, k[..|k| - 1])
        case None => Outcome(false, None)
        case Some(c) => exec(c, params)
  }

  /** co_cmd_register: a name is taken without its NUL, and refused where co_tree_insert refuses it. */
  function Register<C>(cmds: Tree<C>, name: Key, c: C): Tree<C> {
    if 1 <= |name| < 255 && !HasPath(cmds, name) then Insert(cmds, name, name, c) else cmds
  }

  /** The commands after these registrations, the first one first. */
  function Registry<C>(cs: seq<(Key, C)>): Tree<C> {
    if cs == [] then Empty else Register(Registry(cs[..|cs| - 1]), cs[|cs| - 1].0, cs[|cs| - 1].1)
  }

  /** A request names a command by a C string, whatever the width of its string object. */
  lemma NamedCommandRuns<C>(cmds: Tree<C>, exec: (C, Value) -> Outcome, len: Log, k: Key, name: seq<byte>,
                            params: Value)
    requires Ordered(cmds) && k != [] && name == k + [0]
    ensures Execute(cmds, exec, Str(len, name), params)
         == if k in Map(cmds) then exec(Map(cmds)[k], params) else Outcome(false, None)
  {
    assert name[..|name| - 1] == k;
    MapIsLookup(cmds, k);
  }

  /** An object without data, or with empty data, names no command. */
  lemma NamelessFails<C>(cmds: Tree<C>, exec: (C, Value) -> Outcome, name: Value, params: Value)
    requires name.Nil? || name.Bool? || name.List? || name.Dict? || (name.Str? && name.text == [])
    ensures Execute(cmds, exec, name, params) == Outcome(false, None)
  {
  }

  /** One more command is found under its name; the others run as before. */
  lemma InsertedCommandRuns<C>(cmds: Tree<C>, exec: (C, Value) -> Outcome, k: Key, c: C, len: Log, j: Key,
                               name: seq<byte>, params: Value)
    requires k != [] && j != [] && name == j + [0]
    ensures Execute(Insert(cmds, k, k, c), exec, Str(len, name), params)
         == if j == k then exec(c, params) else Execute(cmds, exec, Str(len, name), params)
  {
    assert name[..|name| - 1] == j;
    LookupInsert(cmds, k, k, c, j);
  }

  /** A registered command is never replaced, and nothing else comes under its name. */
  lemma {:induction false} RegisteredStays<C>(cs: seq<(Key, C)>, more: seq<(Key, C)>, k: Key)
    requires k != [] && HasPath(Registry(cs), k)
    ensures HasPath(Registry(cs + more), k) && Lookup(Registry(cs + more), k) == Lookup(Registry(cs), k)
    decreases |more|
  {
    if more == [] {
      assert cs + more == cs;
    } else {
      var front, last := more[..|more| - 1], more[|more| - 1];
      RegisteredStays(cs, front, k);
      assert (cs + more)[..|cs + more| - 1] == cs + front;
      var t := Registry(cs + front);
      if 1 <= |last.0| < 255 && !HasPath(t, last.0) {
        LookupInsert(t, last.0, last.0, last.1, k);
        PathInsert(t, last.0, last.0, last.1, k);
      }
    }
  }

  /** There is a path for a name only if it was registered, or is a prefix of a name that was. */
  lemma {:induction false} PathsAreNames<C>(cs: seq<(Key, C)>, k: Key)
    requires k != [] && forall j :: 0 <= j < |cs| ==> !(k <= cs[j].0)
    ensures !HasPath(Registry(cs), k)
    decreases |cs|
  {
    if cs != [] {
      var front, last := cs[..|cs| - 1], cs[|cs| - 1];
      PathsAreNames(front, k);
      if last.0 != [] { PathInsert(Registry(front), last.0, last.0, last.1, k); }
    }
  }

  lemma {:induction false} UnregisteredIsUnbound<C>(cs: seq<(Key, C)>, k: Key)
    requires k != [] && forall j :: 0 <= j < |cs| ==> cs[j].0 != k
    ensures Lookup(Registry(cs), k) == None
    decreases |cs|
  {
    if cs != [] {
      var front, last := cs[..|cs| - 1], cs[|cs| - 1];
      UnregisteredIsUnbound(front, k);
      if last.0 != [] { LookupInsert(Registry(front), last.0, last.0, last.1, k); }
    }
  }

  /**
    After any registrations, a request for a name runs the first command that was registered under it, whatever
    was registered later, if no name registered before begins with it.
   */
  lemma FirstRegistrationRuns<C>(cs: seq<(Key, C)>, i: nat, exec: (C, Value) -> Outcome, len: Log, name: seq<byte>,
                                 params: Value)
    requires i < |cs| && 1 <= |cs[i].0| < 255 && name == cs[i].0 + [0]
    requires forall j :: 0 <= j < i ==> !(cs[i].0 <= cs[j].0)
    ensures Execute(Registry(cs), exec, Str(len, name), params) == exec(cs[i].1, params)
  {
    var k, c, before := cs[i].0, cs[i].1, cs[..i];
    assert name[..|name| - 1] == k;
    PathsAreNames(before, k);
    assert cs[..i + 1][..i] == before;
    LookupInsert(Registry(before), k, k, c, k);
    PathInsert(Registry(before), k, k, c, k);
    assert cs == cs[..i + 1] + cs[i + 1..];
    RegisteredStays(cs[..i + 1], cs[i + 1..], k);
  }

  /** A request for a name that was never registered fails without an output. */
  lemma UnregisteredFails<C>(cs: seq<(Key, C)>, exec: (C, Value) -> Outcome, len: Log, k: Key, name: seq<byte>,
                             params: Value)
    requires k != [] && name == k + [0] && forall j :: 0 <= j < |cs| ==> cs[j].0 != k
    ensures Execute(Registry(cs), exec, Str(len, name), params) == Outcome(false, None)
  {
    assert name[..|name| - 1] == k;
    UnregisteredIsUnbound(cs, k);
  }
}
