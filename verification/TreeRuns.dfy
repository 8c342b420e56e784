/**
  Whole runs of tree operations, from the empty tree: what the tree is after any
  sequence of them, and what its element counter then says.
 */
module TreeRuns {
  import opened Bytes
  import opened TernaryTree

  datatype Op<V> = Plain(key: Key, v: V) | Force(key: Key, v: V) | Remove(key: Key)

  datatype State<V> = State(tree: Tree<V>, len: nat)

  /** `_len += 1` and `_len += -1` on an unsigned field. */
  function Up(len: nat, wide: bool): nat {
    if len + 1 == Capacity(wide) then 0 else len + 1
  }

  function Down(len: nat, wide: bool): nat {
    if len == 0 then Capacity(wide) - 1 else len - 1
  }

  /** A plain insertion is refused when the search for its key ends at a node. */
  predicate Refused<V>(s: State<V>, op: Op<V>) {
    op.Plain? && HasPath(s.tree, op.key)
  }

  /** A deletion follows the path of its key, so the path has to exist. */
  predicate Allowed<V>(s: State<V>, op: Op<V>) {
    op.key != [] && (op.Remove? ==> HasPath(s.tree, op.key))
  }

  function Step<V>(s: State<V>, op: Op<V>, wide: bool): State<V>
    requires Allowed(s, op)
  {
    if Refused(s, op) then s
    else if op.Remove? then
      State(Delete(s.tree, op.key), if Lookup(s.tree, op.key).Some? then Down(s.len, wide) else s.len)
    else
      State(Insert(s.tree, op.key, op.key, op.v), Up(s.len, wide))
  }

  ghost predicate Legal<V>(s: State<V>, ops: seq<Op<V>>, wide: bool)
    decreases |ops|
  {
    ops != [] ==> Allowed(s, ops[0]) && Legal(Step(s, ops[0], wide), ops[1..], wide)
  }

  function Exec<V>(s: State<V>, ops: seq<Op<V>>, wide: bool): State<V>
    requires Legal(s, ops, wide)
    decreases |ops|
  {
    if ops == [] then s else Exec(Step(s, ops[0], wide), ops[1..], wide)
  }

  /** The same run on a finite map: refused insertions change nothing. */
  ghost function MapExec<V>(m: map<Key, V>, s: State<V>, ops: seq<Op<V>>, wide: bool): map<Key, V>
    requires Legal(s, ops, wide)
    decreases |ops|
  {
    if ops == [] then m else
      var m' := if Refused(s, ops[0]) then m
                else if ops[0].Remove? then m - {ops[0].key}
                else m[ops[0].key := ops[0].v];
      MapExec(m', Step(s, ops[0], wide), ops[1..], wide)
  }

  /** How often a forced insertion hit a key that was bound already. */
  function Overwrites<V>(s: State<V>, ops: seq<Op<V>>, wide: bool): nat
    requires Legal(s, ops, wide)
    decreases |ops|
  {
    if ops == [] then 0 else
      Hits(s, ops[0]) + Overwrites(Step(s, ops[0], wide), ops[1..], wide)
  }

  lemma StepRefinesMap<V>(s: State<V>, op: Op<V>, wide: bool)
    requires WellFormed(s.tree) && Allowed(s, op)
    ensures WellFormed(Step(s, op, wide).tree)
    ensures Map(Step(s, op, wide).tree) ==
            if Refused(s, op) then Map(s.tree)
            else if op.Remove? then Map(s.tree) - {op.key}
            else Map(s.tree)[op.key := op.v]
  {
    if op.Remove? {
      DeleteKeepsWellFormed(s.tree, op.key);
    } else if !Refused(s, op) {
      InsertKeepsWellFormed(s.tree, op.key, op.v);
    }
  }

  /** Every run of the tree is the run of a finite map, and keeps the tree's invariants. */
  lemma {:induction false} RunRefinesMap<V>(s: State<V>, ops: seq<Op<V>>, wide: bool)
    requires WellFormed(s.tree) && Legal(s, ops, wide)
    ensures WellFormed(Exec(s, ops, wide).tree)
    ensures Map(Exec(s, ops, wide).tree) == MapExec(Map(s.tree), s, ops, wide)
    decreases |ops|
  {
    if ops != [] {
      StepRefinesMap(s, ops[0], wide);
      RunRefinesMap(Step(s, ops[0], wide), ops[1..], wide);
    }
  }

  lemma PutSize<K, V>(m: map<K, V>, k: K, v: V)
    ensures |m[k := v]| == if k in m then |m| else |m| + 1
  {
    assert m[k := v].Keys == m.Keys + {k};
    assert |m[k := v]| == |m[k := v].Keys| && |m| == |m.Keys|;
  }

  lemma DropSize<K, V>(m: map<K, V>, k: K)
    ensures |m - {k}| == if k in m then |m| - 1 else |m|
  {
    assert (m - {k}).Keys == m.Keys - {k};
    assert |m - {k}| == |(m - {k}).Keys| && |m| == |m.Keys|;
  }

  /** How one operation moves the number of bound keys, an overwrite counting as one more. */
  function Growth<V>(s: State<V>, op: Op<V>): int {
    if Refused(s, op) then 0
    else if !op.Remove? then 1
    else if Lookup(s.tree, op.key).Some? then -1 else 0
  }

  function Hits<V>(s: State<V>, op: Op<V>): nat {
    if op.Force? && Lookup(s.tree, op.key).Some? then 1 else 0
  }

  lemma StepCounts<V>(s: State<V>, op: Op<V>, wide: bool)
    requires WellFormed(s.tree) && Allowed(s, op)
    ensures |Map(Step(s, op, wide).tree)| + Hits(s, op) == |Map(s.tree)| + Growth(s, op)
  {
    StepRefinesMap(s, op, wide);
    MapIsLookup(s.tree, op.key);
    if op.Remove? {
      DropSize(Map(s.tree), op.key);
    } else {
      PutSize(Map(s.tree), op.key, op.v);
    }
  }

  /** What the counter loses when one operation makes it wrap at the width of its field. */
  function Carry<V>(s: State<V>, op: Op<V>, wide: bool): int {
    if Growth(s, op) == 1 && s.len + 1 == Capacity(wide) then Capacity(wide)
    else if Growth(s, op) == -1 && s.len == 0 then 0 - Capacity(wide)
    else 0
  }

  function Wrapped<V>(s: State<V>, ops: seq<Op<V>>, wide: bool): int
    requires Legal(s, ops, wide)
    decreases |ops|
  {
    if ops == [] then 0 else
      Carry(s, ops[0], wide) + Wrapped(Step(s, ops[0], wide), ops[1..], wide)
  }

  lemma StepMovesCounter<V>(s: State<V>, op: Op<V>, wide: bool)
    requires Allowed(s, op) && s.len < Capacity(wide)
    ensures Step(s, op, wide).len == s.len + Growth(s, op) - Carry(s, op, wide) < Capacity(wide)
  {
  }

  lemma StepBalance<V>(s: State<V>, op: Op<V>, wide: bool)
    requires WellFormed(s.tree) && Allowed(s, op) && s.len < Capacity(wide)
    ensures var s' := Step(s, op, wide);
            && WellFormed(s'.tree) && s'.len < Capacity(wide)
            && s'.len - |Map(s'.tree)| == s.len - |Map(s.tree)| + Hits(s, op) - Carry(s, op, wide)
  {
    StepRefinesMap(s, op, wide);
    StepCounts(s, op, wide);
    StepMovesCounter(s, op, wide);
  }

  /** The counter is the number of bound keys plus the number of overwrites, as far as it has not wrapped. */
  lemma {:induction false} CounterCountsOverwritesToo<V>(s: State<V>, ops: seq<Op<V>>, wide: bool)
    requires WellFormed(s.tree) && Legal(s, ops, wide) && s.len < Capacity(wide)
    ensures var e := Exec(s, ops, wide);
            && WellFormed(e.tree) && e.len < Capacity(wide)
            && e.len - |Map(e.tree)| == s.len - |Map(s.tree)| + Overwrites(s, ops, wide) - Wrapped(s, ops, wide)
    decreases |ops|
  {
    if ops != [] {
      StepBalance(s, ops[0], wide);
      CounterCountsOverwritesToo(Step(s, ops[0], wide), ops[1..], wide);
    }
  }

  /** Short of 2^16 (2^32) insertions the counter is exact if and only if no forced insertion hit a bound key. */
  lemma {:induction false} CounterIsExactWithoutOverwrites<V>(s: State<V>, ops: seq<Op<V>>, wide: bool)
    requires WellFormed(s.tree) && Legal(s, ops, wide)
    requires |Map(s.tree)| <= s.len && s.len + |ops| < Capacity(wide)
    ensures Wrapped(s, ops, wide) == 0
    ensures var e := Exec(s, ops, wide);
            s.len == |Map(s.tree)| ==> (e.len == |Map(e.tree)| <==> Overwrites(s, ops, wide) == 0)
    decreases |ops|
  {
    CounterCountsOverwritesToo(s, ops, wide);
    if ops != [] {
      var s' := Step(s, ops[0], wide);
      StepBalance(s, ops[0], wide);
      assert Growth(s, ops[0]) == -1 ==> s.len > 0 by {
        StepCounts(s, ops[0], wide);
      }
      assert s'.len <= s.len + 1;
      CounterIsExactWithoutOverwrites(s', ops[1..], wide);
    }
  }

  /** Whatever was deleted since, a refused key is a prefix of a key that was inserted at some time. */
  lemma {:induction false} PathsComeFromInsertions<V>(s: State<V>, ops: seq<Op<V>>, wide: bool, key: Key)
    requires Legal(s, ops, wide) && key != [] && HasPath(Exec(s, ops, wide).tree, key)
    ensures HasPath(s.tree, key) || exists i :: 0 <= i < |ops| && !ops[i].Remove? && key <= ops[i].key
    decreases |ops|
  {
    if ops != [] {
      var op, s' := ops[0], Step(s, ops[0], wide);
      PathsComeFromInsertions(s', ops[1..], wide, key);
      if HasPath(s'.tree, key) && !Refused(s, op) {
        if op.Remove? {
          PathDelete(s.tree, op.key, key);
        } else {
          PathInsert(s.tree, op.key, op.key, op.v, key);
          assert HasPath(s.tree, key) || (!ops[0].Remove? && key <= ops[0].key);
        }
      } else if !HasPath(s'.tree, key) {
        var i :| 0 <= i < |ops[1..]| && !ops[1..][i].Remove? && key <= ops[1..][i].key;
        assert ops[1..][i] == ops[i + 1];
      }
    }
  }

  lemma {:induction false} PathDelete<V>(t: Tree<V>, key: Key, other: Key)
    requires key != [] && other != [] && HasPath(t, key) && HasPath(Delete(t, key), other)
    ensures HasPath(t, other)
    decreases |key|, t
  {
    if key[0] < t.split {
      if other[0] < t.split { PathDelete(t.low, key, other); }
    } else if key[0] > t.split {
      if other[0] > t.split { PathDelete(t.high, key, other); }
    } else if |key| > 1 {
      if other[0] == t.split && |other| > 1 { PathDelete(t.equal, key[1..], other[1..]); }
    }
  }

  /** Without deletions, a plain insertion is refused exactly for the prefixes of bound keys. */
  lemma {:induction false} RefusalWithoutDeletions<V>(s: State<V>, ops: seq<Op<V>>, wide: bool, key: Key)
    requires WellFormed(s.tree) && Tight(s.tree) && Legal(s, ops, wide) && key != []
    requires forall i :: 0 <= i < |ops| ==> !ops[i].Remove?
    ensures var t := Exec(s, ops, wide).tree;
            Tight(t) && (HasPath(t, key) <==> exists k :: k in Map(t) && key <= k)
    decreases |ops|
  {
    if ops == [] {
      RefusedExactlyPrefixes(s.tree, key);
    } else {
      StepRefinesMap(s, ops[0], wide);
      if !Refused(s, ops[0]) { InsertKeepsTight(s.tree, ops[0].key, ops[0].key, ops[0].v); }
      RefusalWithoutDeletions(Step(s, ops[0], wide), ops[1..], wide, key);
    }
  }
}
