/**
  What repeated calls of the walker enumerate: every stored key once, in increasing
  order, and exactly for which trees.
 */
module WalkOrder {
  import opened Options
  import opened TernaryTree
  import opened TreeWalk

  // ---------------------------------------------------------------- the keys in walking order

  /** The stored keys, a node before its low, equal and high subtrees. */
  function Keys<V>(t: Tree<V>): seq<Key>
    decreases t, 1
  {
    if t.Empty? then [] else (if t.key.Some? then [t.key.value] else []) + KeysBelow(t)
  }

  function KeysBelow<V>(t: Tree<V>): seq<Key>
    requires t.Node?
    decreases t, 0
  {
    Keys(t.low) + Keys(t.equal) + Keys(t.high)
  }

  function LaterKeys<V>(n: Tree<V>, d: Dir): seq<Key>
    requires n.Node?
  {
    match d case Low => Keys(n.equal) + Keys(n.high) case Equal => Keys(n.high) case High => []
  }

  /** The keys that come after the whole subtree at `p`. */
  function After<V>(t: Tree<V>, p: Path): seq<Key>
    requires IsPath(t, p)
  {
    if p == [] then [] else After(Child(t, p[0]), p[1..]) + LaterKeys(t, p[0])
  }

  /** The walk ends at the root, whose own key it then returns. */
  function FirstOr<V>(s: seq<Key>, t: Tree<V>): Option<Key>
    requires t.Node?
  {
    if s == [] then t.key else Some(s[0])
  }

  // ---------------------------------------------------------------- trees of NUL-terminated keys

  /**
    Keys end in NUL, which no other character is below, and are what the nodes store. A node may hold a
    key without a value: a deletion clears the value only.
   */
  ghost predicate NulShaped<V>(t: Tree<V>, prefix: Key) {
    t.Node? ==>
      && NulShaped(t.low, prefix) && NulShaped(t.equal, prefix + [t.split]) && NulShaped(t.high, prefix)
      && t.split >= 0
      && (t.key.Some? ==> t.split == 0 && t.low.Empty? && t.key.value == prefix + [t.split])
      && (t.value.Some? ==> t.key.Some?)
  }

  predicate CString(key: Key) {
    key != [] && key[|key| - 1] == 0 && forall i :: 0 <= i < |key| ==> key[i] >= 0
  }

  lemma {:induction false} InsertKeepsNulShape<V>(t: Tree<V>, prefix: Key, key: Key, v: V)
    requires Ordered(t) && NulShaped(t, prefix) && CString(key)
    ensures NulShaped(Insert(t, prefix + key, key, v), prefix)
    decreases |key|, t
  {
    if t.Node? && key[0] < t.split {
      InsertKeepsNulShape(t.low, prefix, key, v);
    } else if t.Node? && key[0] > t.split {
      InsertKeepsNulShape(t.high, prefix, key, v);
    } else if |key| > 1 {
      assert prefix + key == prefix + [key[0]] + key[1..];
      InsertKeepsNulShape(if t.Empty? then Empty else t.equal, prefix + [key[0]], key[1..], v);
    } else {
      assert key == [0];
      assert t.Node? && t.low.Node? ==> t.low.split in Heads(t.low);
    }
  }

  /** Bringing an earlier walk one step up the path. */
  lemma {:induction false} AfterStep<V>(t: Tree<V>, p: Path, d: Dir)
    requires IsPath(t, p) && Child(Sub(t, p), d).Node?
    ensures IsPath(t, p + [d])
    ensures After(t, p + [d]) == LaterKeys(Sub(t, p), d) + After(t, p)
  {
    Descend(t, p, d);
    if p == [] {
      assert (p + [d])[1..] == [];
      assert After(Child(t, d), []) == [];
    } else {
      assert (p + [d])[1..] == p[1..] + [d];
      AfterStep(Child(t, p[0]), p[1..], d);
    }
  }

  /** The keys of the subtree at a node that are still ahead of the walker there. */
  function Here<V>(n: Tree<V>, from: From): seq<Key>
    requires n.Node?
  {
    match from
    case Start => KeysBelow(n)
    case Above => Keys(n)
    case Below(d) => LaterKeys(n, d)
  }

  function Ahead<V>(t: Tree<V>, p: Path, from: From): seq<Key>
    requires IsPath(t, p)
  {
    Here(Sub(t, p), from) + After(t, p)
  }

  lemma HereSplits<V>(n: Tree<V>, from: From)
    requires n.Node? && (from.Above? ==> n.key.None?)
    ensures Here(n, from) == match NextChild(n, from)
              case Some(d) => Keys(Child(n, d)) + LaterKeys(n, d)
              case None => []
  {
    Regroup(Keys(n.low), Keys(n.equal), Keys(n.high));
    if from.Above? { assert Here(n, from) == KeysBelow(n); }
  }

  lemma Regroup(l: seq<Key>, e: seq<Key>, h: seq<Key>)
    ensures l + e + h == l + (e + h)
    ensures l == [] ==> l + e + h == e + h
    ensures e == [] ==> e + h == h
    ensures h == [] ==> e + h == e
  {
  }

  lemma AheadDown<V>(t: Tree<V>, p: Path, from: From, d: Dir)
    requires IsPath(t, p) && NextChild(Sub(t, p), from) == Some(d)
    requires from.Above? ==> Sub(t, p).key.None?
    ensures IsPath(t, p + [d]) && Ahead(t, p + [d], Above) == Ahead(t, p, from)
  {
    Descend(t, p, d);
    AfterStep(t, p, d);
    HereSplits(Sub(t, p), from);
    Regroup(Keys(Child(Sub(t, p), d)), LaterKeys(Sub(t, p), d), After(t, p));
  }

  lemma AheadUp<V>(t: Tree<V>, p: Path, from: From)
    requires IsPath(t, p) && p != [] && NextChild(Sub(t, p), from) == None
    requires from.Above? ==> Sub(t, p).key.None?
    ensures var q := p[..|p| - 1];
            IsPath(t, q) && Ahead(t, q, Below(p[|p| - 1])) == Ahead(t, p, from)
  {
    Ascend(t, p);
    assert p[..|p| - 1] + [p[|p| - 1]] == p;
    AfterStep(t, p[..|p| - 1], p[|p| - 1]);
    HereSplits(Sub(t, p), from);
  }

  lemma WalkGoesDown<V>(t: Tree<V>, p: Path, from: From, d: Dir)
    requires IsPath(t, p) && !StopsAt(Sub(t, p), |p|, from) && NextChild(Sub(t, p), from) == Some(d)
    ensures IsPath(t, p + [d]) && Tour(t, p + [d], Above) < Tour(t, p, from)
    ensures Walk(t, p, from) == Walk(t, p + [d], Above) && Ahead(t, p, from) == Ahead(t, p + [d], Above)
  {
    assert Move(t, p, from) == Some(Place(p + [d], Above));
    AheadDown(t, p, from, d);
  }

  lemma WalkGoesUp<V>(t: Tree<V>, p: Path, from: From)
    requires IsPath(t, p) && !StopsAt(Sub(t, p), |p|, from) && NextChild(Sub(t, p), from) == None && p != []
    ensures var q, d := p[..|p| - 1], Below(p[|p| - 1]);
            && IsPath(t, q) && Child(Sub(t, q), p[|p| - 1]).Node? && Tour(t, q, d) < Tour(t, p, from)
            && Walk(t, p, from) == Walk(t, q, d) && Ahead(t, p, from) == Ahead(t, q, d)
  {
    assert Move(t, p, from) == Some(Place(p[..|p| - 1], Below(p[|p| - 1])));
    AheadUp(t, p, from);
    Ascend(t, p);
  }

  /**
    Where one walk ends, from any node and any direction. Only a walk that starts at a child
    of the root holding a key is different: it returns that key at once.
   */
  lemma {:induction false} WalkFindsNext<V>(t: Tree<V>, p: Path, from: From)
    requires IsPath(t, p) && NulShaped(t, [])
    requires from.Below? ==> Child(Sub(t, p), from.child).Node?
    requires from.Above? ==> p != []
    ensures Walk(t, p, from) ==
            if from == Start && |p| == 1 && Sub(t, p).key.Some? then Sub(t, p).key
            else FirstOr(Ahead(t, p, from), t)
    decreases Tour(t, p, from)
  {
    var n := Sub(t, p);
    if StopsAt(n, |p|, from) {
      StopIsNext(t, p, from);
    } else {
      match NextChild(n, from) {
        case Some(d) =>
          WalkGoesDown(t, p, from, d);
          WalkFindsNext(t, p + [d], Above);
        case None =>
          if p != [] {
            WalkGoesUp(t, p, from);
            WalkFindsNext(t, p[..|p| - 1], Below(p[|p| - 1]));
          } else {
            HereSplits(n, from);
          }
      }
    }
  }

  /** A walk that stops at once returns the first key ahead, but for the exception below the root. */
  lemma StopIsNext<V>(t: Tree<V>, p: Path, from: From)
    requires IsPath(t, p) && NulShaped(t, []) && StopsAt(Sub(t, p), |p|, from)
    requires from.Below? ==> Child(Sub(t, p), from.child).Node?
    ensures Walk(t, p, from) == Sub(t, p).key
    ensures (from.Start? && |p| == 1) || Walk(t, p, from) == FirstOr(Ahead(t, p, from), t)
  {
    SubIsNulShaped(t, [], p);
  }

  lemma {:induction false} SubIsNulShaped<V>(t: Tree<V>, prefix: Key, p: Path)
    requires IsPath(t, p) && NulShaped(t, prefix)
    ensures Sub(t, p).key.Some? ==> Sub(t, p).low.Empty?
  {
    if p != [] {
      SubIsNulShaped(Child(t, p[0]), if p[0] == Equal then prefix + [t.split] else prefix, p[1..]);
    }
  }

  // ---------------------------------------------------------------- order

  /** Lexicographic order, a proper prefix first. */
  predicate Less(a: Key, b: Key) {
    b != [] && (a == [] || a[0] < b[0] || (a[0] == b[0] && Less(a[1..], b[1..])))
  }

  ghost predicate Sorted(s: seq<Key>) {
    forall i, j :: 0 <= i < j < |s| ==> Less(s[i], s[j])
  }

  ghost predicate AllLess(s: seq<Key>, s': seq<Key>) {
    forall i, j :: 0 <= i < |s| && 0 <= j < |s'| ==> Less(s[i], s'[j])
  }

  lemma {:induction false} LessIrreflexive(a: Key)
    ensures !Less(a, a)
  {
    if a != [] { LessIrreflexive(a[1..]); }
  }

  lemma {:induction false} LessAfterPrefix(prefix: Key, a: Key, b: Key)
    requires prefix <= a && prefix <= b && |prefix| < |b|
    requires |a| == |prefix| || a[|prefix|] < b[|prefix|]
    ensures Less(a, b)
  {
    if prefix != [] { LessAfterPrefix(prefix[1..], a[1..], b[1..]); }
  }

  /** Every key of a subtree starts with the prefix and one of the characters at its top. */
  lemma {:induction false} KeysBelowPrefix<V>(t: Tree<V>, prefix: Key, i: nat)
    requires NulShaped(t, prefix) && i < |Keys(t)|
    ensures var k := Keys(t)[i]; |k| > |prefix| && prefix <= k && k[|prefix|] in Heads(t)
  {
    var here := prefix + [t.split];
    var s0 := if t.key.Some? then [t.key.value] else [];
    var l, e, h := Keys(t.low), Keys(t.equal), Keys(t.high);
    assert Keys(t) == s0 + (l + e + h);
    if i < |s0| {
    } else if i - |s0| < |l| {
      KeysBelowPrefix(t.low, prefix, i - |s0|);
    } else if i - |s0| - |l| < |e| {
      KeysBelowPrefix(t.equal, here, i - |s0| - |l|);
      assert here[|prefix|] == Keys(t)[i][|prefix|];
    } else {
      KeysBelowPrefix(t.high, prefix, i - |s0| - |l| - |e|);
    }
  }

  lemma SortedConcat(a: seq<Key>, b: seq<Key>)
    requires Sorted(a) && Sorted(b) && AllLess(a, b)
    ensures Sorted(a + b)
  {
  }

  /** The walking order is the lexicographic order: here NUL has to be the least character. */
  lemma {:induction false} KeysAreSorted<V>(t: Tree<V>, prefix: Key)
    requires Ordered(t) && NulShaped(t, prefix)
    ensures Sorted(Keys(t))
  {
    if t.Node? {
      var here := prefix + [t.split];
      var s0 := if t.key.Some? then [t.key.value] else [];
      var l, e, h := Keys(t.low), Keys(t.equal), Keys(t.high);
      KeysAreSorted(t.low, prefix);
      KeysAreSorted(t.equal, here);
      KeysAreSorted(t.high, prefix);
      forall i | 0 <= i < |l| ensures prefix <= l[i] && |l[i]| > |prefix| && l[i][|prefix|] < t.split {
        KeysBelowPrefix(t.low, prefix, i);
      }
      forall i | 0 <= i < |e| ensures here <= e[i] && |e[i]| > |here| && prefix <= e[i] && e[i][|prefix|] == t.split {
        KeysBelowPrefix(t.equal, here, i);
        assert e[i][|prefix|] == here[|prefix|];
      }
      forall i | 0 <= i < |h| ensures prefix <= h[i] && |h[i]| > |prefix| && h[i][|prefix|] > t.split {
        KeysBelowPrefix(t.high, prefix, i);
      }
      forall i, j | 0 <= i < |l| && 0 <= j < |e| ensures Less(l[i], e[j]) { LessAfterPrefix(prefix, l[i], e[j]); }
      forall i, j | 0 <= i < |l| && 0 <= j < |h| ensures Less(l[i], h[j]) { LessAfterPrefix(prefix, l[i], h[j]); }
      forall i, j | 0 <= i < |e| && 0 <= j < |h| ensures Less(e[i], h[j]) { LessAfterPrefix(prefix, e[i], h[j]); }
      if t.key.Some? {
        assert l == [];
        forall j | 0 <= j < |e| ensures Less(here, e[j]) { LessAfterPrefix(here, here, e[j]); }
        forall j | 0 <= j < |h| ensures Less(here, h[j]) { LessAfterPrefix(prefix, here, h[j]); }
      }
      FourSorted(s0, l, e, h);
    }
  }

  lemma FourSorted(s0: seq<Key>, l: seq<Key>, e: seq<Key>, h: seq<Key>)
    requires Sorted(s0) && Sorted(l) && Sorted(e) && Sorted(h)
    requires AllLess(s0, l) && AllLess(s0, e) && AllLess(s0, h)
    requires AllLess(l, e) && AllLess(l, h) && AllLess(e, h)
    ensures Sorted(s0 + (l + e + h))
  {
    SortedConcat(l, e);
    SortedConcat(l + e, h);
    SortedConcat(s0, l + e + h);
  }

  // ---------------------------------------------------------------- enumeration

  /** A node holding a key is where the search for that key ends. */
  lemma {:induction false} SearchFindsKey<V>(t: Tree<V>, prefix: Key, key: Key)
    requires Ordered(t) && NulShaped(t, prefix) && key != []
    ensures prefix + key in Keys(t) <==> HasPath(t, key) && FindNode(t, key).key.Some?
    ensures HasPath(t, key) && FindNode(t, key).key.Some? ==> FindNode(t, key).key.value == prefix + key
    decreases |key|, t
  {
    if t.Node? {
      var here, k := prefix + [t.split], prefix + key;
      assert k[|prefix|] == key[0];
      forall i | 0 <= i < |Keys(t.low)| ensures Keys(t.low)[i] == k ==> key[0] < t.split {
        KeysBelowPrefix(t.low, prefix, i);
      }
      forall i | 0 <= i < |Keys(t.high)| ensures Keys(t.high)[i] == k ==> key[0] > t.split {
        KeysBelowPrefix(t.high, prefix, i);
      }
      forall i | 0 <= i < |Keys(t.equal)| ensures Keys(t.equal)[i] == k ==> key[0] == t.split && |key| > 1 {
        KeysBelowPrefix(t.equal, here, i);
        assert Keys(t.equal)[i][|prefix|] == here[|prefix|];
      }
      if key[0] < t.split {
        SearchFindsKey(t.low, prefix, key);
      } else if key[0] > t.split {
        SearchFindsKey(t.high, prefix, key);
      } else if |key| > 1 {
        assert k == here + key[1..];
        SearchFindsKey(t.equal, here, key[1..]);
      } else {
        assert k == here;
      }
    }
  }

  function EarlierKeys<V>(n: Tree<V>, d: Dir): seq<Key>
    requires n.Node?
  {
    (if n.key.Some? then [n.key.value] else [])
    + match d case Low => [] case Equal => Keys(n.low) case High => Keys(n.low) + Keys(n.equal)
  }

  lemma KeysAroundChild<V>(n: Tree<V>, d: Dir)
    requires n.Node?
    ensures Keys(n) == EarlierKeys(n, d) + (Keys(Child(n, d)) + LaterKeys(n, d))
  {
    CutAnywhere(if n.key.Some? then [n.key.value] else [], Keys(n.low), Keys(n.equal), Keys(n.high));
  }

  lemma CutAnywhere(k: seq<Key>, l: seq<Key>, e: seq<Key>, h: seq<Key>)
    ensures k + (l + e + h) == (k + []) + (l + (e + h))
    ensures k + (l + e + h) == (k + l) + (e + h)
    ensures k + (l + e + h) == (k + (l + e)) + (h + [])
  {
  }

  lemma {:induction false} KeysAroundPath<V>(t: Tree<V>, p: Path) returns (before: seq<Key>)
    requires IsPath(t, p)
    ensures Keys(t) == before + (Keys(Sub(t, p)) + After(t, p))
  {
    if p == [] {
      before := [];
    } else {
      var b := KeysAroundPath(Child(t, p[0]), p[1..]);
      KeysAroundChild(t, p[0]);
      before := EarlierKeys(t, p[0]) + b;
      Around(EarlierKeys(t, p[0]), b, Keys(Sub(t, p)), After(Child(t, p[0]), p[1..]), LaterKeys(t, p[0]));
    }
  }

  lemma Around(e: seq<Key>, b: seq<Key>, x: seq<Key>, a: seq<Key>, r: seq<Key>)
    ensures e + ((b + (x + a)) + r) == (e + b) + (x + (a + r))
  {
  }

  /** What the successor of the i-th key should be. */
  function Successor(ks: seq<Key>, i: int): Option<Key>
    requires -1 <= i < |ks|
  {
    if i + 1 < |ks| then Some(ks[i + 1]) else None
  }

  /** Repeated calls of co_tree_next, from NULL on, give every key once, in order, and then NULL. */
  ghost predicate Enumerates<V>(t: Tree<V>) {
    var ks := Keys(t);
    && Next(t, None) == Successor(ks, -1)
    && forall i :: 0 <= i < |ks| ==> ks[i] != [] && Next(t, Some(ks[i])) == Successor(ks, i)
  }

  /** A key on the root must be the only one; a key on a child of the root must be the last one. */
  ghost predicate Enumerable<V>(t: Tree<V>) {
    var ks := Keys(t);
    t.Node? ==>
      && (t.key.Some? ==> |ks| == 1)
      && forall d :: Child(t, d).Node? && Child(t, d).key.Some? ==> ks != [] && Child(t, d).key.value == ks[|ks| - 1]
  }

  /** The node of the i-th key, and what is ahead of a walk that starts there. */
  lemma {:induction false} KeyPosition<V>(t: Tree<V>, i: nat) returns (p: Path)
    requires Ordered(t) && NulShaped(t, []) && i < |Keys(t)|
    ensures var k := Keys(t)[i];
            && k != [] && PathTo(t, k) == Some(p) && IsPath(t, p) && Sub(t, p).key == Some(k)
            && Ahead(t, p, Start) == Keys(t)[i + 1..]
  {
    var ks := Keys(t);
    var k := ks[i];
    KeysBelowPrefix(t, [], i);
    assert [] + k == k;
    SearchFindsKey(t, [], k);
    p := PathTo(t, k).value;
    var before := KeysAroundPath(t, p);
    var rest := Ahead(t, p, Start);
    assert Keys(Sub(t, p)) == [k] + KeysBelow(Sub(t, p));
    assert ks == before + [k] + rest;
    KeysAreSorted(t, []);
    LessIrreflexive(k);
    assert ks[|before|] == k;
  }

  /** One call of co_tree_next on a stored key. */
  lemma {:induction false} NextOfKey<V>(t: Tree<V>, i: nat) returns (p: Path)
    requires Ordered(t) && NulShaped(t, []) && i < |Keys(t)|
    ensures var ks := Keys(t);
            && ks[i] != [] && IsPath(t, p) && Sub(t, p).key == Some(ks[i])
            && Next(t, Some(ks[i])) ==
               if |p| == 1 then None
               else if i + 1 < |ks| then Some(ks[i + 1])
               else if t.key == Some(ks[i]) then None
               else t.key
  {
    p := KeyPosition(t, i);
    WalkFindsNext(t, p, Start);
    KeysAreSorted(t, []);
    LessIrreflexive(Keys(t)[i]);
  }

  lemma OneStepPath<V>(t: Tree<V>, d: Dir)
    requires t.Node? && Child(t, d).Node?
    ensures IsPath(t, [d]) && Sub(t, [d]) == Child(t, d)
  {
    assert [d][1..] == [];
    assert IsPath(Child(t, d), []);
  }

  lemma {:induction false} PathOfKeyIsUnique<V>(t: Tree<V>, d: Dir, i: nat, p: Path)
    requires Ordered(t) && NulShaped(t, []) && i < |Keys(t)|
    requires Child(t, d).Node? && IsPath(t, p) && Sub(t, p).key == Some(Keys(t)[i])
    requires Child(t, d).key == Some(Keys(t)[i])
    ensures |p| == 1
  {
    OneStepPath(t, d);
    SameKeySamePath(t, [], p, [d]);
  }

  /** A key tells the way to the node that holds it. */
  lemma {:induction false} KeyAtPath<V>(t: Tree<V>, prefix: Key, p: Path)
    requires Ordered(t) && NulShaped(t, prefix) && IsPath(t, p) && Sub(t, p).key.Some?
    ensures var k := Sub(t, p).key.value;
            && |k| > |prefix| && prefix <= k && k[|prefix|] in Heads(t)
            && (if p == [] then |k| == |prefix| + 1 && k[|prefix|] == t.split
                else match p[0]
                     case Low => k[|prefix|] < t.split
                     case Equal => k[|prefix|] == t.split && |k| > |prefix| + 1
                     case High => k[|prefix|] > t.split)
  {
    if p != [] {
      var here := prefix + [t.split];
      KeyAtPath(Child(t, p[0]), if p[0] == Equal then here else prefix, p[1..]);
      if p[0] == Equal { assert Sub(t, p).key.value[|prefix|] == here[|prefix|]; }
    }
  }

  lemma {:induction false} SameKeySamePath<V>(t: Tree<V>, prefix: Key, p: Path, q: Path)
    requires Ordered(t) && NulShaped(t, prefix) && IsPath(t, p) && IsPath(t, q)
    requires Sub(t, p).key.Some? && Sub(t, p).key == Sub(t, q).key
    ensures p == q
    decreases |p|
  {
    KeyAtPath(t, prefix, p);
    KeyAtPath(t, prefix, q);
    if p != [] {
      assert p[0] == q[0];
      SameKeySamePath(Child(t, p[0]), if p[0] == Equal then prefix + [t.split] else prefix, p[1..], q[1..]);
      assert p == [p[0]] + p[1..] && q == [q[0]] + q[1..];
    }
  }

  lemma {:induction false} EnumerableSuffices<V>(t: Tree<V>)
    requires Ordered(t) && NulShaped(t, []) && t.Node? && Enumerable(t)
    ensures Enumerates(t)
  {
    WalkFindsNext(t, [], Start);
    assert Ahead(t, [], Start) == KeysBelow(t);
    forall i | 0 <= i < |Keys(t)| ensures Keys(t)[i] != [] && Next(t, Some(Keys(t)[i])) == Successor(Keys(t), i) {
      NextIsSuccessor(t, i);
    }
  }

  lemma {:induction false} NextIsSuccessor<V>(t: Tree<V>, i: nat)
    requires Ordered(t) && NulShaped(t, []) && t.Node? && Enumerable(t) && i < |Keys(t)|
    ensures Keys(t)[i] != [] && Next(t, Some(Keys(t)[i])) == Successor(Keys(t), i)
  {
    var p := NextOfKey(t, i);
    if i + 1 < |Keys(t)| {
      KeysAreSorted(t, []);
      LessIrreflexive(Keys(t)[i]);
      assert Less(Keys(t)[i], Keys(t)[|Keys(t)| - 1]);
    }
  }

  lemma {:induction false} RootKeyMustBeAlone<V>(t: Tree<V>)
    requires Ordered(t) && NulShaped(t, []) && t.Node? && Enumerates(t) && t.key.Some?
    ensures |Keys(t)| == 1
  {
    WalkFindsNext(t, [], Start);
    assert Ahead(t, [], Start) == KeysBelow(t);
    KeysAreSorted(t, []);
    LessIrreflexive(Keys(t)[0]);
    assert Keys(t) == [t.key.value] + KeysBelow(t);
  }

  lemma {:induction false} ChildKeyMustBeLast<V>(t: Tree<V>, d: Dir)
    requires Ordered(t) && NulShaped(t, []) && t.Node? && Enumerates(t)
    requires Child(t, d).Node? && Child(t, d).key.Some?
    ensures Keys(t) != [] && Child(t, d).key.value == Keys(t)[|Keys(t)| - 1]
  {
    KeysAroundChild(t, d);
    var i := |EarlierKeys(t, d)|;
    assert Keys(Child(t, d))[0] == Child(t, d).key.value;
    assert Keys(t)[i] == Child(t, d).key.value;
    var p := NextOfKey(t, i);
    PathOfKeyIsUnique(t, d, i, p);
  }

  /**
    The enumeration is complete exactly for the trees that keep their keys off the root and its
    children, with the two exceptions that cost nothing.
   */
  lemma EnumeratesExactly<V>(t: Tree<V>)
    requires Ordered(t) && NulShaped(t, [])
    ensures Enumerates(t) <==> Enumerable(t)
  {
    if t.Node? {
      if Enumerable(t) { EnumerableSuffices(t); }
      if Enumerates(t) {
        if t.key.Some? { RootKeyMustBeAlone(t); }
        forall d | Child(t, d).Node? && Child(t, d).key.Some?
          ensures Keys(t) != [] && Child(t, d).key.value == Keys(t)[|Keys(t)| - 1] {
          ChildKeyMustBeLast(t, d);
        }
      }
    }
  }

  /** The search for the key ends at a node that holds a key, whether or not it is still bound. */
  predicate Listed<V>(t: Tree<V>, key: Key) {
    key != [] && HasPath(t, key) && FindNode(t, key).key.Some?
  }

  /** The enumerated keys are those; every bound key is among them. */
  lemma {:induction false} KeysAreListed<V>(t: Tree<V>, key: Key)
    requires Ordered(t) && NulShaped(t, [])
    ensures key in Keys(t) <==> Listed(t, key)
    ensures key in Map(t) ==> key in Keys(t)
  {
    MapIsLookup(t, key);
    if key == [] {
      forall i | 0 <= i < |Keys(t)| ensures Keys(t)[i] != [] { KeysBelowPrefix(t, [], i); }
    } else {
      assert [] + key == key;
      SearchFindsKey(t, [], key);
      if HasPath(t, key) { BoundHasKey(t, [], PathTo(t, key).value); }
    }
  }

  lemma {:induction false} BoundHasKey<V>(t: Tree<V>, prefix: Key, p: Path)
    requires IsPath(t, p) && NulShaped(t, prefix)
    ensures Sub(t, p).value.Some? ==> Sub(t, p).key.Some?
  {
    if p != [] {
      BoundHasKey(Child(t, p[0]), if p[0] == Equal then prefix + [t.split] else prefix, p[1..]);
    }
  }
}
