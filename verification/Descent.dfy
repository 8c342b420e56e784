/** Descent in a hierarchy that is given by the parent of every node that has one. */
module Descent {
  import opened Options

  /** The node `n` parents above `x`. */
  function Climb<T>(up: map<T, T>, x: T, n: nat): Option<T> {
    if n == 0 then Some(x)
    else
      match Climb(up, x, n - 1)
      case None => None
      case Some(y) => if y in up then Some(up[y]) else None
  }

  /** `b` is a proper descendant of `a`. */
  ghost predicate Below<T>(up: map<T, T>, b: T, a: T) {
    exists n: nat :: n > 0 && Climb(up, b, n) == Some(a)
  }

  ghost predicate Acyclic<T>(up: map<T, T>) {
    forall x :: x in up ==> !Below(up, x, x)
  }

  lemma {:induction false} ClimbAdd<T>(up: map<T, T>, x: T, m: nat, n: nat)
    requires Climb(up, x, m).Some?
    ensures Climb(up, x, m + n) == Climb(up, Climb(up, x, m).value, n)
  {
    if n > 0 { ClimbAdd(up, x, m, n - 1); }
  }

  lemma BelowParent<T>(up: map<T, T>, x: T)
    requires x in up
    ensures Below(up, x, up[x])
  {
    assert Climb(up, x, 0) == Some(x);
    assert Climb(up, x, 1) == Some(up[x]);
  }

  lemma BelowIsTransitive<T>(up: map<T, T>, x: T, y: T, z: T)
    requires Below(up, x, y) && Below(up, y, z)
    ensures Below(up, x, z)
  {
    var m: nat :| m > 0 && Climb(up, x, m) == Some(y);
    var n: nat :| n > 0 && Climb(up, y, n) == Some(z);
    ClimbAdd(up, x, m, n);
    assert Climb(up, x, m + n) == Some(z);
  }

  /** A proper descendant of `a` is a child of `a` or a proper descendant of a child. */
  lemma BelowThroughChild<T>(up: map<T, T>, b: T, a: T) returns (c: T)
    requires Below(up, b, a)
    ensures c in up && up[c] == a && (c == b || Below(up, b, c))
  {
    var n: nat :| n > 0 && Climb(up, b, n) == Some(a);
    c := Climb(up, b, n - 1).value;
    if n > 1 {
      assert Below(up, b, c);
    }
  }

  /** And its parent is `a` or a proper descendant of `a`. */
  lemma BelowThroughParent<T>(up: map<T, T>, b: T, a: T)
    requires Below(up, b, a)
    ensures b in up && (up[b] == a || Below(up, up[b], a))
  {
    var n: nat :| n > 0 && Climb(up, b, n) == Some(a);
    ClimbSome(up, b, n);
    assert Climb(up, b, 0) == Some(b);
    assert Climb(up, b, 1).Some?;
    ClimbAdd(up, b, 1, n - 1);
    if n > 1 {
      assert Climb(up, up[b], n - 1) == Some(a);
    } else {
      assert Climb(up, up[b], 0) == Some(up[b]);
    }
  }

  lemma {:induction false} ClimbSome<T>(up: map<T, T>, x: T, n: nat)
    requires n > 0 && Climb(up, x, n).Some?
    ensures Climb(up, x, 1).Some?
  {
    if n > 1 { ClimbSome(up, x, n - 1); }
  }

  // ---------------------------------------------------------------- fewer parents

  lemma {:induction false} ClimbInSubmap<T>(up: map<T, T>, less: map<T, T>, x: T, n: nat)
    requires forall k :: k in less ==> k in up && up[k] == less[k]
    requires Climb(less, x, n).Some?
    ensures Climb(up, x, n) == Climb(less, x, n)
  {
    if n > 0 { ClimbInSubmap(up, less, x, n - 1); }
  }

  lemma SubmapIsAcyclic<T>(up: map<T, T>, less: map<T, T>)
    requires Acyclic(up) && forall k :: k in less ==> k in up && up[k] == less[k]
    ensures Acyclic(less)
  {
    forall x | x in less ensures !Below(less, x, x) {
      if Below(less, x, x) {
        SubmapBelow(up, less, x, x);
      }
    }
  }

  lemma SubmapBelow<T>(up: map<T, T>, less: map<T, T>, x: T, y: T)
    requires Below(less, x, y) && forall k :: k in less ==> k in up && up[k] == less[k]
    ensures Below(up, x, y)
  {
    var n: nat :| n > 0 && Climb(less, x, n) == Some(y);
    ClimbInSubmap(up, less, x, n);
  }

  // ---------------------------------------------------------------- one more parent

  /** A climb that uses the new parent of `b` passes `b` first. */
  lemma {:induction false} ClimbPastNew<T>(up: map<T, T>, b: T, p: T, x: T, n: nat) returns (m: nat)
    requires b !in up && Climb(up[b := p], x, n).Some?
    ensures Climb(up, x, n) == Climb(up[b := p], x, n) || (m < n && Climb(up, x, m) == Some(b))
  {
    m := 0;
    if n > 0 {
      m := ClimbPastNew(up, b, p, x, n - 1);
      if Climb(up, x, n - 1) == Climb(up[b := p], x, n - 1) && Climb(up, x, n - 1) == Some(b) {
        m := n - 1;
      }
    }
  }

  /** A cycle that the new parent closes shows that the new parent was `b` or below it. */
  lemma CycleThroughNew<T>(up: map<T, T>, b: T, p: T, x: T)
    requires b !in up && Below(up[b := p], x, x)
    ensures (x in up && Below(up, x, x)) || p == b || Below(up, p, b)
  {
    var more := up[b := p];
    var n: nat :| n > 0 && Climb(more, x, n) == Some(x);
    var m := ClimbPastNew(up, b, p, x, n);
    if Climb(up, x, n) == Climb(more, x, n) {
      assert Below(up, x, x);
      BelowThroughParent(up, x, x);
    } else {
      ClimbInSubmap(more, up, x, m);
      ClimbAdd(more, x, m, n);
      ClimbAdd(more, x, n, m);
      ReturnToNew(up, b, p, n);
    }
  }

  lemma ReturnToNew<T>(up: map<T, T>, b: T, p: T, n: nat)
    requires b !in up && n > 0 && Climb(up[b := p], b, n) == Some(b)
    ensures p == b || Below(up, p, b)
  {
    var more := up[b := p];
    assert Climb(more, b, 0) == Some(b);
    assert Climb(more, b, 1) == Some(p);
    ClimbAdd(more, b, 1, n - 1);
    var m := ClimbPastNew(up, b, p, p, n - 1);
    assert Climb(up, p, 0) == Some(p);
    var k := if Climb(up, p, n - 1) == Some(b) then n - 1 else m;
    assert Climb(up, p, k) == Some(b);
  }

  /** Attaching `b` below `p` closes no cycle exactly when `p` is neither `b` nor below it. */
  lemma AttachIsAcyclic<T>(up: map<T, T>, b: T, p: T)
    requires Acyclic(up) && b !in up
    ensures Acyclic(up[b := p]) <==> b != p && !Below(up, p, b)
  {
    var more := up[b := p];
    forall x | x in more && Below(more, x, x) ensures p == b || Below(up, p, b) {
      CycleThroughNew(up, b, p, x);
    }
    BelowParent(more, b);
    if Below(up, p, b) {
      SubmapBelow(more, up, p, b);
      BelowIsTransitive(more, b, p, b);
    }
  }

  /** All proper descendants. */
  ghost function Descendants<T>(up: map<T, T>, a: T): set<T> {
    set x | x in up && Below(up, x, a)
  }

  lemma DescendantsAreBelow<T>(up: map<T, T>, x: T, a: T)
    ensures x in Descendants(up, a) <==> Below(up, x, a)
  {
    if Below(up, x, a) { BelowThroughParent(up, x, a); }
  }

  /** A child has fewer descendants than its parent, and they are among the parent's. */
  lemma ChildHasFewer<T>(up: map<T, T>, c: T)
    requires Acyclic(up) && c in up
    ensures Descendants(up, c) < Descendants(up, up[c])
    ensures c in Descendants(up, up[c]) && c !in Descendants(up, c)
  {
    var a := up[c];
    BelowParent(up, c);
    forall x | x in Descendants(up, c) ensures x in Descendants(up, a) {
      BelowIsTransitive(up, x, c, a);
    }
    assert c in Descendants(up, a) && !Below(up, c, c);
  }

  // ---------------------------------------------------------------- siblings

  /** Of two ancestors of a node, one is above the other unless they are the same. */
  lemma AncestorsAreOrdered<T>(up: map<T, T>, x: T, a: T, b: T)
    requires Below(up, x, a) && Below(up, x, b)
    ensures a == b || Below(up, a, b) || Below(up, b, a)
  {
    var m: nat :| m > 0 && Climb(up, x, m) == Some(a);
    var n: nat :| n > 0 && Climb(up, x, n) == Some(b);
    if m < n {
      ClimbAdd(up, x, m, n - m);
      assert Climb(up, a, n - m) == Some(b);
    } else if n < m {
      ClimbAdd(up, x, n, m - n);
      assert Climb(up, b, m - n) == Some(a);
    }
  }

  /** Different children of one parent have no descendant in common, and neither is below the other. */
  lemma SiblingsAreApart<T>(up: map<T, T>, c: T, d: T)
    requires Acyclic(up) && c in up && d in up && up[c] == up[d] && c != d
    ensures Descendants(up, c) !! Descendants(up, d) && c !in Descendants(up, d)
  {
    NotBelowSibling(up, c, d);
    NotBelowSibling(up, d, c);
    forall x | x in Descendants(up, c) ensures x !in Descendants(up, d) {
      if x in Descendants(up, d) { AncestorsAreOrdered(up, x, c, d); }
    }
  }

  lemma NotBelowSibling<T>(up: map<T, T>, c: T, d: T)
    requires Acyclic(up) && c in up && d in up && up[c] == up[d]
    ensures !Below(up, c, d)
  {
    if Below(up, c, d) {
      BelowThroughParent(up, c, d);
      BelowParent(up, d);
      if up[c] != d { BelowIsTransitive(up, d, up[d], d); }
    }
  }

  // ---------------------------------------------------------------- whole subtrees

  /** The first `k` of these nodes and all that is below them. */
  ghost function Swept<T>(up: map<T, T>, ks: seq<T>, k: nat): set<T>
    requires k <= |ks|
  {
    if k == 0 then {} else Swept(up, ks, k - 1) + {ks[k - 1]} + Descendants(up, ks[k - 1])
  }

  lemma SweptOneMore<T>(up: map<T, T>, ks: seq<T>, k: nat, before: set<T>)
    requires k < |ks|
    ensures before - Swept(up, ks, k + 1) == before - Swept(up, ks, k) - Descendants(up, ks[k]) - {ks[k]}
  {
  }

  lemma {:induction false} SweptOneByOne<T>(up: map<T, T>, ks: seq<T>, k: nat, x: T)
    requires k <= |ks|
    ensures x in Swept(up, ks, k) <==> exists j :: 0 <= j < k && (x == ks[j] || x in Descendants(up, ks[j]))
  {
    if k > 0 { SweptOneByOne(up, ks, k - 1, x); }
  }

  /** Sweeping all children sweeps all descendants. */
  lemma ChildrenSweepAll<T>(up: map<T, T>, ks: seq<T>, a: T)
    requires forall c :: c in ks <==> c in up && up[c] == a
    ensures Swept(up, ks, |ks|) == Descendants(up, a)
  {
    forall x | x in Swept(up, ks, |ks|) ensures x in Descendants(up, a) {
      SweptOneByOne(up, ks, |ks|, x);
      var j :| 0 <= j < |ks| && (x == ks[j] || x in Descendants(up, ks[j]));
      assert ks[j] in ks;
      BelowParent(up, ks[j]);
      if x != ks[j] { BelowIsTransitive(up, x, ks[j], a); }
    }
    forall x | x in Descendants(up, a) ensures x in Swept(up, ks, |ks|) {
      SweptOneByOne(up, ks, |ks|, x);
      var c := BelowThroughChild(up, x, a);
      assert c in ks;
      DescendantsAreBelow(up, x, c);
    }
  }

  lemma NextIsUnswept<T>(up: map<T, T>, ks: seq<T>, k: nat)
    requires Acyclic(up) && k < |ks| && (forall i, j :: 0 <= i < j < |ks| ==> ks[i] != ks[j])
    requires ks[k] in up && forall i :: 0 <= i < |ks| ==> ks[i] in up && up[ks[i]] == up[ks[k]]
    ensures ks[k] !in Swept(up, ks, k) && Descendants(up, ks[k]) !! Swept(up, ks, k)
  {
    forall x | x in Swept(up, ks, k) ensures x != ks[k] && x !in Descendants(up, ks[k]) {
      SweptOneByOne(up, ks, k, x);
      var j :| 0 <= j < k && (x == ks[j] || x in Descendants(up, ks[j]));
      SiblingsAreApart(up, ks[k], ks[j]);
      SiblingsAreApart(up, ks[j], ks[k]);
    }
  }
}
