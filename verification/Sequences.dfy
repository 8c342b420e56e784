/** Sequences of different elements, and one more or one fewer of them. */
module Sequences {
  ghost predicate Different<T>(s: seq<T>) {
    forall i, j :: 0 <= i < j < |s| ==> s[i] != s[j]
  }

  function InsertAt<T>(s: seq<T>, k: nat, x: T): seq<T>
    requires k <= |s|
  {
    s[..k] + [x] + s[k..]
  }

  function RemoveAt<T>(s: seq<T>, k: nat): seq<T>
    requires k < |s|
  {
    s[..k] + s[k + 1..]
  }

  ghost function IndexOf<T>(s: seq<T>, x: T): (k: nat)
    requires x in s
    ensures k < |s| && s[k] == x
  {
    if s[0] == x then 0 else 1 + IndexOf(s[1..], x)
  }

  ghost function Without<T>(s: seq<T>, x: T): seq<T> {
    if x in s then RemoveAt(s, IndexOf(s, x)) else s
  }

  lemma WithoutContents<T>(s: seq<T>, x: T)
    requires Different(s)
    ensures forall y :: y in Without(s, x) <==> y in s && y != x
    ensures Different(Without(s, x))
  {
    if x in s {
      RemovedContents(s, IndexOf(s, x));
      RemovedIsDifferent(s, IndexOf(s, x));
    }
  }

  /** Taking an element out again undoes its insertion, and putting it back its removal. */
  lemma InsertionAndRemoval<T>(s: seq<T>, k: nat, x: T)
    requires k <= |s|
    ensures RemoveAt(InsertAt(s, k, x), k) == s
    ensures k < |s| ==> InsertAt(RemoveAt(s, k), k, s[k]) == s
  {
  }

  lemma InsertedIsDifferent<T>(s: seq<T>, k: nat, x: T)
    requires k <= |s| && Different(s) && x !in s
    ensures Different(InsertAt(s, k, x))
  {
    var more := InsertAt(s, k, x);
    forall i, j | 0 <= i < j < |more| ensures more[i] != more[j] {
      assert more[i] == if i < k then s[i] else if i == k then x else s[i - 1];
      assert more[j] == if j < k then s[j] else if j == k then x else s[j - 1];
    }
  }

  lemma RemovedIsDifferent<T>(s: seq<T>, k: nat)
    requires k < |s| && Different(s)
    ensures Different(RemoveAt(s, k))
  {
  }

  lemma InsertedContents<T>(s: seq<T>, k: nat, x: T)
    requires k <= |s|
    ensures multiset(InsertAt(s, k, x)) == multiset(s) + multiset{x}
    ensures forall y :: y in InsertAt(s, k, x) <==> y in s || y == x
  {
    assert s == s[..k] + s[k..];
  }

  lemma RemovedContents<T>(s: seq<T>, k: nat)
    requires k < |s| && Different(s)
    ensures multiset(s) == multiset(RemoveAt(s, k)) + multiset{s[k]}
    ensures forall y :: y in RemoveAt(s, k) <==> y in s && y != s[k]
  {
    assert s == s[..k] + [s[k]] + s[k + 1..];
  }

  lemma SameElements<T>(x: seq<T>, y: seq<T>)
    requires |x| == |y| && forall i :: 0 <= i < |x| ==> x[i] == y[i]
    ensures x == y
  {
  }

  lemma Reassociate<T>(x: seq<T>, y: seq<T>, z: seq<T>)
    ensures (x + y) + z == x + (y + z)
  {
  }

  lemma DropFront<T>(x: seq<T>, y: seq<T>)
    ensures (x + y)[|x|..] == y
  {
  }

  lemma FiveParts<T>(f: seq<T>, o: seq<T>, l: seq<T>, e: seq<T>, h: seq<T>)
    ensures f + o + l + e + h == f + (o + (l + e + h))
  {
  }
}
