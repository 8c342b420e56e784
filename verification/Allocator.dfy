/** The hierarchical allocator of src/extern/halloc.c on the weakly linked lists of src/extern/hlist.h. */
module Allocator {
  import opened Descent
  import opened Sequences

  /** A pointer to a pointer: to the head of a block's children, or to the sibling link of a block. */
  datatype Slot = Nowhere | Head(of: Block) | Next(of: Block)

  /** The control header of a block. A null item stands for the sentinel all lists share. */
  class Block {
    var next: Block?
    var prev: Slot
    var head: Block?

    constructor ()
      ensures next == null && head == null && prev == Next(this)
    {
      next, prev, head := null, Nowhere, null;
      new;
      prev := Next(this);
    }
  }

  ghost function ItemAt(ks: seq<Block>, i: int): Block? {
    if 0 <= i < |ks| then ks[i] else null
  }

  ghost function SlotAt(q: Block, ks: seq<Block>, i: int): Slot {
    if 0 < i <= |ks| then Next(ks[i - 1]) else Head(q)
  }

  /** The i-th child points at its successor, and back at the pointer that points at it. */
  ghost predicate HookedAt(q: Block, ks: seq<Block>, i: int)
    requires 0 <= i < |ks|
    reads ks
  {
    ks[i].next == ItemAt(ks, i + 1) && ks[i].prev == SlotAt(q, ks, i)
  }

  ghost predicate Hooked(q: Block, ks: seq<Block>)
    reads q, ks
  {
    q.head == ItemAt(ks, 0) && Different(ks) && forall i :: 0 <= i < |ks| ==> HookedAt(q, ks, i)
  }

  ghost predicate Loose(b: Block)
    reads b
  {
    b.next == null && b.prev == Next(b)
  }

  ghost predicate OwnKids(up: map<Block, Block>, q: Block, ks: seq<Block>) {
    forall c :: c in ks ==> c in up && up[c] == q
  }

  ghost predicate IsListed(up: map<Block, Block>, kids: map<Block, seq<Block>>, c: Block)
    requires c in up
  {
    up[c] in kids && c in kids[up[c]]
  }

  /** The children lists and the parents say the same. */
  ghost predicate Agree(live: set<Block>, up: map<Block, Block>, kids: map<Block, seq<Block>>) {
    && kids.Keys == live && up.Keys <= live
    && (forall q {:trigger OwnKids(up, q, kids[q])} :: q in live ==> OwnKids(up, q, kids[q]))
    && (forall c :: c in up ==> up[c] in live)
    && (forall c {:trigger IsListed(up, kids, c)} :: c in up ==> IsListed(up, kids, c))
  }

  lemma AgreeWithout(live: set<Block>, up: map<Block, Block>, kids: map<Block, seq<Block>>, b: Block, q: Block, k: nat)
    requires Agree(live, up, kids) && b in up && q == up[b]
    requires k < |kids[q]| && kids[q][k] == b && Different(kids[q])
    ensures Agree(live, up - {b}, kids[q := RemoveAt(kids[q], k)])
  {
    RemovedContents(kids[q], k);
    var less := RemoveAt(kids[q], k);
    forall p | p in live ensures OwnKids(up - {b}, p, kids[q := less][p]) {
      assert OwnKids(up, p, kids[p]);
    }
    forall c | c in up - {b} ensures IsListed(up - {b}, kids[q := less], c) {
      assert IsListed(up, kids, c);
    }
  }

  lemma AgreeWith(live: set<Block>, up: map<Block, Block>, kids: map<Block, seq<Block>>, b: Block, p: Block)
    requires Agree(live, up, kids) && b !in up && b in live && p in live
    ensures Agree(live, up[b := p], kids[p := [b] + kids[p]])
  {
    var above, more := up[b := p], kids[p := [b] + kids[p]];
    forall q | q in live ensures OwnKids(above, q, more[q]) {
      assert OwnKids(up, q, kids[q]);
    }
    forall c | c in above ensures IsListed(above, more, c) {
      if c != b { assert IsListed(up, kids, c); }
    }
  }

  lemma AgreeNew(live: set<Block>, up: map<Block, Block>, kids: map<Block, seq<Block>>, b: Block)
    requires Agree(live, up, kids) && b !in live
    ensures Agree(live + {b}, up, kids[b := []])
  {
    forall q | q in live + {b} ensures OwnKids(up, q, kids[b := []][q]) {
      assert q != b ==> OwnKids(up, q, kids[q]);
    }
    forall c | c in up ensures IsListed(up, kids[b := []], c) {
      assert IsListed(up, kids, c);
    }
  }

  lemma AgreeDropped(live: set<Block>, up: map<Block, Block>, kids: map<Block, seq<Block>>, b: Block)
    requires Agree(live, up, kids) && b in live && b !in up && kids[b] == []
    ensures Agree(live - {b}, up, kids - {b})
  {
    forall q | q in live - {b} ensures OwnKids(up, q, (kids - {b})[q]) {
      assert OwnKids(up, q, kids[q]);
    }
    forall c | c in up ensures IsListed(up, kids - {b}, c) && up[c] != b {
      assert IsListed(up, kids, c);
    }
  }

  lemma ListedAtParent(live: set<Block>, up: map<Block, Block>, kids: map<Block, seq<Block>>, c: Block)
    requires Agree(live, up, kids) && c in up
    ensures up[c] in live && c in kids[up[c]]
  {
    assert IsListed(up, kids, c);
  }

  /** Leaving a block out of all lists changes that of its parent only. */
  lemma OnlyInOneList(live: set<Block>, up: map<Block, Block>, kids: map<Block, seq<Block>>, b: Block)
    requires Agree(live, up, kids)
    ensures forall q :: q in live && !(b in up && up[b] == q) ==> Without(kids[q], b) == kids[q]
  {
    forall q | q in live && !(b in up && up[b] == q) ensures b !in kids[q] {
      assert OwnKids(up, q, kids[q]);
    }
  }

  /** The list of a block's children holds them all. */
  lemma ListsAll(live: set<Block>, up: map<Block, Block>, kids: map<Block, seq<Block>>, q: Block)
    requires Agree(live, up, kids) && q in live
    ensures forall c :: c in kids[q] <==> c in up && up[c] == q
  {
    assert OwnKids(up, q, kids[q]);
    forall c | c in up && up[c] == q ensures c in kids[q] {
      ListedAtParent(live, up, kids, c);
    }
  }

  /** `x` is in the hierarchy below `y`. */
  ghost predicate IsBelow(up: map<Block, Block>, x: Block, y: Block) {
    Below(up, x, y)
  }

  class Heap {
    /** The `prev` field of the sentinel, which insertions and removals write to. */
    var nullPrev: Slot
    /** What was handed out and not given back. */
    ghost var held: set<Block>
    /** The hierarchy: its blocks, their parents, and their children in order. */
    ghost var live: set<Block>
    ghost var up: map<Block, Block>
    ghost var kids: map<Block, seq<Block>>

    ghost predicate Valid()
      reads this, live
    {
      ValidBut({}) && held == live
    }

    /** The children of the blocks in `dying` were freed; their heads still point at them. */
    ghost predicate ValidBut(dying: set<Block>)
      reads this`live, this`up, this`kids, live
    {
      && Agree(live, up, kids) && Acyclic(up)
      && (forall q {:trigger Hooked(q, kids[q])} ::
            q in live && q !in dying && OwnKids(up, q, kids[q]) ==> Hooked(q, kids[q]))
      && (forall b {:trigger Loose(b)} :: b in live && b !in up ==> Loose(b))
    }

    constructor ()
      ensures Valid() && live == {} && up == map[]
    {
      nullPrev, held, live, up, kids := Nowhere, {}, {}, map[], map[];
    }

    /** halloc of a new block */
    method Alloc() returns (b: Block)
      requires Valid()
      modifies this`held, this`live, this`kids
      ensures Valid() && fresh(b) && live == old(live) + {b} && up == old(up) && kids == old(kids)[b := []]
    {
      b := new Block();
      AgreeNew(live, up, kids, b);
      held := held + {b};
      live := live + {b};
      kids := kids[b := []];
    }

    /** next->prev = ..., the sentinel included */
    method SetPrev(item: Block?, s: Slot)
      modifies this`nullPrev, if item == null then {} else {item}
      ensures item == null ==> nullPrev == s
      ensures item != null ==> item.prev == s && item.next == old(item.next) && item.head == old(item.head)
    {
      if item == null {
        nullPrev := s;
      } else {
        item.prev := s;
      }
    }

    /** *prev = ... */
    method SetSlot(s: Slot, item: Block?)
      requires s != Nowhere
      modifies s.of
      ensures s.of.prev == old(s.of.prev)
      ensures s.of.head == if s.Head? then item else old(s.of.head)
      ensures s.of.next == if s.Next? then item else old(s.of.next)
    {
      match s {
        case Head(q) => q.head := item;
        case Next(q) => q.next := item;
      }
    }

    /**
      The pointer updates of hlist_del, for the k-th of the children `ks` of `q`, or for a
      block that is in no list; then only the sentinel changes.
     */
    method DelPointers(b: Block, ghost q: Block, ghost ks: seq<Block>, ghost k: nat)
      requires if ks == [] then Loose(b) && q == b else Hooked(q, ks) && k < |ks| && b == ks[k] && q !in ks
      modifies this`nullPrev, q, ks
      ensures Loose(b) && b.head == old(b.head)
      ensures forall i :: 0 <= i < |ks| && i != k ==> SkipsAt(q, ks, i, k)
      ensures ks != [] ==> q.head == (if k == 0 then ItemAt(ks, 1) else ItemAt(ks, 0))
      ensures ks != [] ==> q.next == old(q.next) && q.prev == old(q.prev)
      ensures forall x :: x in ks ==> x.head == old(x.head)
    {
      assert ks != [] ==> HookedAt(q, ks, k);
      var next := b.next;
      SetPrev(next, b.prev);
      SetSlot(b.prev, next);
      b.next := null;
      b.prev := Next(b);
      forall i | 0 <= i < |ks| && i != k ensures SkipsAt(q, ks, i, k) {
        assert old(HookedAt(q, ks, i));
      }
    }

    /**
      hlist_relink and hlist_relink_head, when reallocation has moved `was`, the k-th of the children `ks` of
      `q`, to `b`: the pointers to it, from its list and from its own children `own`, follow, and the block
      that was left is not touched.
     */
    method Relink(b: Block, ghost was: Block, ghost q: Block, ghost ks: seq<Block>, ghost k: nat,
                  ghost own: seq<Block>)
      requires Hooked(q, ks) && k < |ks| && was == ks[k] && Hooked(was, own)
      requires q !in ks && q !in own && (forall x :: x in own ==> x !in ks)
      requires b != q && b !in ks && b !in own
      requires b.next == was.next && b.prev == was.prev && b.head == was.head
      modifies this`nullPrev, q, (set x | x in ks && x != was), own
      ensures Hooked(q, ks[k := b]) && Hooked(b, own)
      ensures q.next == old(q.next) && q.prev == old(q.prev)
      ensures forall x :: x in ks ==> x.head == old(x.head)
      ensures forall x :: x in own ==> x.head == old(x.head) && x.next == old(x.next)
    {
      ghost var ks' := ks[k := b];
      assert HookedAt(q, ks, k);
      assert forall i :: 0 <= i < |ks| ==> ks[i] in ks;
      assert forall i :: 0 <= i < |own| ==> own[i] in own;
      SetSlot(b.prev, b);
      SetPrev(b.next, Next(b));
      SetPrev(b.head, Head(b));
      forall i | 0 <= i < |ks'| ensures HookedAt(q, ks', i) {
        assert old(HookedAt(q, ks, i));
      }
      forall i | 0 <= i < |own| ensures HookedAt(b, own, i) {
        assert old(HookedAt(was, own, i));
      }
    }

    /** hlist_del */
    method HlistDel(b: Block, ghost dying: set<Block>)
      requires ValidBut(dying) && b in live && (b in up ==> up[b] !in dying)
      modifies this`nullPrev, this`up, this`kids, live
      ensures ValidBut(dying) && Loose(b) && up == old(up) - {b}
      ensures kids == if b in old(up) then old(kids)[old(up)[b] := Without(old(kids)[old(up)[b]], b)] else old(kids)
    {
      if b in up { ListedAtParent(live, up, kids, b); }
      ghost var q := if b in up then up[b] else b;
      ghost var ks := if b in up then kids[q] else [];
      ghost var k := if b in up then IndexOf(ks, b) else 0;
      NotOwnChild(up, kids, q);
      assert b in up ==> OwnKids(up, q, ks) && Hooked(q, ks);
      DelPointers(b, q, ks, k);
      assert forall c :: c in live && c !in ks ==> c.next == old(c.next) && c.prev == old(c.prev);
      assert forall c :: c in live && (c != q || ks == []) ==> c.head == old(c.head);
      forall x | x in live && x !in dying && (x != q || ks == []) ensures Hooked(x, kids[x]) {
        assert old(Hooked(x, kids[x]));
        forall i | 0 <= i < |kids[x]| ensures HookedAt(x, kids[x], i) {
          assert old(HookedAt(x, kids[x], i));
          assert kids[x][i] !in ks;
        }
      }
      if ks == [] {
        NothingToForget(up, b);
      } else {
        RemovedIsHooked(q, ks, k);
        forall x | x in live && x !in up ensures Loose(x) { assert old(Loose(x)) && x !in ks; }
        Forget(b, q, k, dying);
      }
    }

    /** The hierarchy after a removal. */
    ghost method Forget(b: Block, q: Block, k: nat, dying: set<Block>)
      requires Agree(live, up, kids) && Acyclic(up) && b in up && q == up[b]
      requires k < |kids[q]| && kids[q][k] == b && Different(kids[q])
      requires forall x :: x in live && x !in dying && x != q ==> Hooked(x, kids[x])
      requires Hooked(q, RemoveAt(kids[q], k))
      requires (forall x :: x in live && x !in up ==> Loose(x)) && Loose(b)
      modifies this`up, this`kids
      ensures ValidBut(dying) && up == old(up) - {b} && kids == old(kids)[q := RemoveAt(old(kids)[q], k)]
    {
      SubmapIsAcyclic(up, up - {b});
      AgreeWithout(live, up, kids, b, q, k);
      Become(up - {b}, kids[q := RemoveAt(kids[q], k)], dying);
    }

    ghost method Become(up': map<Block, Block>, kids': map<Block, seq<Block>>, dying: set<Block>)
      requires Agree(live, up', kids') && Acyclic(up')
      requires forall q :: q in live && q !in dying ==> Hooked(q, kids'[q])
      requires forall b :: b in live && b !in up' ==> Loose(b)
      modifies this`up, this`kids
      ensures ValidBut(dying) && up == up' && kids == kids'
    {
      up, kids := up', kids';
    }

    /** hlist_add to the children of `p` */
    method HlistAdd(p: Block, b: Block)
      requires Valid() && p in live && b in live && b !in up && b != p && !Below(up, p, b)
      modifies this`nullPrev, this`up, this`kids, live
      ensures Valid() && up == old(up)[b := p] && kids == old(kids)[p := [b] + old(kids)[p]]
    {
      ghost var ks := kids[p];
      NotOwnChild(up, kids, p);
      AddPointers(p, b, ks);
      assert forall c :: c in live && c !in ks && c != b ==> c.next == old(c.next) && c.prev == old(c.prev);
      assert forall c :: c in live && c != p ==> c.head == old(c.head);
      forall x | x in live && x != p ensures Hooked(x, kids[x]) {
        assert old(Hooked(x, kids[x]));
        forall i | 0 <= i < |kids[x]| ensures HookedAt(x, kids[x], i) {
          assert old(HookedAt(x, kids[x], i));
          assert kids[x][i] !in ks;
        }
      }
      forall x | x in live && x !in up && x != b ensures Loose(x) { assert old(Loose(x)) && x !in ks; }
      Remember(b, p);
    }

    method AddPointers(p: Block, b: Block, ghost ks: seq<Block>)
      requires Hooked(p, ks) && b !in ks && b != p && p !in ks
      modifies this`nullPrev, p, b, ks
      ensures Hooked(p, [b] + ks)
      ensures p.next == old(p.next) && p.prev == old(p.prev) && b.head == old(b.head)
      ensures forall x :: x in ks ==> x.head == old(x.head)
    {
      var next := p.head;
      b.next := next;
      SetPrev(next, Next(b));
      p.head := b;
      b.prev := Head(p);
      ghost var more := [b] + ks;
      forall i | 0 <= i < |more| ensures HookedAt(p, more, i) {
        if i > 0 { assert old(HookedAt(p, ks, i - 1)); }
      }
    }

    /** The hierarchy after an insertion. */
    ghost method Remember(b: Block, p: Block)
      requires Agree(live, up, kids) && Acyclic(up) && held == live && p in live && b in live
      requires b !in up && b != p && !Below(up, p, b)
      requires (forall x :: x in live && x != p ==> Hooked(x, kids[x])) && Hooked(p, [b] + kids[p])
      requires forall x :: x in live && x !in up && x != b ==> Loose(x)
      modifies this`up, this`kids
      ensures Valid() && up == old(up)[b := p] && kids == old(kids)[p := [b] + old(kids)[p]]
    {
      AttachIsAcyclic(up, b, p);
      AgreeWith(live, up, kids, b, p);
      Become(up[b := p], kids[p := [b] + kids[p]], {});
    }

    /** hattach, with what it asserts of a new parent. */
    method Attach(b: Block, parent: Block?)
      requires Valid() && b in live
      requires parent != null ==> parent in live && b != parent && !IsBelow(up, parent, b)
      modifies this`nullPrev, this`up, this`kids, live
      ensures Valid() && live == old(live)
      ensures up == if parent == null then old(up) - {b} else old(up)[b := parent]
      ensures forall q :: q in live ==> kids[q] == (if q == parent then [b] else []) + Without(old(kids[q]), b)
    {
      ghost var was := up;
      OnlyInOneList(live, up, kids, b);
      HlistDel(b, {});
      if parent == null {
        return;
      }
      StillNotBelow(was, up, parent, b);
      HlistAdd(parent, b);
      Replaced(was, b, parent);
    }

    /** All blocks that go when `p` goes. */
    ghost function Under(p: Block): set<Block>
      reads this`up
    {
      Descendants(up, p)
    }

    /** _relate */
    method Relate(b: Block?, p: Block?) returns (r: bool)
      requires Valid() && (p != null ==> p in live)
      ensures r <==> b != null && p != null && IsBelow(up, b, p)
      decreases if p == null then {} else Under(p)
    {
      if b == null || p == null {
        return false;
      }
      var wanted: Block, top: Block := b, p;
      var i := p.head;
      ghost var ks, k := kids[p], 0;
      assert OwnKids(up, p, ks) && Hooked(p, ks);
      while i != null
        invariant k <= |ks| && i == ItemAt(ks, k)
        invariant forall j :: 0 <= j < k ==> ks[j] != b && !Below(up, wanted, ks[j])
        decreases |ks| - k
      {
        assert HookedAt(p, ks, k) && ks[k] in kids[p] && up[ks[k]] == top;
        BelowParent(up, ks[k]);
        ChildHasFewer(up, ks[k]);
        var q: Block := i;
        if q == b {
          return true;
        }
        var found := Relate(b, q);
        if found {
          BelowIsTransitive(up, wanted, q, top);
          return true;
        }
        i := i.next;
        k := k + 1;
      }
      r := false;
      ListsAll(live, up, kids, top);
      if Below(up, wanted, top) {
        SomeChildAbove(up, wanted, top, ks);
      }
    }

    /** allocator(q, 0): what is given back must be held. */
    ghost method Release(q: Block)
      requires q in held
      modifies this`held
      ensures held == old(held) - {q}
    {
      held := held - {q};
    }

    /** Nothing that a release changes: the hierarchy and the links of its blocks. */
    ghost predicate Intact(u: map<Block, Block>)
      reads this`live, this`up, this`kids, live
    {
      ValidBut({}) && up == u
    }

    /** _free_children, which follows no pointer of a block already given back. */
    method FreeChildren(p: Block, ghost u: map<Block, Block>)
      requires Intact(u) && p in live && p in held && Descendants(u, p) <= held
      modifies this`held
      ensures held == old(held) - Descendants(u, p)
      decreases Descendants(u, p), 1
    {
      ghost var k, before, ks := 0, held, kids[p];
      var i := HeadOf(p);
      assert Hooked(p, ks);
      var tmp := Successor(i, p, u, ks, 0, before);
      while i != null
        invariant k <= |ks| && i == ItemAt(ks, k) && tmp == ItemAt(ks, k + 1)
        invariant held == before - Swept(u, ks, k)
        decreases |ks| - k
      {
        i, tmp := FreeNext(i, tmp, p, u, ks, k, before);
        k := k + 1;
      }
      SweepsAll(p, u);
    }

    /** The pointers it follows: only those of blocks that are still held can be read. */
    method HeadOf(b: Block) returns (head: Block?)
      requires b in held
      ensures head == b.head
    {
      head := b.head;
    }

    method NextOf(b: Block) returns (next: Block?)
      requires b in held
      ensures next == b.next
    {
      next := b.next;
    }

    /** i->next, for an item that is still there; nothing follows the sentinel. */
    method Successor(i: Block?, ghost p: Block, ghost u: map<Block, Block>, ghost ks: seq<Block>, ghost k: nat,
                     ghost before: set<Block>) returns (tmp: Block?)
      requires Intact(u) && p in live && ks == kids[p] && k <= |ks| && i == ItemAt(ks, k)
      requires Descendants(u, p) <= before && held == before - Swept(u, ks, k)
      ensures tmp == ItemAt(ks, k + 1)
    {
      if i == null {
        return null;
      }
      StillHeld(p, u, ks, k, before);
      tmp := NextOf(i);
    }

    /** One round of its loop. */
    method FreeNext(i: Block, tmp: Block?, ghost p: Block, ghost u: map<Block, Block>, ghost ks: seq<Block>,
                    ghost k: nat, ghost before: set<Block>) returns (i': Block?, tmp': Block?)
      requires Intact(u) && p in live && ks == kids[p] && k < |ks| && Descendants(u, p) <= before
      requires i == ks[k] && tmp == ItemAt(ks, k + 1) && held == before - Swept(u, ks, k)
      modifies this`held
      ensures held == before - Swept(u, ks, k + 1)
      ensures i' == ItemAt(ks, k + 1) && tmp' == ItemAt(ks, k + 2)
      decreases Descendants(u, p), 0
    {
      StillHeld(p, u, ks, k, before);
      SweptOneMore(u, ks, k, before);
      FreeChild(i, u);
      i' := tmp;
      tmp' := Successor(i', p, u, ks, k + 1, before);
    }

    method FreeChild(q: Block, ghost u: map<Block, Block>)
      requires Intact(u) && q in live && q in held && Descendants(u, q) <= held
      modifies this`held
      ensures held == old(held) - Descendants(u, q) - {q}
      decreases Descendants(u, q), 2
    {
      NotBelowItself(q);
      FreeChildren(q, u);
      Release(q);
    }

    lemma NotBelowItself(q: Block)
      requires Acyclic(up)
      ensures q !in Descendants(up, q)
    {
    }

    lemma SweepsAll(p: Block, u: map<Block, Block>)
      requires Intact(u) && p in live
      ensures Swept(u, kids[p], |kids[p]|) == Descendants(u, p)
    {
      ListsAll(live, up, kids, p);
      ChildrenSweepAll(up, kids[p], p);
    }

    /** The next child is still there, with all that is below it. */
    lemma StillHeld(p: Block, u: map<Block, Block>, ks: seq<Block>, k: nat, before: set<Block>)
      requires Intact(u) && p in live && ks == kids[p] && k < |ks| && Descendants(u, p) <= before
      requires held == before - Swept(u, ks, k)
      ensures ks[k] in held && Descendants(u, ks[k]) <= held && Descendants(u, ks[k]) < Descendants(u, p)
      ensures ks[k] in live && ks[k].next == ItemAt(ks, k + 1)
    {
      assert OwnKids(up, p, ks) && Hooked(p, ks) && HookedAt(p, ks, k);
      forall i | 0 <= i < |ks| ensures ks[i] in up && up[ks[i]] == p {
        assert ks[i] in ks;
      }
      NextIsUnswept(up, ks, k);
      ChildHasFewer(up, ks[k]);
    }

    /** halloc(ptr, 0) */
    method Free(b: Block)
      requires Valid() && b in live
      modifies this, live
      ensures Valid() && live == old(live) - {b} - old(Under(b))
      ensures up == old(up) - old(Under(b)) - {b}
      ensures forall q :: q in live ==> kids[q] == Without(old(kids[q]), b)
    {
      FreeBelow(b);
      FreeLast(b);
    }

    method FreeBelow(b: Block)
      requires Valid() && b in live
      modifies this`held, this`live, this`up, this`kids
      ensures ValidBut({b}) && held == live == old(live) - old(Under(b)) && b in live
      ensures up == old(up) - old(Under(b)) && (b in up ==> up[b] != b)
      ensures kids == (old(kids) - old(Under(b)))[b := []]
    {
      FreeChildren(b, up);
      Prune(b);
    }

    /** A block whose children are gone. */
    method FreeLast(b: Block)
      requires ValidBut({b}) && held == live && b in live && kids[b] == [] && (b in up ==> up[b] != b)
      modifies this, live
      ensures Valid() && live == old(live) - {b} && up == old(up) - {b}
      ensures forall q :: q in live ==> kids[q] == Without(old(kids[q]), b)
    {
      OnlyInOneList(live, up, kids, b);
      ghost var lists := kids;
      HlistDel(b, {b});
      assert forall q :: q in live ==> kids[q] == Without(lists[q], b);
      assert kids[b] == [];
      Release(b);
      Drop(b);
    }

    /** The hierarchy when all that is below `b` was given back. */
    ghost method Prune(b: Block)
      requires ValidBut({}) && b in live
      modifies this`live, this`up, this`kids
      ensures ValidBut({b}) && live == old(live) - old(Under(b)) && b in live && (b in up ==> up[b] != b)
      ensures up == old(up) - old(Under(b)) && kids == (old(kids) - old(Under(b)))[b := []]
    {
      ghost var gone := Under(b);
      AgreePruned(live, up, kids, b);
      SubmapIsAcyclic(up, up - gone);
      if b in up { BelowParent(up, b); }
      live, up, kids := live - gone, up - gone, (kids - gone)[b := []];
    }

    /** The hierarchy without a block that has neither a parent nor children. */
    ghost method Drop(b: Block)
      requires ValidBut({b}) && b in live && b !in up && kids[b] == [] && held == live - {b}
      modifies this`live, this`kids
      ensures Valid() && live == old(live) - {b} && kids == old(kids) - {b}
    {
      AgreeDropped(live, up, kids, b);
      live, kids := live - {b}, kids - {b};
    }
  }

  lemma AgreePruned(live: set<Block>, up: map<Block, Block>, kids: map<Block, seq<Block>>, b: Block)
    requires Agree(live, up, kids) && Acyclic(up) && b in live
    ensures var gone := Descendants(up, b);
            b !in gone && Agree(live - gone, up - gone, (kids - gone)[b := []])
  {
    var gone := Descendants(up, b);
    var less := (kids - gone)[b := []];
    forall c | c in up && c !in gone ensures up[c] !in gone && up[c] != b {
      if up[c] == b || up[c] in gone { ParentOutside(up, c, b); }
    }
    forall q | q in live - gone ensures OwnKids(up - gone, q, less[q]) {
      if q != b { KidsOutside(up, q, kids[q], b); }
    }
    forall c | c in up - gone ensures IsListed(up - gone, less, c) {
      assert IsListed(up, kids, c);
    }
  }

  lemma KidsOutside(up: map<Block, Block>, q: Block, ks: seq<Block>, b: Block)
    requires OwnKids(up, q, ks) && q != b && q !in Descendants(up, b)
    ensures OwnKids(up - Descendants(up, b), q, ks)
  {
    forall c | c in ks ensures c in up && up[c] == q && c !in Descendants(up, b) {
      if c in Descendants(up, b) {
        BelowThroughParent(up, c, b);
        DescendantsAreBelow(up, q, b);
      }
    }
  }

  lemma ParentOutside(up: map<Block, Block>, c: Block, b: Block)
    requires c in up && (up[c] == b || up[c] in Descendants(up, b))
    ensures c in Descendants(up, b)
  {
    BelowParent(up, c);
    if up[c] != b { BelowIsTransitive(up, c, up[c], b); }
  }

  lemma SomeChildAbove(up: map<Block, Block>, b: Block, a: Block, ks: seq<Block>)
    requires Below(up, b, a) && forall c :: c in up && up[c] == a ==> c in ks
    ensures exists j :: 0 <= j < |ks| && (ks[j] == b || Below(up, b, ks[j]))
  {
    var c := BelowThroughChild(up, b, a);
    assert c in ks;
  }

  lemma StillNotBelow(up: map<Block, Block>, less: map<Block, Block>, x: Block, y: Block)
    requires !Below(up, x, y) && forall k :: k in less ==> k in up && up[k] == less[k]
    ensures !Below(less, x, y)
  {
    if Below(less, x, y) { SubmapBelow(up, less, x, y); }
  }

  lemma Replaced(up: map<Block, Block>, b: Block, p: Block)
    ensures (up - {b})[b := p] == up[b := p]
  {
  }

  lemma NothingToForget(up: map<Block, Block>, b: Block)
    requires b !in up
    ensures up - {b} == up
  {
  }

  lemma NotOwnChild(up: map<Block, Block>, kids: map<Block, seq<Block>>, q: Block)
    requires Acyclic(up) && forall p :: p in kids ==> OwnKids(up, p, kids[p])
    ensures q in kids ==> q !in kids[q]
  {
    if q in kids && q in kids[q] { BelowParent(up, q); }
  }

  lemma RemovedIsHooked(q: Block, ks: seq<Block>, k: nat)
    requires k < |ks| && Different(ks) && forall i :: 0 <= i < |ks| && i != k ==> SkipsAt(q, ks, i, k)
    requires q.head == if k == 0 then ItemAt(ks, 1) else ItemAt(ks, 0)
    ensures Hooked(q, RemoveAt(ks, k))
  {
    var less := RemoveAt(ks, k);
    RemovedIsDifferent(ks, k);
    forall i | 0 <= i < |less| ensures HookedAt(q, less, i) {
      assert SkipsAt(q, ks, if i < k then i else i + 1, k);
    }
  }

  /** The links around position k, when its block is left out. */
  ghost predicate SkipsAt(q: Block, ks: seq<Block>, i: int, k: int)
    requires 0 <= i < |ks|
    reads ks
  {
    && ks[i].next == ItemAt(ks, if i == k - 1 then i + 2 else i + 1)
    && ks[i].prev == SlotAt(q, ks, if i == k + 1 then k else i)
  }
}
