// The TTL heap of lib/server/heap.cpp: a binary min-heap whose items keep
// their index up to date through ref.

module Heap {
  import opened Entries

  // ref points to the heapIdx field of this entry.
  datatype HeapItem = HeapItem(val: nat, ref: Entry)

  function Parent(i: nat): nat
    requires i > 0
  { (i + 1) / 2 - 1 }

  function Left(i: nat): nat { i * 2 + 1 }

  function Right(i: nat): nat { i * 2 + 2 }

  ghost predicate HeapOrdered(a: seq<HeapItem>) {
    forall i {:trigger a[i]} :: 0 < i < |a| ==> a[Parent(i)].val <= a[i].val
  }

  // The order is violated at most between pos and its parent ...
  ghost predicate OrderedAbove(a: seq<HeapItem>, pos: nat) {
    (forall i {:trigger a[i]} :: 0 < i < |a| && i != pos ==> a[Parent(i)].val <= a[i].val) &&
    GrandOrdered(a, pos)
  }

  // ... or between pos and its children ...
  ghost predicate OrderedBelow(a: seq<HeapItem>, pos: nat) {
    (forall i {:trigger a[i]} :: 0 < i < |a| && Parent(i) != pos ==> a[Parent(i)].val <= a[i].val) &&
    GrandOrdered(a, pos)
  }

  // ... or in both places; without the item at pos it would be a heap.
  ghost predicate OrderedBut(a: seq<HeapItem>, pos: nat) {
    (forall i {:trigger a[i]} :: 0 < i < |a| && i != pos && Parent(i) != pos ==> a[Parent(i)].val <= a[i].val) &&
    GrandOrdered(a, pos)
  }

  ghost predicate GrandOrdered(a: seq<HeapItem>, pos: nat) {
    forall i {:trigger a[i]} :: 0 < i < |a| && Parent(i) == pos && 0 < pos ==> a[Parent(pos)].val <= a[i].val
  }

  ghost predicate DistinctRefs(a: seq<HeapItem>) {
    forall i, j :: 0 <= i < j < |a| ==> a[i].ref != a[j].ref
  }

  // Every item but the one at pos finds its index behind ref.
  ghost predicate RefsBut(a: seq<HeapItem>, pos: int)
    reads (set i | 0 <= i < |a| :: a[i].ref)`heapIdx
  {
    forall i {:trigger a[i]} :: 0 <= i < |a| && i != pos ==> a[i].ref.heapIdx == i
  }

  ghost predicate Within(a: seq<HeapItem>, es: set<Entry>) {
    forall i {:trigger a[i]} :: 0 <= i < |a| ==> a[i].ref in es
  }

  ghost function Exchange(a: seq<HeapItem>, i: nat, j: nat): seq<HeapItem>
    requires i < |a| && j < |a|
  {
    a[i := a[j]][j := a[i]]
  }

  ghost predicate InHeap(a: seq<HeapItem>, e: Entry) {
    exists i :: 0 <= i < |a| && a[i].ref == e
  }

  lemma ExchangeBag(a: seq<HeapItem>, i: nat, j: nat)
    requires i < |a| && j < |a| && i != j
    ensures multiset(Exchange(a, i, j)) == multiset(a)
  {
    var m := a[i := a[j]];
    assert multiset(m) == multiset(a) - multiset{a[i]} + multiset{a[j]};
    assert multiset(m[j := a[i]]) == multiset(m) - multiset{m[j]} + multiset{a[i]};
  }

  lemma ExchangeSame(a: seq<HeapItem>, i: nat, j: nat, es: set<Entry>)
    requires i < |a| && j < |a| && i != j && DistinctRefs(a) && Within(a, es)
    ensures var b := Exchange(a, i, j);
      multiset(b) == multiset(a) && DistinctRefs(b) && Within(b, es) &&
      |b| == |a| && b[i] == a[j] && b[j] == a[i] && forall k :: 0 <= k < |a| && k != i && k != j ==> b[k] == a[k]
    ensures forall e :: InHeap(Exchange(a, i, j), e) <==> InHeap(a, e)
  {
    ExchangeBag(a, i, j);
    var b := Exchange(a, i, j);
    forall e ensures InHeap(b, e) <==> InHeap(a, e) {
      if k :| 0 <= k < |a| && a[k].ref == e { assert b[if k == i then j else if k == j then i else k].ref == e; }
      if k :| 0 <= k < |b| && b[k].ref == e { assert a[if k == i then j else if k == j then i else k].ref == e; }
    }
  }

  lemma Kids(i: nat, pos: nat)
    requires i > 0
    ensures Parent(i) == pos <==> i == Left(pos) || i == Right(pos)
    ensures Parent(i) < i
  {
  }

  lemma ExchangeUp(a: seq<HeapItem>, pos: nat)
    requires 0 < pos < |a| && OrderedAbove(a, pos) && a[Parent(pos)].val > a[pos].val
    ensures OrderedAbove(Exchange(a, pos, Parent(pos)), Parent(pos))
  {
  }

  lemma ExchangeDown(a: seq<HeapItem>, pos: nat, kid: nat)
    requires pos < |a| && kid < |a| && (kid == Left(pos) || kid == Right(pos)) && OrderedBelow(a, pos)
    requires a[kid].val < a[pos].val
    requires Left(pos) < |a| ==> a[kid].val <= a[Left(pos)].val
    requires Right(pos) < |a| ==> a[kid].val <= a[Right(pos)].val
    ensures OrderedBelow(Exchange(a, pos, kid), kid)
  {
    var b := Exchange(a, pos, kid);
    forall i | 0 < i < |b| && Parent(i) != kid ensures b[Parent(i)].val <= b[i].val {
      Kids(i, pos);
      Kids(i, kid);
      if i == pos { Kids(kid, pos); assert a[kid].val >= a[Parent(pos)].val; }
    }
    forall i | 0 < i < |b| && Parent(i) == kid && 0 < kid ensures b[Parent(kid)].val <= b[i].val {
      Kids(i, kid);
      Kids(kid, pos);
      assert i != pos && i != kid && a[Parent(i)].val <= a[i].val;
    }
  }

  lemma DoneAbove(a: seq<HeapItem>, pos: nat)
    requires pos < |a| && OrderedAbove(a, pos) && (pos > 0 ==> a[Parent(pos)].val <= a[pos].val)
    ensures HeapOrdered(a)
  {
  }

  lemma DoneBelow(a: seq<HeapItem>, pos: nat)
    requires pos < |a| && OrderedBelow(a, pos)
    requires Left(pos) < |a| ==> a[pos].val <= a[Left(pos)].val
    requires Right(pos) < |a| ==> a[pos].val <= a[Right(pos)].val
    ensures HeapOrdered(a)
  {
    forall i | 0 < i < |a| ensures a[Parent(i)].val <= a[i].val {
      Kids(i, pos);
    }
  }

  lemma ViolatedAbove(a: seq<HeapItem>, pos: nat)
    requires 0 < pos < |a| && OrderedBut(a, pos) && a[Parent(pos)].val > a[pos].val
    ensures OrderedAbove(a, pos)
  {
  }

  lemma ViolatedBelow(a: seq<HeapItem>, pos: nat)
    requires pos < |a| && OrderedBut(a, pos) && (pos > 0 ==> a[Parent(pos)].val <= a[pos].val)
    ensures OrderedBelow(a, pos)
  {
  }

  // ----- The heap as a map from entries to deadlines -----

  ghost function Deadlines(a: seq<HeapItem>): map<Entry, nat> {
    if a == [] then map[] else Deadlines(a[..|a| - 1])[a[|a| - 1].ref := a[|a| - 1].val]
  }

  ghost predicate Tells(a: seq<HeapItem>, m: map<Entry, nat>) {
    (forall i {:trigger a[i]} :: 0 <= i < |a| ==> a[i].ref in m && m[a[i].ref] == a[i].val) &&
    forall e {:trigger e in m} :: e in m ==> InHeap(a, e)
  }

  lemma {:induction false} TellsDeadlines(a: seq<HeapItem>)
    requires DistinctRefs(a)
    ensures Tells(a, Deadlines(a))
  {
    if a != [] {
      var r, x := a[..|a| - 1], a[|a| - 1];
      TellsDeadlines(r);
      forall e | e in Deadlines(a) ensures InHeap(a, e) {
        if e == x.ref {
          assert a[|r|].ref == e;
        } else {
          var i :| 0 <= i < |r| && r[i].ref == e;
          assert a[i].ref == e;
        }
      }
      forall i | 0 <= i < |a| ensures a[i].ref in Deadlines(a) && Deadlines(a)[a[i].ref] == a[i].val {
        if i < |r| { assert r[i] == a[i]; }
      }
    }
  }

  lemma DeadlinesAre(a: seq<HeapItem>, m: map<Entry, nat>)
    requires DistinctRefs(a) && Tells(a, m)
    ensures m == Deadlines(a)
  {
    TellsDeadlines(a);
    hide Deadlines;
    var n := Deadlines(a);
    forall e ensures e in m <==> e in n {
      if e in m || e in n { var i :| 0 <= i < |a| && a[i].ref == e; }
    }
    forall e | e in m ensures m[e] == n[e] {
      var i :| 0 <= i < |a| && a[i].ref == e;
    }
  }

  // The order of the items does not matter.
  lemma DeadlinesPermuted(a: seq<HeapItem>, b: seq<HeapItem>)
    requires DistinctRefs(a) && DistinctRefs(b) && multiset(a) == multiset(b)
    ensures Deadlines(a) == Deadlines(b)
  {
    TellsDeadlines(a);
    hide Deadlines, DistinctRefs;
    var m := Deadlines(a);
    forall i | 0 <= i < |b| ensures b[i].ref in m && m[b[i].ref] == b[i].val {
      assert b[i] in multiset(b);
      var j :| 0 <= j < |a| && a[j] == b[i];
    }
    forall e | e in m ensures InHeap(b, e) {
      var i :| 0 <= i < |a| && a[i].ref == e;
      assert a[i] in multiset(a);
      var j :| 0 <= j < |b| && b[j] == a[i];
      assert b[j].ref == e;
    }
    DeadlinesAre(b, m);
  }

  // heap_delete's array before it is put in order: the last item is gone, and
  // stands in for the erased one.
  ghost function Erased(a: seq<HeapItem>, pos: nat): seq<HeapItem>
    requires pos < |a|
  {
    a[pos := a[|a| - 1]][..|a| - 1]
  }

  lemma ErasedOrdered(a: seq<HeapItem>, pos: nat)
    requires pos < |a| && HeapOrdered(a) && DistinctRefs(a)
    ensures DistinctRefs(Erased(a, pos))
    ensures pos == |a| - 1 ==> HeapOrdered(Erased(a, pos))
    ensures pos < |a| - 1 ==> OrderedBut(Erased(a, pos), pos)
  {
    var b := Erased(a, pos);
    forall i | 0 < i < |b| && Parent(i) == pos && 0 < pos ensures b[Parent(pos)].val <= b[i].val {
      assert a[Parent(i)].val <= a[i].val && a[Parent(pos)].val <= a[pos].val;
    }
  }

  lemma DistinctAt(a: seq<HeapItem>, i: nat)
    requires DistinctRefs(a) && i < |a|
    ensures forall j :: 0 <= j < |a| && j != i ==> a[j].ref != a[i].ref
  {
  }

  lemma ErasedTells(a: seq<HeapItem>, pos: nat, m: map<Entry, nat>)
    requires pos < |a| && DistinctRefs(a) && Tells(a, m)
    ensures var gone: set<Entry> := {a[pos].ref}; Tells(Erased(a, pos), m - gone)
  {
    var b, n := Erased(a, pos), |a| - 1;
    var gone: set<Entry> := {a[pos].ref};
    DistinctAt(a, pos);
    hide DistinctRefs;
    forall i | 0 <= i < |b| ensures b[i].ref in m - gone && m[b[i].ref] == b[i].val {
      assert b[i] == a[if i == pos then n else i];
    }
    forall e | e in m - gone ensures InHeap(b, e) {
      var i :| 0 <= i < |a| && a[i].ref == e;
      assert b[if i == n then pos else i] == a[i];
    }
  }

  lemma ErasedDeadlines(a: seq<HeapItem>, pos: nat)
    requires pos < |a| && DistinctRefs(a) && DistinctRefs(Erased(a, pos))
    ensures Deadlines(Erased(a, pos)) == Deadlines(a) - {a[pos].ref}
  {
    hide *;
    TellsDeadlines(a);
    ErasedTells(a, pos, Deadlines(a));
    var gone: set<Entry> := {a[pos].ref};
    DeadlinesAre(Erased(a, pos), Deadlines(a) - gone);
  }

  lemma ErasedIn(a: seq<HeapItem>, pos: nat)
    requires pos < |a| && DistinctRefs(a)
    ensures forall e :: InHeap(Erased(a, pos), e) ==> InHeap(a, e) && e != a[pos].ref
  {
    var b := Erased(a, pos);
    forall e | InHeap(b, e) ensures InHeap(a, e) && e != a[pos].ref {
      var i :| 0 <= i < |b| && b[i].ref == e;
      assert b[i] == a[if i == pos then |a| - 1 else i];
    }
  }

  lemma ErasedRefs(a: seq<HeapItem>, pos: nat, es: set<Entry>)
    requires pos < |a| && Within(a, es) && RefsBut(a, -1)
    ensures var b := Erased(a, pos);
      Within(b, es) && RefsBut(b, pos) && (pos == |b| ==> RefsBut(b, -1))
  {
    var b := Erased(a, pos);
    forall i | 0 <= i < |b| ensures b[i].ref in es && (i != pos ==> b[i].ref.heapIdx == i) {
      assert b[i] == a[if i == pos then |a| - 1 else i];
    }
  }

  // heap_upsert's array before it is put in order.
  ghost function Put(a: seq<HeapItem>, pos: int, t: HeapItem): seq<HeapItem> {
    if 0 <= pos < |a| then a[pos := t] else a + [t]
  }

  ghost function PutPos(a: seq<HeapItem>, pos: int): nat {
    if 0 <= pos < |a| then pos else |a|
  }

  lemma PutOrdered(a: seq<HeapItem>, pos: int, t: HeapItem)
    requires HeapOrdered(a) && DistinctRefs(a)
    requires if 0 <= pos < |a| then a[pos].ref == t.ref else !InHeap(a, t.ref)
    ensures DistinctRefs(Put(a, pos, t)) && OrderedBut(Put(a, pos, t), PutPos(a, pos))
  {
    var b, p := Put(a, pos, t), PutPos(a, pos);
    forall i, j | 0 <= i < j < |b| ensures b[i].ref != b[j].ref {
      if j == |a| { assert a[i].ref != t.ref; }
    }
    forall i | 0 < i < |b| && Parent(i) == p && 0 < p ensures b[Parent(p)].val <= b[i].val {
      assert a[Parent(i)].val <= a[i].val && a[Parent(p)].val <= a[p].val;
    }
  }

  lemma PutTells(a: seq<HeapItem>, pos: int, t: HeapItem, m: map<Entry, nat>)
    requires DistinctRefs(Put(a, pos, t)) && Tells(a, m) && (0 <= pos < |a| ==> a[pos].ref == t.ref)
    ensures Tells(Put(a, pos, t), m[t.ref := t.val])
  {
    var b, p := Put(a, pos, t), PutPos(a, pos);
    var m' := m[t.ref := t.val];
    DistinctAt(b, p);
    hide DistinctRefs;
    forall i | 0 <= i < |b| ensures b[i].ref in m' && m'[b[i].ref] == b[i].val {
      if i != p { assert b[i] == a[i]; }
    }
    forall e | e in m' ensures InHeap(b, e) {
      if e == t.ref {
        assert b[p].ref == e;
      } else {
        var i :| 0 <= i < |a| && a[i].ref == e;
        assert b[i].ref == e;
      }
    }
  }

  lemma PutDeadlines(a: seq<HeapItem>, pos: int, t: HeapItem)
    requires DistinctRefs(a) && DistinctRefs(Put(a, pos, t)) && (0 <= pos < |a| ==> a[pos].ref == t.ref)
    ensures Deadlines(Put(a, pos, t)) == Deadlines(a)[t.ref := t.val]
  {
    hide *;
    TellsDeadlines(a);
    PutTells(a, pos, t, Deadlines(a));
    DeadlinesAre(Put(a, pos, t), Deadlines(a)[t.ref := t.val]);
  }

  lemma PutIn(a: seq<HeapItem>, pos: int, t: HeapItem)
    ensures forall e :: InHeap(Put(a, pos, t), e) ==> InHeap(a, e) || e == t.ref
  {
    var b := Put(a, pos, t);
    forall e | InHeap(b, e) && e != t.ref ensures InHeap(a, e) {
      var i :| 0 <= i < |b| && b[i].ref == e;
      assert a[i].ref == e;
    }
  }

  lemma PutRefs(a: seq<HeapItem>, pos: int, t: HeapItem, es: set<Entry>)
    requires Within(a, es) && RefsBut(a, -1) && t.ref in es
    ensures Within(Put(a, pos, t), es) && RefsBut(Put(a, pos, t), PutPos(a, pos))
  {
  }

  // The first item has the least deadline.
  lemma {:induction false} RootIsLeast(a: seq<HeapItem>, i: nat)
    requires HeapOrdered(a) && i < |a|
    ensures a[0].val <= a[i].val
    decreases i
  {
    if i > 0 {
      RootIsLeast(a, Parent(i));
    }
  }

  class TtlHeap {
    var a: seq<HeapItem>

    constructor ()
      ensures a == []
    {
      a := [];
    }

    ghost predicate Valid(es: set<Entry>)
      reads this, es`heapIdx
    {
      Within(a, es) && HeapOrdered(a) && RefsBut(a, -1)
    }

    // One step of the loops: the item at from moves to the hole at pos, which
    // moves to from.  b is the array with the item t in the hole.
    method Shift(pos: nat, from: nat, t: HeapItem, ghost b: seq<HeapItem>, ghost es: set<Entry>)
      requires pos < |a| && from < |a| && pos != from && b == a[pos := t]
      requires Within(b, es) && DistinctRefs(b) && RefsBut(b, pos)
      modifies this, es`heapIdx
      ensures |a| == |b| && var c := Exchange(b, pos, from);
        c == a[from := t] && Within(c, es) && DistinctRefs(c) && RefsBut(c, from) && multiset(c) == multiset(b)
      ensures forall e :: e in es ==> InHeap(Exchange(b, pos, from), e) == InHeap(b, e)
      ensures forall e :: e in es && !InHeap(b, e) ==> e.heapIdx == old(e.heapIdx)
    {
      ExchangeSame(b, pos, from, es);
      assert a[from] == b[from];
      a := a[pos := a[from]];
      a[pos].ref.heapIdx := pos;
      hide DistinctRefs;
    }

    // "a[pos] = t; *a[pos].ref = pos", the end of the loops.
    method Settle(pos: nat, t: HeapItem, ghost b: seq<HeapItem>, ghost es: set<Entry>)
      requires pos < |a| && b == a[pos := t]
      requires Within(b, es) && DistinctRefs(b) && RefsBut(b, pos)
      modifies this, es`heapIdx
      ensures a == b && RefsBut(a, -1)
      ensures forall e :: e in es && !InHeap(b, e) ==> e.heapIdx == old(e.heapIdx)
    {
      a := a[pos := t];
      a[pos].ref.heapIdx := pos;
    }

    // heap_up: the item at start moves up to where it belongs.
    method Up(start: nat, ghost es: set<Entry>)
      requires start < |a| && Within(a, es) && OrderedAbove(a, start) && DistinctRefs(a) && RefsBut(a, start)
      modifies this, es`heapIdx
      ensures Valid(es) && |a| == |old(a)| && multiset(a) == multiset(old(a))
      ensures forall e :: e in es && !InHeap(old(a), e) ==> e.heapIdx == old(e.heapIdx)
    {
      hide HeapOrdered, OrderedAbove, GrandOrdered, DistinctRefs, Exchange, InHeap;
      var pos := start;
      var t := a[pos];
      ghost var b := a;
      while pos > 0 && a[Parent(pos)].val > t.val
        invariant 0 <= pos < |a| == |old(a)| && b == a[pos := t]
        invariant Within(b, es) && OrderedAbove(b, pos) && DistinctRefs(b) && RefsBut(b, pos)
        invariant multiset(b) == multiset(old(a)) && forall e :: e in es ==> InHeap(b, e) == InHeap(old(a), e)
        invariant forall e :: e in es && !InHeap(old(a), e) ==> e.heapIdx == old(e.heapIdx)
        decreases pos
      {
        ExchangeUp(b, pos);
        Shift(pos, Parent(pos), t, b, es);
        b := Exchange(b, pos, Parent(pos));
        pos := Parent(pos);
      }
      DoneAbove(b, pos);
      Settle(pos, t, b, es);
    }

    // heap_down: the item at start moves down to where it belongs.
    method Down(start: nat, ghost es: set<Entry>)
      requires start < |a| && Within(a, es) && OrderedBelow(a, start) && DistinctRefs(a) && RefsBut(a, start)
      modifies this, es`heapIdx
      ensures Valid(es) && |a| == |old(a)| && multiset(a) == multiset(old(a))
      ensures forall e :: e in es && !InHeap(old(a), e) ==> e.heapIdx == old(e.heapIdx)
    {
      hide HeapOrdered, OrderedBelow, GrandOrdered, DistinctRefs, Exchange, InHeap;
      var pos := start;
      var t := a[pos];
      ghost var b := a;
      while true
        invariant 0 <= pos < |a| == |old(a)| && b == a[pos := t]
        invariant Within(b, es) && OrderedBelow(b, pos) && DistinctRefs(b) && RefsBut(b, pos)
        invariant multiset(b) == multiset(old(a)) && forall e :: e in es ==> InHeap(b, e) == InHeap(old(a), e)
        invariant forall e :: e in es && !InHeap(old(a), e) ==> e.heapIdx == old(e.heapIdx)
        decreases |a| - pos
      {
        var l, r := Left(pos), Right(pos);
        var minPos, minVal := pos, t.val;
        if l < |a| && a[l].val < minVal {
          minPos, minVal := l, a[l].val;
        }
        if r < |a| && a[r].val < minVal {
          minPos := r;
        }
        if minPos == pos {
          break;
        }
        ExchangeDown(b, pos, minPos);
        Shift(pos, minPos, t, b, es);
        b := Exchange(b, pos, minPos);
        pos := minPos;
      }
      DoneBelow(b, pos);
      Settle(pos, t, b, es);
    }

    // Every entry knows whether it has an item, and where: heapIdx is -1, or
    // the index of the item that refers to it.
    ghost predicate Timed(es: set<Entry>)
      reads this, es`heapIdx
    {
      Valid(es) && forall e {:trigger e.heapIdx} :: e in es ==>
        e.heapIdx == -1 || (0 <= e.heapIdx < |a| && a[e.heapIdx].ref == e)
    }

    lemma TimedFacts(es: set<Entry>, e: Entry)
      requires Timed(es) && e in es
      ensures e.heapIdx == -1 <==> e !in Deadlines(a)
      ensures e.heapIdx == -1 <==> !InHeap(a, e)
      ensures e.heapIdx != -1 ==> 0 <= e.heapIdx < |a| && a[e.heapIdx] == HeapItem(Deadlines(a)[e], e)
    {
      RefsDistinct(es);
      hide Deadlines, DistinctRefs, HeapOrdered;
      TellsDeadlines(a);
    }

    // A new entry has no deadline.
    lemma TimedMore(es: set<Entry>, e: Entry)
      requires Timed(es) && e !in es && e.heapIdx == -1
      ensures Timed(es + {e}) && e !in Deadlines(a)
    {
      Finds(es);
    }

    // An entry without a deadline can go.
    lemma TimedLess(es: set<Entry>, e: Entry)
      requires Timed(es) && e !in Deadlines(a)
      ensures Timed(es - {e})
    {
      Finds(es);
    }

    // The first item is the earliest deadline of all.
    lemma Earliest(es: set<Entry>)
      requires Timed(es)
      ensures a == [] <==> Deadlines(a) == map[]
      ensures Deadlines(a).Keys <= es
      ensures a != [] ==>
        (a[0].ref in Deadlines(a) && Deadlines(a)[a[0].ref] == a[0].val &&
        forall e :: e in Deadlines(a) ==> a[0].val <= Deadlines(a)[e])
    {
      RefsDistinct(es);
      TellsDeadlines(a);
      hide Deadlines, DistinctRefs;
      forall e | e in Deadlines(a) ensures a[0].val <= Deadlines(a)[e] {
        var i :| 0 <= i < |a| && a[i].ref == e;
        RootIsLeast(a, i);
      }
      assert a != [] ==> a[0].ref in Deadlines(a);
    }

    // entry_set_ttl: a negative ttl removes the deadline.
    method SetTtl(e: Entry, ttl: int, now: nat, ghost es: set<Entry>)
      requires Timed(es) && e in es
      modifies this, es`heapIdx
      ensures Timed(es)
      ensures Deadlines(a) == if ttl < 0 then old(Deadlines(a)) - {e} else old(Deadlines(a))[e := now + ttl]
    {
      hide Valid, Deadlines;
      TimedFacts(es, e);
      if ttl < 0 && e.heapIdx != -1 {
        ForgetTtl(e, es);
      } else if ttl >= 0 {
        PutTtl(e, now + ttl, es);
      }
    }

    // Distinct items have distinct refs, since each ref leads back to its index.
    lemma RefsDistinct(es: set<Entry>)
      requires Valid(es)
      ensures DistinctRefs(a)
    {
    }

    // heap_update: the order is violated around pos only.
    method Update(pos: nat, ghost es: set<Entry>)
      requires pos < |a| && Within(a, es) && OrderedBut(a, pos) && DistinctRefs(a) && RefsBut(a, pos)
      modifies this, es`heapIdx
      ensures Valid(es) && |a| == |old(a)| && multiset(a) == multiset(old(a)) && Deadlines(a) == Deadlines(old(a))
      ensures forall e :: e in es && !InHeap(old(a), e) ==> e.heapIdx == old(e.heapIdx)
    {
      hide DistinctRefs, HeapOrdered, InHeap, Deadlines;
      if pos > 0 && a[Parent(pos)].val > a[pos].val {
        ViolatedAbove(a, pos);
        Up(pos, es);
      } else {
        ViolatedBelow(a, pos);
        Down(pos, es);
      }
      RefsDistinct(es);
      DeadlinesPermuted(old(a), a);
    }

    // heap_delete
    method Delete(pos: nat, ghost es: set<Entry>)
      requires Valid(es) && pos < |a|
      modifies this, es`heapIdx
      ensures Valid(es) && |a| == |old(a)| - 1 && Deadlines(a) == old(Deadlines(a)) - {old(a)[pos].ref}
      ensures forall e :: e in es && !InHeap(old(a), e) ==> e.heapIdx == old(e.heapIdx)
      ensures old(a)[pos].ref.heapIdx == old(a[pos].ref.heapIdx)
    {
      hide HeapOrdered, OrderedBut, Deadlines, DistinctRefs, InHeap, Within, RefsBut;
      RefsDistinct(es);
      ErasedOrdered(a, pos);
      ErasedDeadlines(a, pos);
      ErasedIn(a, pos);
      ErasedRefs(a, pos, es);
      a := a[pos := a[|a| - 1]];
      a := a[..|a| - 1];
      if pos < |a| {
        Update(pos, es);
      }
    }

    // heap_upsert.  pos is an index of the item to replace, or beyond the end
    // (the index -1 is so in size_t).
    method Upsert(pos: int, t: HeapItem, ghost es: set<Entry>)
      requires Valid(es) && t.ref in es
      requires if 0 <= pos < |a| then a[pos].ref == t.ref else !InHeap(a, t.ref)
      modifies this, es`heapIdx
      ensures Valid(es) && Deadlines(a) == old(Deadlines(a))[t.ref := t.val]
      ensures forall e :: e in es && !InHeap(old(a), e) && e != t.ref ==> e.heapIdx == old(e.heapIdx)
    {
      hide HeapOrdered, OrderedBut, Deadlines, DistinctRefs, InHeap, Within, RefsBut;
      RefsDistinct(es);
      PutOrdered(a, pos, t);
      PutDeadlines(a, pos, t);
      PutIn(a, pos, t);
      PutRefs(a, pos, t, es);
      var i := pos;
      if 0 <= pos < |a| {
        a := a[pos := t];
      } else {
        i := |a|;
        a := a + [t];
      }
      Update(i, es);
    }

    // Whoever has an item finds it.
    lemma Finds(es: set<Entry>)
      requires Valid(es)
      ensures forall e :: e in Deadlines(a) ==> 0 <= e.heapIdx < |a| && a[e.heapIdx].ref == e
      ensures forall e :: InHeap(a, e) <==> e in Deadlines(a)
    {
      RefsDistinct(es);
      TellsDeadlines(a);
      hide Deadlines;
    }

    lemma Unlisted(es: set<Entry>)
      requires Timed(es)
      ensures forall e :: e in es && e !in Deadlines(a) ==> e.heapIdx == -1 && !InHeap(a, e)
    {
      RefsDistinct(es);
      TellsDeadlines(a);
      hide Deadlines;
    }

    method ForgetTtl(e: Entry, ghost es: set<Entry>)
      requires Timed(es) && 0 <= e.heapIdx < |a| && a[e.heapIdx].ref == e && e in es
      modifies this, es`heapIdx
      ensures Timed(es) && Deadlines(a) == old(Deadlines(a)) - {e}
    {
      hide Valid, Deadlines, InHeap;
      Unlisted(es);
      Delete(e.heapIdx, es);
      Finds(es);
      Mark(e, es);
    }

    // ent->heap_idx = -1
    method Mark(e: Entry, ghost es: set<Entry>)
      requires Valid(es) && !InHeap(a, e)
      modifies e`heapIdx
      ensures Valid(es) && e.heapIdx == -1
    {
      e.heapIdx := -1;
    }

    method PutTtl(e: Entry, expireAt: nat, ghost es: set<Entry>)
      requires Timed(es) && e in es
      modifies this, es`heapIdx
      ensures Timed(es) && Deadlines(a) == old(Deadlines(a))[e := expireAt]
    {
      hide Valid, Deadlines, InHeap;
      TimedFacts(es, e);
      Unlisted(es);
      Upsert(e.heapIdx, HeapItem(expireAt, e), es);
      Finds(es);
    }
  }
}
