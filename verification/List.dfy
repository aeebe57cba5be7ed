// The circular doubly linked list of inc/server/list.h.  Its nodes are embedded
// in the elements they belong to; owner stands for container_of.

module List {
  import opened Basics
  import opened Seqs

  class DList<T> {
    var prev: DList?<T>
    var next: DList?<T>
    const owner: Option<T>

    constructor (owner: Option<T>)
      ensures this.owner == owner
    {
      this.owner := owner;
      prev, next := null, null;
    }
  }

  ghost function Next<T>(s: seq<DList<T>>, i: nat): DList<T>
    requires i < |s|
  {
    if i + 1 < |s| then s[i + 1] else s[0]
  }

  ghost function Prev<T>(s: seq<DList<T>>, i: nat): DList<T>
    requires i < |s|
  {
    if i > 0 then s[i - 1] else s[|s| - 1]
  }

  // Going round from s[0] meets the nodes of s, forwards and backwards.
  ghost predicate Ring<T>(s: seq<DList<T>>)
    reads s
  {
    |s| > 0 && NoDup(s) &&
    forall i {:trigger s[i].next} {:trigger s[i].prev} :: 0 <= i < |s| ==>
      s[i].next == Next(s, i) && s[i].prev == Prev(s, i)
  }

  // dlist_init
  method Init<T>(node: DList<T>)
    modifies node
    ensures Ring([node])
  {
    node.prev, node.next := node, node;
  }

  // dlist_empty
  method Empty<T>(node: DList<T>, ghost s: seq<DList<T>>) returns (r: bool)
    requires Ring(s) && node == s[0]
    ensures r == (|s| == 1)
  {
    r := node.next == node;
  }

  lemma OnePlace<T>(s: seq<DList<T>>, i: nat)
    requires NoDup(s) && i < |s|
    ensures forall j :: 0 <= j < |s| && s[j] == s[i] ==> j == i
  {
  }

  // The index after i, going round.
  ghost function After<T>(s: seq<T>, i: nat): (r: nat)
    requires i < |s|
    ensures r < |s|
  {
    if i + 1 < |s| then i + 1 else 0
  }

  lemma DetachRing<T>(s: seq<DList<T>>, k: nat)
    requires NoDup(s) && 0 < k < |s|
    requires forall i {:trigger s[i].next} {:trigger s[i].prev} :: 0 <= i < |s| && i != k ==>
      s[i].next == Next(s, if i == k - 1 then k else i) && s[i].prev == Prev(s, if i == After(s, k) then k else i)
    ensures Ring(Without(s, k))
  {
    var t := Without(s, k);
    WithoutElems(s, k);
    hide NoDup, Elems;
    forall i | 0 <= i < |t| ensures t[i].next == Next(t, i) && t[i].prev == Prev(t, i) {
      assert t[i] == s[if i < k then i else i + 1];
    }
  }

  // dlist_detach
  method Detach<T>(node: DList<T>, ghost s: seq<DList<T>>, ghost k: nat)
    requires Ring(s) && 0 < k < |s| && node == s[k]
    modifies s
    ensures Ring(Without(s, k))
  {
    hide NoDup;
    OnePlace(s, k - 1);
    OnePlace(s, After(s, k));
    var prev, next := node.prev, node.next;
    prev.next := next;
    next.prev := prev;
    DetachRing(s, k);
  }

  // s with x before its k-th element; before the first means behind the last.
  ghost function Inserted<T>(s: seq<T>, k: nat, x: T): seq<T>
    requires k < |s|
  {
    if k == 0 then s + [x] else s[..k] + [x] + s[k..]
  }

  lemma InsertNoDup<T>(s: seq<T>, k: nat, x: T)
    requires NoDup(s) && k < |s| && x !in s
    ensures NoDup(Inserted(s, k, x))
  {
    if k == 0 {
      NoDupAround(s, x, []);
      assert s + [x] + [] == s + [x];
    } else {
      assert s == s[..k] + s[k..];
      NoDupConcat(s[..k], s[k..]);
      NoDupAround(s[..k], x, s[k..]);
    }
  }

  lemma InsertRing<T>(s: seq<DList<T>>, k: nat, x: DList<T>)
    requires NoDup(s) && k < |s| && x !in s && x.next == s[k] && x.prev == Prev(s, k)
    requires forall i {:trigger s[i].next} {:trigger s[i].prev} :: 0 <= i < |s| ==>
      s[i].next == (if After(s, i) == k then x else Next(s, i)) && s[i].prev == (if i == k then x else Prev(s, i))
    ensures Ring(Inserted(s, k, x))
  {
    InsertNoDup(s, k, x);
    hide NoDup;
    var t := Inserted(s, k, x);
    forall i | 0 <= i < |t| ensures t[i].next == Next(t, i) && t[i].prev == Prev(t, i) {
      if k == 0 {
        if i < |s| { assert t[i] == s[i]; }
      } else if i != k {
        assert t[i] == s[if i < k then i else i - 1];
      }
    }
  }

  // dlist_insert_before
  method InsertBefore<T>(target: DList<T>, rookie: DList<T>, ghost s: seq<DList<T>>, ghost k: nat)
    requires Ring(s) && k < |s| && target == s[k] && rookie !in s
    modifies s, rookie
    ensures Ring(Inserted(s, k, rookie))
  {
    hide NoDup;
    OnePlace(s, k);
    OnePlace(s, if k == 0 then |s| - 1 else k - 1);
    var prev := target.prev;
    prev.next := rookie;
    rookie.prev := prev;
    rookie.next := target;
    target.prev := rookie;
    InsertRing(s, k, rookie);
  }
}
