// The store of lib/server/key_value.cpp: the db map from keys to entries, the
// TTL heap over the same entries, and a sorted set inside some of them.

module Stores {
  import opened Basics
  import opened Seqs
  import opened Order
  import opened Entries
  import opened Heap
  import opened Commands
  import Z = ZSets
  import H = HashTable

  type Node = H.HNode<Entry>

  const LARGE_CONTAINER_SIZE: nat := 1000

  // ----- One entry -----

  // fp holds the objects of the entry's sorted set.
  ghost predicate Sound(e: Entry, fp: set<object>)
    reads e`value, fp
  {
    e.value.Scored? ==> e.value.zset in fp && e.value.zset.Repr <= fp && e.value.zset.Valid()
  }

  ghost function DatumOf(e: Entry, fp: set<object>): Datum
    requires Sound(e, fp)
    reads e`value, fp
  {
    match e.value
    case Text(s) => Plain(s)
    case Scored(z) => Scores(z.Contents())
  }

  lemma SoundSet(e: Entry, fp: set<object>, z: Z.ZSet)
    requires e.value == Scored(z) && z in fp && z.Repr <= fp && z.Valid()
    ensures Sound(e, fp) && DatumOf(e, fp) == Scores(z.Contents())
  {
  }

  ghost function Expiry(ttl: map<Entry, nat>, e: Entry): Option<nat> {
    if e in ttl then Some(ttl[e]) else None
  }

  ghost predicate Large(d: Datum) {
    d.Scores? && |d.scores| > LARGE_CONTAINER_SIZE
  }

  // ----- All entries -----

  // foot tells which objects belong to which entry: none to two of them, none
  // is an entry, and none belongs to the rest.
  ghost predicate Apart(foot: map<Entry, set<object>>, rest: set<object>) {
    (forall e {:trigger foot[e]} :: e in foot ==> e !in rest && foot[e] !! rest && foot[e] !! foot.Keys) &&
    forall e, f {:trigger foot[e], foot[f]} :: e in foot && f in foot && e != f ==> foot[e] !! foot[f]
  }

  ghost predicate Covers(foot: map<Entry, set<object>>, all: set<object>) {
    forall e {:trigger foot[e]} :: e in foot ==> e in all && foot[e] <= all
  }

  // The map's nodes are embedded in the entries: one for each key, with its hash.
  ghost predicate Keyed(handle: map<Bytes, Node>, hs: set<Node>) {
    (forall h {:trigger h in hs} :: h in hs ==>
      h.owner.key in handle && handle[h.owner.key] == h && h.hcode == StrHash(h.owner.key)) &&
    forall k {:trigger k in handle} :: k in handle ==> handle[k] in hs && handle[k].owner.key == k
  }

  ghost predicate Owned(handle: map<Bytes, Node>, es: set<Entry>) {
    (forall k {:trigger k in handle} :: k in handle ==> handle[k].owner in es && handle[k].owner.key == k) &&
    forall e {:trigger e in es} :: e in es ==> e.key in handle && handle[e.key].owner == e
  }

  ghost function ByKey(handle: map<Bytes, Node>, items: map<Entry, Item>): Db
    requires Owned(handle, items.Keys)
  {
    map k | k in handle :: items[handle[k].owner]
  }

  lemma ByKeyPut(handle: map<Bytes, Node>, items: map<Entry, Item>, e: Entry, item: Item)
    requires Owned(handle, items.Keys) && e in items
    ensures items[e := item].Keys == items.Keys && e.key in handle
    ensures ByKey(handle, items[e := item]) == ByKey(handle, items)[e.key := item]
  {
    assert items[e := item].Keys == items.Keys;
  }

  lemma ByKeyAdd(handle: map<Bytes, Node>, items: map<Entry, Item>, e: Entry, item: Item, h: Node)
    requires Owned(handle, items.Keys) && e.key !in handle && h.owner == e
    ensures e !in items && items[e := item].Keys == items.Keys + {e}
    ensures Owned(handle[e.key := h], items.Keys + {e})
    ensures ByKey(handle[e.key := h], items[e := item]) == ByKey(handle, items)[e.key := item]
  {
    assert items[e := item].Keys == items.Keys + {e};
  }

  lemma ByKeyDrop(handle: map<Bytes, Node>, items: map<Entry, Item>, e: Entry)
    requires Owned(handle, items.Keys) && e in items
    ensures Owned(handle - {e.key}, (items - {e}).Keys) && (items - {e}).Keys == items.Keys - {e}
    ensures ByKey(handle - {e.key}, items - {e}) == ByKey(handle, items) - {e.key}
  {
    assert (items - {e}).Keys == items.Keys - {e};
  }

  lemma KeyedInsert(handle: map<Bytes, Node>, hs: set<Node>, key: Bytes, h: Node)
    requires Keyed(handle, hs) && key !in handle && h.owner.key == key && h.hcode == StrHash(key)
    ensures Keyed(handle[key := h], hs + {h}) && h !in hs
  {
    hide StrHash;
  }

  lemma KeyedDelete(handle: map<Bytes, Node>, hs: set<Node>, key: Bytes)
    requires Keyed(handle, hs) && key in handle
    ensures handle[key] in hs && handle[key].hcode == StrHash(key)
    ensures forall h :: h in hs ==> (h.owner.key == key <==> h == handle[key])
    ensures forall h :: h in hs ==> (h.owner == handle[key].owner <==> h == handle[key])
    ensures Keyed(handle - {key}, hs - {handle[key]})
  {
    hide StrHash;
  }

  lemma KeyedMissing(handle: map<Bytes, Node>, hs: set<Node>, key: Bytes)
    requires Keyed(handle, hs) && key !in handle
    ensures forall h :: h in hs ==> h.owner.key != key
  {
    hide StrHash;
  }

  lemma ApartInsert(foot: map<Entry, set<object>>, rest: set<object>, e: Entry, fp: set<object>, all: set<object>)
    requires Apart(foot, rest) && Covers(foot, all) && rest <= all
    requires e !in all && fp !! all && e !in fp
    ensures Apart(foot[e := fp], rest)
  {
  }

  // A sorted set grows by new objects.
  lemma ApartGrow(foot: map<Entry, set<object>>, rest: set<object>, e: Entry, more: set<object>, all: set<object>)
    requires Apart(foot, rest) && Covers(foot, all) && rest <= all && e in foot && more !! all
    ensures Apart(foot[e := foot[e] + more], rest)
  {
  }

  // The entries handed to the thread pool and the objects of their sorted sets:
  // no two share any, so that their destructors do not meet.
  ghost predicate HandedOver(dropped: seq<Entry>, given: seq<set<object>>, lent: set<object>) {
    |given| == |dropped| &&
    (forall i {:trigger dropped[i]} {:trigger given[i]} :: 0 <= i < |dropped| ==>
      dropped[i] in lent && given[i] <= lent) &&
    (forall i, j {:trigger dropped[i], given[j]} :: 0 <= i < |dropped| && 0 <= j < |dropped| ==>
      dropped[i] !in given[j]) &&
    forall i, j :: 0 <= i < j < |dropped| ==> dropped[i] != dropped[j] && given[i] !! given[j]
  }

  lemma GivenIn(dropped: seq<Entry>, given: seq<set<object>>, lent: set<object>)
    requires HandedOver(dropped, given, lent)
    ensures given != [] ==> given[|given| - 1] <= lent
  {
  }

  lemma HandOneOver(dropped: seq<Entry>, given: seq<set<object>>, lent: set<object>, e: Entry, fp: set<object>)
    requires HandedOver(dropped, given, lent) && e !in lent && fp !! lent && e !in fp
    ensures HandedOver(dropped + [e], given + [fp], lent + {e} + fp)
  {
  }

  // zset_lookup and zset_delete, as in do_zrem.
  method RemoveName(z: Z.ZSet, name: Bytes) returns (found: bool)
    requires z.Valid()
    modifies z.Repr
    ensures z.Valid() && fresh(z.Repr - old(z.Repr))
    ensures found == (name in old(z.Contents())) && z.Contents() == old(z.Contents()) - {name}
  {
    hide Z.ZSet.Valid, Z.ZSet.Contents, Z.AvlTree.Nodes, Z.ZSet.MapValid, Z.Indexed;
    z.Parts();
    var node := z.Lookup(name);
    z.Named(name);
    found := node != null;
    if node != null {
      z.Delete(node);
    }
  }

  // zset_lookup, as in do_zscore.
  method FindScore(z: Z.ZSet, name: Bytes) returns (score: Option<real>)
    requires z.Valid()
    modifies z.Repr
    ensures z.Valid() && fresh(z.Repr - old(z.Repr)) && z.Contents() == old(z.Contents())
    ensures score == if name in z.Contents() then Some(z.Contents()[name]) else None
  {
    hide Z.ZSet.Valid, Z.ZSet.Contents, Z.AvlTree.Nodes;
    z.Parts();
    var node := z.Lookup(name);
    z.Named(name);
    score := if node != null then Some(node.score) else None;
  }

  class Store {
    const db: H.HMap<Entry>
    const heap: TtlHeap
    // The entries handed to the thread pool for destruction, and the objects of
    // their sorted sets; Lent has all of them.
    var dropped: seq<Entry>
    ghost var given: seq<set<object>>
    ghost var Lent: set<object>
    ghost var handle: map<Bytes, Node>
    ghost var foot: map<Entry, set<object>>
    // What the entries and the heap consist of.
    ghost var Cells: set<object>

    // The entries and the heap agree.
    ghost predicate Held()
      reads this`foot, this`Cells, Cells
    {
      this !in Cells && heap in Cells && Covers(foot, Cells) && Apart(foot, {heap}) && heap.Timed(foot.Keys) &&
      forall e {:trigger foot[e]} :: e in foot ==> Sound(e, foot[e])
    }

    ghost function Items(): (r: map<Entry, Item>)
      requires Held()
      reads this`foot, this`Cells, Cells
      ensures r.Keys == foot.Keys
    {
      map e | e in foot :: Item(DatumOf(e, foot[e]), Expiry(Deadlines(heap.a), e))
    }

    ghost function Repr(): set<object>
      reads this`Cells, db
    {
      {this, db} + Cells + db.Repr
    }

    // All that the store has to do with, and the pool's part of it.
    ghost function World(): set<object>
      reads this`Cells, this`Lent, db
    {
      Repr() + Lent
    }

    // What has been handed to the pool is none of the store's business.
    ghost predicate Away()
      reads this`dropped, this`given, this`Lent, this`Cells, db
    {
      HandedOver(dropped, given, Lent) && Lent !! Repr()
    }

    // New objects are taken in, and more entries are handed over, none back.
    twostate predicate Onward()
      reads this`dropped, this`given, this`Lent, this`Cells, db
    {
      fresh(Repr() - old(Repr())) && fresh(World() - old(World())) && old(dropped) <= dropped && old(given) <= given
    }

    // What becomes of an entry that is given up: it is handed over, after those
    // that were before and as it is, exactly if its sorted set is large.
    ghost predicate Disposed(e: Entry, d: Datum, before: seq<Entry>, gave: seq<set<object>>)
      reads this`dropped, this`given, e`value, if given == [] then {} else given[|given| - 1]
    {
      if Large(d) then
        given != [] && (var fp := given[|given| - 1];
        dropped == before + [e] && given == gave + [fp] && Sound(e, fp) && DatumOf(e, fp) == d)
      else dropped == before && given == gave
    }

    ghost predicate Zones()
      reads this`Cells, db
    {
      this !in Cells && db !in Cells && this !in db.Repr && Cells !! db.Repr
    }

    // The map knows exactly the entries.
    ghost predicate Valid()
      reads this`foot, this`Cells, this`handle, this`dropped, this`given, this`Lent, db, db.Repr, Cells
    {
      Zones() && db.Valid() && Keyed(handle, db.Nodes()) && Owned(handle, foot.Keys) && Held() && Away()
    }

    // The plain map that the store stands for.
    ghost function Model(): Db
      requires Valid()
      reads this`foot, this`Cells, this`handle, this`dropped, this`given, this`Lent, db, db.Repr, Cells
    {
      ByKey(handle, Items())
    }

    constructor ()
      ensures Valid() && fresh(World()) && Model() == map[] && dropped == []
    {
      hide H.HMap.Valid, Valid, Model;
      var d := new H.HMap();
      var t := new TtlHeap();
      db, heap, dropped, handle, foot := d, t, [], map[], map[];
      Cells, given, Lent := {t}, [], {};
      new;
      StartsEmpty();
    }

    lemma StartsEmpty()
      requires foot == map[] && handle == map[] && Cells == {heap} && dropped == [] && given == [] && Lent == {}
      requires db.Valid() && db.Nodes() == {} && this !in db.Repr && heap !in db.Repr && heap.Timed({})
      ensures Valid() && Model() == map[]
    {
      hide H.HMap.Valid, TtlHeap.Timed;
      assert foot.Keys == {};
      assert Zones() && Held() && Away();
    }

    lemma CellsHold()
      requires Held()
      ensures heap in Cells && foot.Keys <= Cells
    {
    }

    // ----- The entries and the heap -----

    // entry_new
    ghost method Adopt(e: Entry, fp: set<object>)
      requires Held() && Sound(e, fp) && e.heapIdx == -1 && e !in Cells && fp !! Cells
      requires e !in fp && this !in fp
      modifies this`foot, this`Cells
      ensures Held() && foot == old(foot)[e := fp] && Cells == old(Cells) + {e} + fp
      ensures Items() == old(Items())[e := Item(DatumOf(e, fp), None)]
    {
      hide TtlHeap.Timed, Sound, DatumOf, Deadlines;
      assert e !in foot;
      heap.TimedMore(foot.Keys, e);
      ApartInsert(foot, {heap}, e, fp, Cells);
      foot := foot[e := fp];
      Cells := Cells + {e} + fp;
      assert foot.Keys == old(foot.Keys) + {e};
    }

    // A string replaces the value of an entry.
    method SetText(e: Entry, s: Bytes)
      requires Held() && e in foot
      modifies e`value
      ensures Held() && Items() == old(Items())[e := Item(Plain(s), old(Items())[e].expire)]
    {
      hide TtlHeap.Timed, Deadlines, Expiry;
      e.value := Text(s);
    }

    // Held, but for the sorted set of e.
    ghost predicate HeldBut(e: Entry)
      reads this`foot, this`Cells, Cells - (if e in foot then foot[e] else {})
    {
      this !in Cells && heap in Cells && Covers(foot, Cells) && Apart(foot, {heap}) && heap.Timed(foot.Keys) &&
      forall f {:trigger foot[f]} :: f in foot && f != e ==> Sound(f, foot[f])
    }

    ghost function ItemsBut(e: Entry): map<Entry, Item>
      requires HeldBut(e)
      reads this`foot, this`Cells, Cells - (if e in foot then foot[e] else {})
    {
      map f | f in foot && f != e :: Item(DatumOf(f, foot[f]), Expiry(Deadlines(heap.a), f))
    }

    ghost function ExpiryOf(e: Entry): Option<nat>
      reads heap
    {
      Expiry(Deadlines(heap.a), e)
    }

    lemma Focus(e: Entry)
      requires Held() && e in foot
      ensures HeldBut(e) && Sound(e, foot[e]) && this !in Cells
      ensures foot[e] <= Cells && foot[e] !! foot.Keys && heap !in foot[e]
      ensures Items() == ItemsBut(e)[e := Item(DatumOf(e, foot[e]), ExpiryOf(e))]
    {
      hide TtlHeap.Timed, Sound, DatumOf, Deadlines, Expiry;
    }

    lemma Whole(e: Entry)
      requires HeldBut(e) && e in foot && Sound(e, foot[e])
      ensures Held() && Items() == ItemsBut(e)[e := Item(DatumOf(e, foot[e]), ExpiryOf(e))]
    {
      hide TtlHeap.Timed, Sound, DatumOf, Deadlines, Expiry, Apart;
    }

    ghost method Grow(e: Entry, more: set<object>)
      requires HeldBut(e) && e in foot && more !! Cells && this !in more
      modifies this`foot, this`Cells
      ensures HeldBut(e) && foot == old(foot)[e := old(foot)[e] + more] && Cells == old(Cells) + more
      ensures ItemsBut(e) == old(ItemsBut(e))
    {
      hide TtlHeap.Timed, Sound, DatumOf, Deadlines, Expiry, Apart;
      ApartGrow(foot, {heap}, e, more, Cells);
      foot := foot[e := foot[e] + more];
      Cells := Cells + more;
      assert foot.Keys == old(foot.Keys);
    }

    // The sorted set of e has changed, and may have grown by new objects.
    ghost method Unfocus(e: Entry, z: Z.ZSet)
      requires HeldBut(e) && e in foot && e.value == Scored(z) && z in foot[e] && z.Valid()
      requires z.Repr - foot[e] !! Cells && this !in z.Repr
      modifies this`foot, this`Cells
      ensures Held() && foot.Keys == old(foot.Keys) && Cells == old(Cells) + (z.Repr - old(foot)[e])
      ensures Items() == old(ItemsBut(e))[e := Item(Scores(z.Contents()), ExpiryOf(e))]
    {
      hide Held, HeldBut, Items, ItemsBut, ExpiryOf, Sound, DatumOf, Z.ZSet.Valid;
      Grow(e, z.Repr - foot[e]);
      SoundSet(e, foot[e], z);
      Whole(e);
    }

    method ZAddAt(e: Entry, name: Bytes, score: real) returns (added: bool)
      requires Held() && e in foot && e.value.Scored?
      modifies foot[e], this`foot, this`Cells
      ensures Held() && fresh(Cells - old(Cells)) && foot.Keys == old(foot.Keys)
      ensures var was := old(Items())[e];
        was.datum.Scores? && added == (name !in was.datum.scores) &&
        Items() == old(Items())[e := Item(Scores(was.datum.scores[name := score]), was.expire)]
    {
      hide Held, HeldBut, Items, ItemsBut, Z.ZSet.Valid, Z.ZSet.Contents, ExpiryOf;
      Focus(e);
      var z := e.value.zset;
      added := z.Insert(name, score);
      Unfocus(e, z);
    }

    method ZRemAt(e: Entry, name: Bytes) returns (found: bool)
      requires Held() && e in foot && e.value.Scored?
      modifies foot[e], this`foot, this`Cells
      ensures Held() && fresh(Cells - old(Cells)) && foot.Keys == old(foot.Keys)
      ensures var was := old(Items())[e];
        was.datum.Scores? && found == (name in was.datum.scores) &&
        Items() == old(Items())[e := Item(Scores(was.datum.scores - {name}), was.expire)]
    {
      hide Held, HeldBut, Items, ItemsBut, Z.ZSet.Valid, Z.ZSet.Contents, ExpiryOf;
      Focus(e);
      var z := e.value.zset;
      found := RemoveName(z, name);
      Unfocus(e, z);
    }

    method ZScoreAt(e: Entry, name: Bytes) returns (score: Option<real>)
      requires Held() && e in foot && e.value.Scored?
      modifies foot[e], this`foot, this`Cells
      ensures Held() && fresh(Cells - old(Cells)) && foot.Keys == old(foot.Keys) && Items() == old(Items())
      ensures var was := old(Items())[e];
        was.datum.Scores? && score == if name in was.datum.scores then Some(was.datum.scores[name]) else None
    {
      hide Held, HeldBut, Items, ItemsBut, Z.ZSet.Valid, Z.ZSet.Contents, ExpiryOf;
      Focus(e);
      var z := e.value.zset;
      score := FindScore(z, name);
      Unfocus(e, z);
    }

    method ZQueryAt(e: Entry, score: real, name: Bytes, offset: int64, limit: int64)
      returns (pairs: seq<Pair>, n: int64, ghost all: seq<Pair>)
      requires Held() && e in foot && e.value.Scored? && Countable(Items()[e].datum)
      ensures var d := Items()[e].datum; d.Scores? && Lists(all, d.scores)
      ensures pairs == Slice(all, Pair(score, name), offset as int, limit as int) && n as int == 2 * |pairs|
    {
      hide Held, HeldBut, Items, ItemsBut, Z.ZSet.Valid, Z.ZSet.Contents, ExpiryOf, Slice;
      Focus(e);
      var z := e.value.zset;
      pairs, n := z.Query(score, name, offset, limit);
      z.ListingIs();
      all := z.Listing();
    }

    // entry_set_ttl
    method SetTtl(e: Entry, ttl: int, now: nat)
      requires Held() && e in foot
      modifies heap, foot.Keys`heapIdx
      ensures Held() && ExpiryOf(e) == if ttl < 0 then None else Some(now + ttl)
      ensures Items() == old(Items())[e := Item(old(Items())[e].datum, ExpiryOf(e))]
    {
      hide TtlHeap.Timed, Sound, DatumOf, Deadlines;
      heap.SetTtl(e, ttl, now, foot.Keys);
    }

    ghost method Abandon(e: Entry)
      requires Held() && e in foot && e !in Deadlines(heap.a)
      modifies this`foot, this`Cells
      ensures Held() && foot == old(foot) - {e} && Items() == old(Items()) - {e}
      ensures Cells == old(Cells) - {e} - old(foot)[e]
    {
      hide TtlHeap.Timed, Sound, DatumOf, Deadlines;
      heap.TimedLess(foot.Keys, e);
      Cells := Cells - {e} - foot[e];
      foot := foot - {e};
      assert foot.Keys == old(foot.Keys) - {e};
    }

    // The tuples of a sorted set, or 0.
    method SizeOf(e: Entry) returns (size: nat)
      requires Held() && e in foot
      ensures var d := Items()[e].datum; size == if d.Scores? then |d.scores| else 0
    {
      hide Held, Items, HeldBut, ItemsBut, Deadlines, Z.ZSet.Valid, Z.ZSet.Contents;
      Focus(e);
      size := 0;
      if e.value.Scored? {
        size := e.value.zset.Size();
      }
    }

    // thread_pool_queue of the entry's destructor, if its sorted set is large.
    method Dispose(e: Entry)
      requires Held() && e in foot && HandedOver(dropped, given, Lent) && Lent !! Cells
      modifies this`dropped, this`given, this`Lent
      ensures HandedOver(dropped, given, Lent) && Lent !! Cells - {e} - foot[e]
      ensures old(Lent) <= Lent <= old(Lent) + {e} + foot[e]
      ensures Disposed(e, Items()[e].datum, old(dropped), old(given))
    {
      hide Held, Items, HeldBut, ItemsBut, Sound, DatumOf, Deadlines, HandedOver;
      Focus(e);
      CellsHold();
      var size := SizeOf(e);
      if size > LARGE_CONTAINER_SIZE {
        HandOneOver(dropped, given, Lent, e, foot[e]);
        dropped, given, Lent := dropped + [e], given + [foot[e]], Lent + {e} + foot[e];
      }
    }

    // entry_del: the entry loses its heap item; a large sorted set is left to
    // the thread pool.
    method EntryDel(e: Entry)
      requires Held() && e in foot && HandedOver(dropped, given, Lent) && Lent !! Cells && this !in Lent
      modifies heap, foot.Keys`heapIdx, this`foot, this`Cells, this`dropped, this`given, this`Lent
      ensures Held() && foot == old(foot) - {e} && Items() == old(Items()) - {e}
      ensures Disposed(e, old(Items())[e].datum, old(dropped), old(given)) && HandedOver(dropped, given, Lent)
      ensures Cells <= old(Cells) && Lent !! Cells && old(Lent) <= Lent <= old(Lent) + old(Cells)
    {
      hide Held, Items, Deadlines, HandedOver, Disposed;
      CellsHold();
      SetTtl(e, -1, 0);
      FootHeld(e);
      Dispose(e);
      GivenIn(dropped, given, Lent);
      Abandon(e);
    }

    lemma FootHeld(e: Entry)
      requires Held() && e in foot
      ensures foot[e] <= Cells && this !in Cells
    {
    }

    // hm_lookup by key
    method Lookup(key: Bytes) returns (e: Entry?)
      requires Valid()
      modifies db.Repr
      ensures Valid() && Onward() && Model() == old(Model())
      ensures e == null <==> key !in handle
      ensures e != null ==> e == handle[key].owner
    {
      hide H.HMap.Valid, StrHash, Held, Items, Keyed, Owned, ByKey;
      if key in handle {
        KeyedDelete(handle, db.Nodes(), key);
      } else {
        KeyedMissing(handle, db.Nodes(), key);
      }
      var found := db.Lookup(StrHash(key), (h: Node) => h.owner.key == key);
      e := if found == null then null else found.owner;
    }

    lemma ModelAt(key: Bytes)
      requires Valid()
      ensures key in Model() <==> key in handle
      ensures key in handle ==>
        (var e := handle[key].owner;
        e in foot && e.key == key && e in Cells && foot[e] <= Cells && Model()[key] == Items()[e])
    {
      hide H.HMap.Valid, StrHash, TtlHeap.Timed, Sound, Items, Apart;
    }

    // hm_insert
    method Attach(e: Entry) returns (ghost h: Node)
      requires Valid() && e.key !in handle
      modifies db.Repr, this`handle
      ensures fresh(db.Repr - old(db.Repr)) && db.Valid() && Keyed(handle, db.Nodes())
      ensures h.owner == e && handle == old(handle)[e.key := h]
    {
      hide H.HMap.Valid, StrHash, Held, Items, Keyed, Owned, ByKey;
      var node := new H.HNode(e, StrHash(e.key));
      h := node;
      KeyedInsert(handle, db.Nodes(), e.key, h);
      db.Insert(node);
      handle := handle[e.key := h];
    }

    // hm_insert of a new entry.
    method InsertNew(e: Entry, ghost fp: set<object>)
      requires Valid() && e.key !in handle && Sound(e, fp) && e.heapIdx == -1
      requires e !in World() && fp !! World() && e !in fp
      modifies db.Repr, this`handle, this`foot, this`Cells
      ensures Valid() && fresh(Repr() - old(Repr()) - fp - {e})
      ensures dropped == old(dropped) && given == old(given) && Lent == old(Lent)
      ensures foot == old(foot)[e := fp]
      ensures Sound(e, fp) && Model() == old(Model())[e.key := Item(DatumOf(e, fp), None)]
    {
      hide H.HMap.Valid, StrHash, Held, Items, Keyed, Owned, ByKey, DatumOf, Sound;
      ghost var h := Attach(e);
      Adopt(e, fp);
      ByKeyAdd(old(handle), old(Items()), e, Item(DatumOf(e, fp), None), h);
    }

    // hm_delete of the node with this key, by whatever eq tells it apart.
    method Detach(key: Bytes, hcode: nat, eq: Node -> bool) returns (node: H.HNode?<Entry>)
      requires Valid()
      requires forall h :: h in db.Nodes() ==> (h.hcode == hcode && eq(h) <==> key in handle && h == handle[key])
      modifies db.Repr, this`handle
      ensures fresh(db.Repr - old(db.Repr)) && db.Valid() && Keyed(handle, db.Nodes()) && handle == old(handle) - {key}
      ensures node == if key in old(handle) then old(handle)[key] else null
    {
      hide H.HMap.Valid, StrHash, Held, Items, Keyed, Owned, ByKey;
      if key in handle {
        KeyedDelete(handle, db.Nodes(), key);
      }
      assert key !in handle ==> handle - {key} == handle;
      node := db.Delete(hcode, eq);
      handle := handle - {key};
    }

    // entry_del of an entry that the map has just given up.
    method Drop(e: Entry, ghost was: map<Bytes, Node>)
      requires Zones() && db.Valid() && Keyed(handle, db.Nodes()) && Held() && e in foot
      requires Owned(was, foot.Keys) && handle == was - {e.key} && Away()
      modifies heap, foot.Keys`heapIdx, this`foot, this`Cells, this`dropped, this`given, this`Lent
      ensures Valid() && Model() == ByKey(was, old(Items())) - {e.key}
      ensures Cells <= old(Cells) && Lent <= old(Lent) + old(Cells)
      ensures old(dropped) <= dropped && old(given) <= given
      ensures Disposed(e, old(Items())[e].datum, old(dropped), old(given))
    {
      hide H.HMap.Valid, Held, Items, Keyed, Owned, ByKey, Large, HandedOver, Sound, DatumOf;
      CellsHold();
      db.TablesIn();
      ByKeyDrop(was, Items(), e);
      EntryDel(e);
    }

    // hm_delete by key
    method DetachKey(key: Bytes) returns (node: H.HNode?<Entry>)
      requires Valid()
      modifies db.Repr, this`handle
      ensures fresh(db.Repr - old(db.Repr)) && db.Valid()
      ensures Keyed(handle, db.Nodes()) && handle == old(handle) - {key}
      ensures node == if key in old(handle) then old(handle)[key] else null
    {
      hide H.HMap.Valid, StrHash, Held, Items, Keyed, Owned, ByKey, HandedOver;
      if key in handle {
        KeyedDelete(handle, db.Nodes(), key);
      } else {
        KeyedMissing(handle, db.Nodes(), key);
      }
      node := Detach(key, StrHash(key), (h: Node) => h.owner.key == key);
    }

    // hm_delete and entry_del, as in do_del.
    method Delete(key: Bytes) returns (found: bool)
      requires Valid()
      modifies Repr()
      ensures Valid() && Onward()
      ensures Model() == old(Model()) - {key} && found == (key in old(Model()))
      ensures if found then Disposed(old(handle)[key].owner, old(Model())[key].datum, old(dropped), old(given))
        else dropped == old(dropped) && given == old(given)
    {
      hide H.HMap.Valid, StrHash, Held, Items, Keyed, Owned, ByKey, HandedOver, Disposed;
      ModelAt(key);
      CellsHold();
      var node := DetachKey(key);
      found := node != null;
      if node != null {
        Drop(node.owner, old(handle));
      } else {
        assert old(handle) - {key} == old(handle) && old(Model()) - {key} == old(Model());
      }
    }

    // The item of an entry.
    lemma ModelOf(e: Entry)
      requires Valid() && e in foot
      ensures e in Cells && foot[e] <= Cells && foot.Keys <= Cells && heap in Cells
      ensures db.newer in db.Repr && db.older in db.Repr
      ensures e in Items() && e.key in Model() && Model()[e.key] == Items()[e]
      ensures Items()[e].datum.Plain? == e.value.Text? && Items()[e].expire == ExpiryOf(e)
      ensures e.value.Text? ==> Items()[e].datum == Plain(e.value.s)
    {
      hide H.HMap.Valid, StrHash, TtlHeap.Timed, Apart, Keyed;
      db.TablesIn();
    }

    lemma ModelPut(items: map<Entry, Item>, e: Entry, item: Item)
      requires Valid() && items.Keys == foot.Keys && e in foot && Items() == items[e := item]
      ensures Model() == ByKey(handle, items)[e.key := item]
    {
      hide Held, Items, Keyed, H.HMap.Valid;
      ByKeyPut(handle, items, e, item);
    }

    method Overwrite(e: Entry, s: Bytes)
      requires Valid() && e in foot
      modifies e`value
      ensures Valid() && e.key in old(Model())
      ensures Model() == old(Model())[e.key := Item(Plain(s), old(Model())[e.key].expire)]
    {
      hide H.HMap.Valid, StrHash, Held, Items, Keyed, Owned, ByKey;
      ModelOf(e);
      ghost var items := Items();
      SetText(e, s);
      ModelPut(items, e, Item(Plain(s), items[e].expire));
    }

    method SetDeadline(e: Entry, ttl: int, now: nat)
      requires Valid() && e in foot
      modifies heap, foot.Keys`heapIdx
      ensures Valid() && e.key in old(Model())
      ensures Model() ==
        old(Model())[e.key := Item(old(Model())[e.key].datum, if ttl < 0 then None else Some(now + ttl))]
    {
      hide H.HMap.Valid, StrHash, Held, Items, Keyed, Owned, ByKey;
      ModelOf(e);
      ghost var items := Items();
      SetTtl(e, ttl, now);
      ModelPut(items, e, Item(items[e].datum, if ttl < 0 then None else Some(now + ttl)));
    }

    method AddTuple(e: Entry, name: Bytes, score: real) returns (added: bool)
      requires Valid() && e in foot && e.value.Scored?
      modifies foot[e], this`foot, this`Cells
      ensures Valid() && Onward() && e.key in old(Model())
      ensures var was := old(Model())[e.key];
        was.datum.Scores? && added == (name !in was.datum.scores) &&
        Model() == old(Model())[e.key := Item(Scores(was.datum.scores[name := score]), was.expire)]
    {
      hide H.HMap.Valid, StrHash, Held, Items, Keyed, Owned, ByKey;
      ModelOf(e);
      ghost var items := Items();
      added := ZAddAt(e, name, score);
      ModelPut(items, e, Item(Scores(items[e].datum.scores[name := score]), items[e].expire));
    }

    method RemoveTuple(e: Entry, name: Bytes) returns (found: bool)
      requires Valid() && e in foot && e.value.Scored?
      modifies foot[e], this`foot, this`Cells
      ensures Valid() && Onward() && e.key in old(Model())
      ensures var was := old(Model())[e.key];
        was.datum.Scores? && found == (name in was.datum.scores) &&
        Model() == old(Model())[e.key := Item(Scores(was.datum.scores - {name}), was.expire)]
    {
      hide H.HMap.Valid, StrHash, Held, Items, Keyed, Owned, ByKey;
      ModelOf(e);
      ghost var items := Items();
      found := ZRemAt(e, name);
      ModelPut(items, e, Item(Scores(items[e].datum.scores - {name}), items[e].expire));
    }

    method ScoreOfTuple(e: Entry, name: Bytes) returns (score: Option<real>)
      requires Valid() && e in foot && e.value.Scored?
      modifies foot[e], this`foot, this`Cells
      ensures Valid() && Onward() && e.key in old(Model()) && Model() == old(Model())
      ensures var was := old(Model())[e.key];
        was.datum.Scores? && score == if name in was.datum.scores then Some(was.datum.scores[name]) else None
    {
      hide H.HMap.Valid, StrHash, Held, Items, Keyed, Owned, ByKey;
      ModelOf(e);
      ghost var items := Items();
      score := ZScoreAt(e, name);
    }

    method QueryTuples(e: Entry, score: real, name: Bytes, offset: int64, limit: int64)
      returns (pairs: seq<Pair>, n: int64, ghost all: seq<Pair>)
      requires Valid() && e in foot && e.value.Scored?
      requires Counted(Model())
      ensures e.key in Model() && Model()[e.key].datum.Scores? && Lists(all, Model()[e.key].datum.scores)
      ensures pairs == Slice(all, Pair(score, name), offset as int, limit as int) && n as int == 2 * |pairs|
    {
      hide H.HMap.Valid, StrHash, Held, Items, Keyed, Owned, ByKey, Slice, Lists;
      ModelOf(e);
      pairs, n, all := ZQueryAt(e, score, name, offset, limit);
    }

    // The entries, as hm_foreach meets their nodes.
    method Entries() returns (es: seq<Entry>)
      requires Valid()
      ensures forall e :: e in es ==> e in foot
      ensures forall k :: k in Model() ==> exists i :: 0 <= i < |es| && es[i].key == k
    {
      hide H.HMap.Valid, StrHash, Held, Items;
      var visited := db.Foreach((h: Node) => true);
      es := seq(|visited|, i requires 0 <= i < |visited| => visited[i].owner);
      forall k | k in handle ensures exists i :: 0 <= i < |es| && es[i].key == k {
        assert handle[k] in Elems(visited);
        var i :| 0 <= i < |visited| && visited[i] == handle[k];
        assert es[i].key == k;
      }
      forall e | e in es ensures e in foot {
        var i :| 0 <= i < |es| && es[i] == e;
        assert visited[i] in Elems(visited);
      }
    }

    method SizeAt(e: Entry) returns (size: nat)
      requires Valid() && e in foot
      ensures e.key in Model()
      ensures var d := Model()[e.key].datum; size == if d.Scores? then |d.scores| else 0
    {
      hide H.HMap.Valid, StrHash, Held, Items, Keyed, Owned, ByKey;
      ModelOf(e);
      size := SizeOf(e);
    }

    // hm_delete by node identity.  The nodes are embedded: the same owner means
    // the same node.
    method DetachEntry(e: Entry) returns (node: H.HNode?<Entry>)
      requires Valid() && e in foot
      modifies db.Repr, this`handle
      ensures fresh(db.Repr - old(db.Repr)) && db.Valid()
      ensures Keyed(handle, db.Nodes()) && handle == old(handle) - {e.key}
      ensures e.key in old(handle) && node == old(handle)[e.key] && node.owner == e
    {
      hide H.HMap.Valid, StrHash, Held, Items, Keyed, Owned, ByKey;
      OwnerOf(e);
      KeyedDelete(handle, db.Nodes(), e.key);
      node := Detach(e.key, StrHash(e.key), (h: Node) => h.owner == e);
    }

    // hm_delete and entry_del, as in process_timers.
    method DeleteEntry(e: Entry)
      requires Valid() && e in foot
      modifies Repr()
      ensures Valid() && Onward() && e.key in old(Model()) && Model() == old(Model()) - {e.key}
      ensures Disposed(e, old(Model())[e.key].datum, old(dropped), old(given))
    {
      hide H.HMap.Valid, StrHash, Held, Items, Keyed, Owned, ByKey, HandedOver, Disposed;
      ModelOf(e);
      var node := DetachEntry(e);
      assert node == old(handle)[e.key];
      Drop(e, old(handle));
    }

    lemma OwnerOf(e: Entry)
      requires Owned(handle, foot.Keys) && e in foot
      ensures e.key in handle && handle[e.key].owner == e
    {
    }

    // The first heap item is the earliest deadline of the plain map.
    lemma FirstDue()
      requires Valid()
      ensures heap.a == [] ==> forall k :: k in Model() ==> Model()[k].expire.None?
      ensures heap.a != [] ==>
        (var e := heap.a[0].ref;
        e in foot && e.key in Model() && Model()[e.key].expire == Some(heap.a[0].val) &&
        forall k :: k in Model() && Model()[k].expire.Some? ==> heap.a[0].val <= Model()[k].expire.value)
    {
      hide H.HMap.Valid, StrHash, TtlHeap.Timed, Sound, DatumOf, Deadlines, Keyed;
      heap.Earliest(foot.Keys);
    }
  }
}
