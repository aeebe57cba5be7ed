// The sorted set of lib/server/zset.cpp: a tree ordered by (score, name) and a
// hash map by name, over the same tuples.

module ZSets {
  import opened Seqs
  import opened Basics
  import opened ZNodes
  import opened AvlTree
  import opened Order
  import opened ZTree
  import Avl
  import H = HashTable

  type Handle = H.HNode<ZNode>

  // The hash map's nodes are embedded in exactly the tuples of the tree, and
  // carry the hash of their names; no two tuples have the same name.
  ghost predicate Indexed(s: set<ZNode>, hs: set<Handle>, handle: map<ZNode, Handle>) {
    handle.Keys == s &&
    (forall z {:trigger handle[z]} :: z in s ==> handle[z] in hs && handle[z].owner == z) &&
    (forall h {:trigger h in hs} :: h in hs ==>
      h.owner in s && handle[h.owner] == h && h.hcode == StrHash(h.owner.name)) &&
    DistinctNames(s)
  }

  ghost predicate DistinctNames(s: set<ZNode>) {
    forall y, z :: y in s && z in s && y.name == z.name ==> y == z
  }

  ghost function Scores(s: set<ZNode>): map<ZNode, real>
    reads s`score
  {
    map z | z in s :: z.score
  }

  // The tuples, with these scores, are the entries of m.
  ghost predicate Holds(sc: map<ZNode, real>, m: map<Bytes, real>) {
    (forall z {:trigger z.name} :: z in sc ==> z.name in m && m[z.name] == sc[z]) &&
    forall n {:trigger n in m} :: n in m ==> exists z :: z in sc && z.name == n
  }

  // The same, for the tuples listed in order.
  lemma HoldsListed(s: seq<ZNode>, m: map<Bytes, real>)
    requires Holds(Scores(Elems(s)), m)
    ensures forall p :: p in Pairs(s) ==> p.name in m && m[p.name] == p.score
    ensures forall n :: n in m ==> Pair(m[n], n) in Pairs(s)
  {
    var ps := Pairs(s);
    forall p | p in ps ensures p.name in m && m[p.name] == p.score {
      var i :| 0 <= i < |s| && ps[i] == p;
      assert s[i] in Elems(s);
    }
    forall n | n in m ensures Pair(m[n], n) in ps {
      var z :| z in Elems(s) && z.name == n;
      var i :| 0 <= i < |s| && s[i] == z;
      assert ps[i] == Pair(m[n], n);
    }
  }

  lemma ListedHolds(s: seq<ZNode>, m: map<Bytes, real>)
    requires StandsFor(Pairs(s), m)
    ensures Holds(Scores(Elems(s)), m)
  {
    var ps := Pairs(s);
    forall z | z in Elems(s) ensures z.name in m && m[z.name] == z.score {
      var i :| 0 <= i < |s| && s[i] == z;
      assert ps[i] == PairOf(z);
    }
    forall n | n in m ensures exists z :: z in Elems(s) && z.name == n {
      var i :| 0 <= i < |s| && ps[i] == Pair(m[n], n);
      assert s[i] in Elems(s);
    }
  }

  lemma DistinctListed(s: seq<ZNode>)
    requires NoDup(s) && DistinctNames(Elems(s))
    ensures UniqueNames(Pairs(s))
  {
    forall i, j | 0 <= i < |s| && 0 <= j < |s| && s[i].name == s[j].name ensures i == j {
      assert s[i] in Elems(s) && s[j] in Elems(s);
    }
  }

  lemma HoldsDict(t: Tree, m: map<Bytes, real>)
    requires Distinct(t) && DistinctNames(Nodes(t))
    ensures UniqueNames(Items(t))
    ensures Holds(Scores(Nodes(t)), m) <==> m == Dict(Items(t))
  {
    NodesInorder(t);
    DistinctNoDup(t);
    hide Nodes, Inorder, Distinct, Dict, Holds;
    DistinctListed(Inorder(t));
    StandsForDict(Items(t), m);
    if Holds(Scores(Nodes(t)), m) { HoldsListed(Inorder(t), m); }
    if m == Dict(Items(t)) { ListedHolds(Inorder(t), m); }
  }

  // ----- Adding and removing a tuple -----

  lemma IndexedInsert(s: set<ZNode>, hs: set<Handle>, handle: map<ZNode, Handle>, z: ZNode, h: Handle)
    requires Indexed(s, hs, handle) && h !in hs
    requires forall y :: y in s ==> y.name != z.name
    requires h.owner == z && h.hcode == StrHash(z.name)
    ensures Indexed(s + {z}, hs + {h}, handle[z := h])
  {
    hide StrHash;
    assert z !in s;
  }

  lemma IndexedNames(s: set<ZNode>, hs: set<Handle>, handle: map<ZNode, Handle>)
    requires Indexed(s, hs, handle)
    ensures DistinctNames(s)
  {
  }

  lemma IndexedDelete(s: set<ZNode>, hs: set<Handle>, handle: map<ZNode, Handle>, z: ZNode)
    requires Indexed(s, hs, handle) && z in s
    ensures z in handle && handle[z] in hs && Indexed(s - {z}, hs - {handle[z]}, handle - {z})
    ensures handle[z].hcode == StrHash(z.name)
    ensures forall h :: h in hs ==> (h.owner.name == z.name <==> h == handle[z])
  {
    hide StrHash;
  }

  lemma {:induction false} IndexedSize(s: set<ZNode>, hs: set<Handle>, handle: map<ZNode, Handle>)
    requires Indexed(s, hs, handle)
    ensures |hs| == |s|
    decreases |s|
  {
    if z :| z in s {
      IndexedDelete(s, hs, handle, z);
      IndexedSize(s - {z}, hs - {handle[z]}, handle - {z});
    } else {
      assert hs == {};
    }
  }

  lemma NamesApart(s: set<ZNode>, node: ZNode)
    requires DistinctNames(s) && node in s
    ensures forall z :: z in s && z != node ==> z.name != node.name
  {
  }

  // A tuple is added, or gets another score.
  lemma HoldsPut(sc: map<ZNode, real>, m: map<Bytes, real>, node: ZNode, score: real)
    requires Holds(sc, m) && DistinctNames(sc.Keys + {node})
    ensures Holds(sc[node := score], m[node.name := score])
  {
    NamesApart(sc.Keys + {node}, node);
    var m' := m[node.name := score];
    forall n | n in m' ensures exists z :: z in sc[node := score] && z.name == n {
      if n == node.name {
        assert node in sc[node := score];
      } else {
        var z :| z in sc && z.name == n;
        assert z in sc[node := score];
      }
    }
  }

  lemma HoldsDelete(sc: map<ZNode, real>, m: map<Bytes, real>, node: ZNode)
    requires Holds(sc, m) && DistinctNames(sc.Keys) && node in sc
    ensures Holds(sc - {node}, m - {node.name})
  {
    forall n | n in m - {node.name} ensures exists z :: z in sc - {node} && z.name == n {
      var z :| z in sc && z.name == n;
      assert z in sc - {node};
    }
  }

  class ZSet {
    var root: ZNode?
    var hmap: H.HMap<ZNode>
    ghost var tree: Tree
    ghost var handle: map<ZNode, Handle>
    ghost var Repr: set<object>

    ghost predicate Valid()
      reads this, Repr
    {
      Owns(Nodes(tree)) && MapValid(Nodes(tree)) && Good(tree, root)
    }

    ghost predicate Owns(s: set<ZNode>)
      reads this, Repr
    {
      this in Repr && hmap in Repr && hmap.Repr <= Repr && s <= Repr && this !in hmap.Repr && s !! hmap.Repr
    }

    // The hash map indexes the tuples of s.
    ghost predicate MapValid(s: set<ZNode>)
      reads this, Repr
    {
      Owns(s) && hmap.Valid() && Indexed(s, hmap.Nodes(), handle)
    }

    // The plain map from names to scores that the set stands for.
    ghost function Contents(): map<Bytes, real>
      requires Valid()
      reads this, Repr
    {
      Dict(Items(tree))
    }

    constructor ()
      ensures Valid() && fresh(Repr) && Contents() == map[]
    {
      var h := new H.HMap();
      root, hmap := null, h;
      tree, handle := Leaf, map[];
      Repr := {this} + h.Repr;
    }

    lemma ContentsAre(m: map<Bytes, real>)
      requires Valid()
      ensures Holds(Scores(Nodes(tree)), m) <==> Contents() == m
      ensures UniqueNames(Items(tree)) && Sorted(Items(tree)) && DistinctNames(Nodes(tree))
    {
      HoldsDict(tree, m);
    }

    lemma Named(name: Bytes)
      requires Valid()
      ensures name in Contents() <==> exists z :: z in Nodes(tree) && z.name == name
      ensures forall z :: z in Nodes(tree) ==> z.name in Contents() && Contents()[z.name] == z.score
    {
      ContentsAre(Contents());
    }

    lemma Parts()
      requires Valid()
      ensures Owns(Nodes(tree))
    {
    }

    // What the index says, without the heap.
    lemma IndexedFacts()
      requires Valid()
      ensures forall h :: h in hmap.Nodes() ==> h.owner in Nodes(tree) && h.hcode == StrHash(h.owner.name)
      ensures forall z :: z in Nodes(tree) ==> z in handle && handle[z] in hmap.Nodes() && handle[z].owner == z
      ensures root == null ==> Nodes(tree) == {}
      ensures DistinctNames(Nodes(tree))
      ensures hmap.newer in hmap.Repr && hmap.older in hmap.Repr
    {
    }

    // hm_size(&zset->hmap)
    method Size() returns (n: nat)
      requires Valid()
      ensures n == |Contents()| == |Listing()|
    {
      hide H.HMap.Valid, Good, Indexed, Dict;
      n := hmap.Size();
      IndexedSize(Nodes(tree), hmap.Nodes(), handle);
      ListingSize();
    }

    lemma ListingSize()
      requires Valid()
      ensures |Nodes(tree)| == |Listing()| == |Contents()|
    {
      ContentsAre(Contents());
      hide MapValid, Dict, Inorder;
      DistinctNoDup(tree);
      NodesInorder(tree);
      NoDupSize(Inorder(tree));
      DictSize(Items(tree));
    }

    // zset_lookup.  An empty tree is answered without looking at the map.
    method Lookup(name: Bytes) returns (r: ZNode?)
      requires Valid()
      modifies hmap.Repr, this`Repr
      ensures Valid() && fresh(Repr - old(Repr)) && tree == old(tree) && Contents() == old(Contents())
      ensures if r == null then forall z :: z in Nodes(tree) ==> z.name != name
        else r in Nodes(tree) && r.name == name
    {
      hide Good, H.HMap.Valid, StrHash, Indexed, Dict;
      IndexedFacts();
      r := null;
      if root != null {
        var hcode := StrHash(name);
        var found := hmap.Lookup(hcode, (h: Handle) => h.owner.name == name);
        Repr := Repr + hmap.Repr;
        r := if found != null then found.owner else null;
      }
    }

    // The second part of zset_update.
    method Reinsert(node: ZNode, score: real)
      requires Valid() && node in Nodes(tree)
      modifies this`root, this`tree, Nodes(tree)
      ensures Valid() && Nodes(tree) == old(Nodes(tree)) && handle == old(handle)
      ensures node.score == score
      ensures forall z :: z in Nodes(tree) && z != node ==> z.score == old(z.score)
    {
      hide H.HMap.Valid, StrHash, Good, Indexed, DistinctNames, Nodes;
      IndexedFacts();
      ghost var s := Nodes(tree);
      assert forall z :: z in s && z != node ==> z.name != node.name by { NamesApart(s, node); }
      root, tree := TreeMove(root, node, score, tree, s);
    }

    // zset_update
    method Update(node: ZNode, score: real)
      requires Valid() && node in Nodes(tree)
      modifies this`root, this`tree, Nodes(tree)
      ensures Valid() && Contents() == old(Contents())[node.name := score]
    {
      hide MapValid, Good, Holds, Dict;
      ghost var sc, m := Scores(Nodes(tree)), Contents();
      ContentsAre(m);
      Named(node.name);
      HoldsPut(sc, m, node, score);
      if node.score != score {
        Reinsert(node, score);
      }
      assert Scores(Nodes(tree)) == sc[node := score];
      ContentsAre(m[node.name := score]);
    }

    // A new tuple goes into the hash map.
    method Index(node: ZNode)
      requires MapValid(Nodes(tree)) && node !in Repr
      requires forall z :: z in Nodes(tree) ==> z.name != node.name
      modifies this`handle, this`Repr, hmap.Repr
      ensures MapValid(Nodes(tree) + {node}) && Owns(Nodes(tree) + {node}) && fresh(Repr - old(Repr) - {node})
    {
      hide H.HMap.Valid, StrHash, Indexed;
      var h := new H.HNode(node, StrHash(node.name));
      IndexedInsert(Nodes(tree), hmap.Nodes(), handle, node, h);
      hmap.Insert(h);
      handle := handle[node := h];
      Repr := Repr + hmap.Repr + {node};
    }

    // ... and into the tree.
    method Plant(node: ZNode)
      requires node !in Nodes(tree) && MapValid(Nodes(tree) + {node}) && Owns(Nodes(tree) + {node})
      requires Good(tree, root) && Detached(node)
      modifies this`root, this`tree, Nodes(tree), node
      ensures Valid() && Nodes(tree) == old(Nodes(tree)) + {node}
      ensures node.score == old(node.score)
      ensures Scores(Nodes(tree)) == old(Scores(Nodes(tree)))[node := node.score]
    {
      hide H.HMap.Valid, StrHash, Good, Indexed;
      ghost var all := Nodes(tree) + {node};
      assert DistinctNames(all) by { IndexedNames(all, hmap.Nodes(), handle); }
      root, tree := TreeInsert(root, node, tree, all);
    }

    // The second part of zset_insert: a new tuple goes into both indexes.
    method InsertNew(name: Bytes, score: real) returns (node: ZNode)
      requires Valid() && forall z :: z in Nodes(tree) ==> z.name != name
      modifies this, hmap.Repr, Nodes(tree)
      ensures Valid() && fresh(Repr - old(Repr))
      ensures fresh(node) && node.name == name && node.score == score
      ensures Scores(Nodes(tree)) == old(Scores(Nodes(tree)))[node := score]
    {
      hide H.HMap.Valid, StrHash, Good, Indexed;
      node := new ZNode(name, score);
      Index(node);
      Plant(node);
    }

    method AddNew(name: Bytes, score: real)
      requires Valid() && forall z :: z in Nodes(tree) ==> z.name != name
      modifies this, hmap.Repr, Nodes(tree)
      ensures Valid() && fresh(Repr - old(Repr)) && Contents() == old(Contents())[name := score]
    {
      hide Valid, Holds, Contents;
      ghost var sc, m := Scores(Nodes(tree)), Contents();
      ContentsAre(m);
      var node := InsertNew(name, score);
      IndexedFacts();
      assert Nodes(tree) == Scores(Nodes(tree)).Keys == sc.Keys + {node};
      HoldsPut(sc, m, node, score);
      ContentsAre(m[name := score]);
    }

    // zset_insert: add a tuple, or update the score of the existing one.
    method Insert(name: Bytes, score: real) returns (added: bool)
      requires Valid()
      modifies Repr
      ensures Valid() && fresh(Repr - old(Repr))
      ensures Contents() == old(Contents())[name := score] && added == (name !in old(Contents()))
    {
      hide MapValid, Good, Dict;
      Named(name);
      var node := Lookup(name);
      if node != null {
        Update(node, score);
        added := false;
      } else {
        AddNew(name, score);
        added := true;
      }
    }

    // The hash map half of zset_delete; the node it finds is the tuple's own,
    // so "assert(found)" holds.
    method Unindex(node: ZNode)
      requires MapValid(Nodes(tree)) && node in Nodes(tree)
      modifies this`handle, this`Repr, hmap.Repr
      ensures MapValid(Nodes(tree) - {node}) && Owns(Nodes(tree)) && fresh(Repr - old(Repr))
    {
      hide H.HMap.Valid, StrHash, Indexed;
      var hcode, name := StrHash(node.name), node.name;
      IndexedDelete(Nodes(tree), hmap.Nodes(), handle, node);
      var found := hmap.Delete(hcode, (h: Handle) => h.owner.name == name);
      assert found == handle[node];
      handle := handle - {node};
      Repr := Repr + hmap.Repr;
    }

    // zset_delete, on both indexes.
    method RemoveTuple(node: ZNode)
      requires Valid() && node in Nodes(tree)
      modifies this, hmap.Repr, Nodes(tree)
      ensures Valid() && fresh(Repr - old(Repr))
      ensures Scores(Nodes(tree)) == old(Scores(Nodes(tree))) - {node}
    {
      hide H.HMap.Valid, H.HMap.Nodes, Indexed, Good, StrHash, Inorder, Distinct;
      ghost var s := Nodes(tree);
      Unindex(node);
      root, tree := TreeDelete(root, node, tree, s);
    }

    // zset_clear
    method Clear() returns (ghost freed: seq<ZNode>)
      requires Valid()
      modifies this, hmap
      ensures Valid() && Contents() == map[] && fresh(Repr - old(Repr))
      ensures NoDup(freed) && Elems(freed) == old(Nodes(tree)) && Holds(Scores(Elems(freed)), old(Contents()))
    {
      hide H.HMap.Valid, H.HMap.Nodes, Valid, Contents, Holds;
      Standing();
      Avl.Allocated(tree);
      hmap.Clear();
      freed := TreeDispose(root, null, tree);
      root := null;
      tree, handle := Leaf, map[];
      Repr := {this} + hmap.Repr;
      NothingLeft();
    }

    lemma Standing()
      requires Valid()
      ensures Avl.Linked(tree, root, null) && Distinct(tree) && Holds(Scores(Nodes(tree)), Contents())
      ensures hmap.Valid() && hmap in Repr && hmap.Repr <= Repr && this in Repr && this !in hmap.Repr
    {
      ContentsAre(Contents());
    }

    lemma NothingLeft()
      requires root == null && tree == Leaf && handle == map[] && Repr == {this} + hmap.Repr
      requires hmap.Valid() && hmap.Nodes() == {} && hmap in hmap.Repr && this !in hmap.Repr
      ensures Valid() && Contents() == map[]
    {
      hide H.HMap.Valid, H.HMap.Nodes;
    }

    // zset_delete
    method Delete(node: ZNode)
      requires Valid() && node in Nodes(tree)
      modifies Repr
      ensures Valid() && fresh(Repr - old(Repr))
      ensures Contents() == old(Contents()) - {node.name}
    {
      Parts();
      hide Valid, Holds, Contents;
      ghost var sc, m := Scores(Nodes(tree)), Contents();
      ContentsAre(m);
      HoldsDelete(sc, m, node);
      RemoveTuple(node);
      ContentsAre(m - {node.name});
    }

    // The tuples in order; Contents determines them, by Order.DictDetermines.
    ghost function Listing(): seq<Pair>
      requires Valid()
      reads this, Repr
    {
      Items(tree)
    }

    lemma ListingIs()
      requires Valid()
      ensures Sorted(Listing()) && UniqueNames(Listing()) && Dict(Listing()) == Contents()
      ensures |Listing()| == |Contents()|
    {
      ContentsAre(Contents());
      ListingSize();
    }

    // znode_offset
    method NodeOffset(node: ZNode?, offset: int64, ghost rank: nat) returns (r: ZNode?)
      requires Valid() && |Inorder(tree)| < Avl.CNT_LIMIT
      requires node != null ==> rank < |Inorder(tree)| && Inorder(tree)[rank] == node
      ensures r == if node != null && 0 <= rank + offset as int < |Inorder(tree)|
        then Inorder(tree)[rank + offset as int] else null
    {
      if node == null {
        return null;
      }
      NodesInorder(tree);
      Avl.LinkedRoot(tree, root, null);
      ghost var moves;
      r, moves := Avl.Offset(node, offset, tree, rank);
    }

    // The output loop of do_zquery.
    method Emit(first: ZNode?, limit: int64, ghost start: int) returns (out: seq<Pair>, n: int64)
      requires Valid() && limit > 0 && |Inorder(tree)| == |Listing()| < Avl.CNT_LIMIT
      requires first == if 0 <= start < |Listing()| then Inorder(tree)[start] else null
      ensures n as int == 2 * |out|
      ensures out == if 0 <= start < |Listing()|
        then Listing()[start..Min(|Listing()|, start + (limit as int + 1) / 2)] else []
    {
      hide Valid, Listing;
      out, n := [], 0;
      var node := first;
      ghost var s, all := Listing(), Inorder(tree);
      hide Inorder;
      while node != null && n < limit
        invariant n as int == 2 * |out| <= limit as int + 1
        invariant first == null ==> node == null && out == []
        invariant first != null ==> 0 <= start && start + |out| <= |s| && out == s[start..start + |out|]
        invariant first != null ==> node == if start + |out| < |s| then all[start + |out|] else null
        decreases limit as int - n as int
      {
        ghost var i := start + |out|;
        ListingAt(i);
        assert s[start..i + 1] == s[start..i] + [s[i]];
        out := out + [Pair(node.score, node.name)];
        node := NodeOffset(node, 1, i);
        n := n + 2;
      }
    }

    lemma ListingAt(i: nat)
      requires Valid() && i < |Inorder(tree)|
      ensures i < |Listing()| && Listing()[i] == PairOf(Inorder(tree)[i])
    {
      hide MapValid, Good, Inorder;
    }

    // The seeking and the output loop of do_zquery: the pairs it emits, and
    // the count it patches into the array header.
    method Query(score: real, name: Bytes, offset: int64, limit: int64) returns (out: seq<Pair>, n: int64)
      requires Valid() && |Contents()| < Avl.CNT_LIMIT
      ensures out == Slice(Listing(), Pair(score, name), offset as int, limit as int) && n as int == 2 * |out|
    {
      hide MapValid, Good, RankOfKey, Inorder, Dict;
      if limit <= 0 {
        return [], 0;
      }
      ListingSize();
      ghost var k := RankOfKey(Listing(), Pair(score, name));
      var node := Seek(score, name);
      var first := NodeOffset(node, offset, k);
      out, n := Emit(first, limit, if node == null then -1 else k + offset as int);
    }

    method Seek(score: real, name: Bytes) returns (node: ZNode?)
      requires Valid()
      ensures |Inorder(tree)| == |Listing()|
      ensures node == var k := RankOfKey(Listing(), Pair(score, name));
        if k < |Listing()| then Inorder(tree)[k] else null
    {
      hide MapValid, RankOfKey;
      node := SeekGe(root, score, name, tree);
    }
  }
}
