// The ordered tree of lib/server/zset.cpp: insertion, deletion and search by
// (score, name).

module ZTree {
  import opened Seqs
  import opened Basics
  import opened ZNodes
  import opened AvlTree
  import opened Order
  import opened Avl

  function PairOf(z: ZNode): Pair
    reads z`score
  {
    Pair(z.score, z.name)
  }

  ghost function Pairs(s: seq<ZNode>): (r: seq<Pair>)
    reads s`score
    ensures |r| == |s| && forall i :: 0 <= i < |s| ==> r[i] == PairOf(s[i])
  {
    if s == [] then [] else Pairs(s[..|s| - 1]) + [PairOf(s[|s| - 1])]
  }

  lemma PairsConcat(a: seq<ZNode>, b: seq<ZNode>)
    ensures Pairs(a + b) == Pairs(a) + Pairs(b)
  {
  }

  // The tuples of a tree, in order.
  ghost function Items(t: Tree): seq<Pair>
    reads Nodes(t)`score
  {
    NodesInorder(t);
    Pairs(Inorder(t))
  }

  // A tree as it stands in a sorted set.
  ghost predicate Good(t: Tree, root: ZNode?)
    reads Nodes(t)
  {
    Linked(t, root, null) && Distinct(t) && Balanced(t) && Sorted(Items(t))
  }

  // ----- Searching the tree -----

  lemma ItemsAround(p: Path, l: Tree, x: ZNode, r: Tree)
    ensures var t := Plug(p, Node(l, x, r));
      Items(t) == Pairs(Before(p) + Inorder(l)) + [PairOf(x)] + Pairs(Inorder(r) + After(p))
  {
    AroundInorder(p, l, x, r);
    hide Plug, Before, After, Inorder;
    var a, b := Before(p) + Inorder(l), Inorder(r) + After(p);
    PairsConcat(a + [x], b);
    PairsConcat(a, [x]);
  }

  lemma TurnRight(p: Path, l: Tree, x: ZNode, r: Tree, key: Pair)
    requires Sorted(Items(Plug(p, Node(l, x, r)))) && Less(PairOf(x), key)
    ensures AllBelow(Pairs(Before(InRight(l, x, p))), key)
  {
    hide Less, Plug, Inorder;
    ItemsAround(p, l, x, r);
    SearchRight(Pairs(Before(p) + Inorder(l)), PairOf(x), Pairs(Inorder(r) + After(p)), key);
    PairsConcat(Before(p) + Inorder(l), [x]);
  }

  lemma TurnLeft(p: Path, l: Tree, x: ZNode, r: Tree, key: Pair)
    requires Sorted(Items(Plug(p, Node(l, x, r)))) && !Less(PairOf(x), key)
    ensures NoneBelow(Pairs(After(InLeft(p, x, r))), key)
  {
    hide Less, Plug, Inorder;
    ItemsAround(p, l, x, r);
    SearchLeft(Pairs(Before(p) + Inorder(l)), PairOf(x), Pairs(Inorder(r) + After(p)), key);
    PairsConcat([x], Inorder(r) + After(p));
    assert After(InLeft(p, x, r)) == [x] + (Inorder(r) + After(p));
    assert Pairs([x]) == [PairOf(x)];
    assert Pairs(After(InLeft(p, x, r))) == [PairOf(x)] + Pairs(Inorder(r) + After(p));
  }

  // The descent of tree_insert: the empty link where node belongs.
  method Descend(root: ZNode?, node: ZNode, ghost t: Tree)
    returns (parent: ZNode?, isLeft: bool, ghost p: Path)
    requires Good(t, root) && forall z :: z in Nodes(t) ==> z.name != node.name
    ensures Spot(p, Leaf, null) && Plug(p, Leaf) == t && parent == Above(p) && (p != Root ==> isLeft == p.InLeft?)
    ensures AllBelow(Pairs(Before(p)), PairOf(node)) && NoneBelow(Pairs(After(p)), PairOf(node))
  {
    hide Less, PathLinked, PathCached, PathDistinct, Height, Size, Plug;
    Allocated(t);
    parent, isLeft := null, false;
    var cur := root;
    ghost var s := t;
    p := Root;
    SpotRoot(t, root);
    while cur != null
      invariant Spot(p, s, cur) && Plug(p, s) == t
      invariant parent == Above(p) && (p != Root ==> isLeft == p.InLeft?)
      invariant AllBelow(Pairs(Before(p)), PairOf(node)) && NoneBelow(Pairs(After(p)), PairOf(node))
      decreases s
    {
      SpotBelow(p, s, cur);
      PlugNodes(p, s);
      assert cur in Nodes(t) && PairOf(cur) != PairOf(node);
      LessTotal(PairOf(node), PairOf(cur));
      assert s == Node(s.left, cur, s.right) && Sorted(Items(Plug(p, Node(s.left, cur, s.right))));
      parent := cur;
      if Less(PairOf(node), PairOf(parent)) {
        TurnLeft(p, s.left, cur, s.right, PairOf(node));
        isLeft := true;
        cur := parent.left;
        p, s := InLeft(p, s.it, s.right), s.left;
      } else {
        TurnRight(p, s.left, cur, s.right, PairOf(node));
        isLeft := false;
        cur := parent.right;
        p, s := InRight(s.left, s.it, p), s.right;
      }
    }
  }

  // avl_init
  method InitLinks(node: ZNode)
    modifies node`parent, node`left, node`right, node`height, node`cnt
    ensures Detached(node)
  {
    node.left, node.right, node.parent := null, null, null;
    node.height, node.cnt := 1, 1;
  }

  ghost predicate Detached(node: ZNode)
    reads node
  {
    node.parent == null && node.left == null && node.right == null && node.height == 1 && node.cnt == 1
  }

  // "*from = node; node->parent = parent"
  method AttachLeaf(parent: ZNode?, isLeft: bool, node: ZNode, ghost p: Path)
    requires Spot(p, Leaf, null) && parent == Above(p) && (p != Root ==> isLeft == p.InLeft?)
    requires Detached(node) && node !in PathNodes(p)
    modifies node`parent, PathNodes(p)`left, PathNodes(p)`right
    ensures Hangs(p, Node(Leaf, node, Leaf), node)
  {
    PathAllocated(p);
    node.parent := parent;
    if parent != null {
      SetChild(parent, isLeft, node, p, null, Node(Leaf, node, Leaf));
    }
  }

  // Attach the new node and rebalance.
  method AttachAndFix(parent: ZNode?, isLeft: bool, node: ZNode, ghost p: Path, ghost all: set<ZNode>)
    returns (newRoot: ZNode)
    requires Spot(p, Leaf, null) && parent == Above(p) && (p != Root ==> isLeft == p.InLeft?)
    requires Detached(node) && node !in PathNodes(p) && all == PathNodes(p) + {node}
    modifies all`parent, all`left, all`right, all`height, all`cnt
    ensures Linked(Fix(p, Node(Leaf, node, Leaf)), newRoot, null)
  {
    assert PathNodes(p) <= all;
    ghost var s := Node(Leaf, node, Leaf);
    assert PathNodes(p) + Nodes(s) == all;
    hide Fix, Linked, PathNodes, Nodes, Hangs;
    AttachLeaf(parent, isLeft, node, p);
    newRoot := Rebalance(node, p, s);
  }

  // tree_insert
  method TreeInsert(root: ZNode?, node: ZNode, ghost t: Tree, ghost all: set<ZNode>)
    returns (newRoot: ZNode, ghost u: Tree)
    requires Good(t, root) && Detached(node) && all == Nodes(t) + {node}
    requires forall z :: z in Nodes(t) ==> z.name != node.name
    modifies all`parent, all`left, all`right, all`height, all`cnt
    ensures Good(u, newRoot) && Nodes(u) == all
  {
    hide Fix, Less, Sorted, Balanced, Distinct, Linked, PathLinked, PathCached, AllBelow, NoneBelow, Inorder, Pairs;
    var parent, isLeft, p := Descend(root, node, t);
    PlugNodes(p, Leaf);
    TreeInsertGood(p, node, t);
    u := Fix(p, Node(Leaf, node, Leaf));
    ghost var items := Items(u);
    newRoot := AttachAndFix(parent, isLeft, node, p, all);
    assert Items(u) == items;
  }

  lemma TreeInsertGood(p: Path, node: ZNode, t: Tree)
    requires Plug(p, Leaf) == t && Distinct(t) && Balanced(t) && Sorted(Items(t))
    requires forall z :: z in Nodes(t) ==> z.name != node.name
    requires AllBelow(Pairs(Before(p)), PairOf(node)) && NoneBelow(Pairs(After(p)), PairOf(node))
    ensures var u := Fix(p, Node(Leaf, node, Leaf));
      Distinct(u) && Balanced(u) && Sorted(Items(u)) && Nodes(u) == Nodes(t) + {node}
  {
    var s := Node(Leaf, node, Leaf);
    InsertCorrect(p, node);
    InsertSorted(Before(p), node, After(p), t);
    PlugNodes(p, Leaf);
    PlugDistinct(p, Leaf);
    assert node !in Nodes(t);
    PlugDistinct(p, s);
    FixNodes(p, s);
  }

  lemma InsertSorted(a: seq<ZNode>, node: ZNode, b: seq<ZNode>, t: Tree)
    requires Inorder(t) == a + b && Sorted(Items(t))
    requires forall z :: z in Nodes(t) ==> z.name != node.name
    requires AllBelow(Pairs(a), PairOf(node)) && NoneBelow(Pairs(b), PairOf(node))
    ensures Sorted(Pairs(a + [node] + b))
  {
    NodesInorder(t);
    hide Less, Inorder, Nodes;
    PairsConcat(a, b);
    PairsConcat(a + [node], b);
    PairsConcat(a, [node]);
    assert Pairs([node]) == [PairOf(node)];
    forall i | 0 <= i < |b| ensures Pairs(b)[i] != PairOf(node) {
      assert Inorder(t)[|a| + i] == b[i];
      assert b[i] in Nodes(t);
    }
    SortedInsert(Pairs(a), PairOf(node), Pairs(b));
  }

  // avl_del on the tree of a sorted set.
  method TreeDelete(root: ZNode?, node: ZNode, ghost t: Tree, ghost all: set<ZNode>)
    returns (newRoot: ZNode?, ghost u: Tree)
    requires Good(t, root) && node in Nodes(t) && all == Nodes(t)
    modifies all`parent, all`left, all`right, all`height, all`cnt
    ensures Good(u, newRoot) && Nodes(u) == Nodes(t) - {node}
  {
    hide Less, Sorted, Balanced, Distinct;
    TreeDeleteGood(t, node);
    LinkedRoot(t, root, null);
    assert root == RootOf(t);
    u := Del(t, node);
    ghost var items := Items(u);
    hide Linked, Del;
    newRoot := Delete(node, t);
    assert Items(u) == items;
  }

  lemma TreeDeleteGood(t: Tree, node: ZNode)
    requires Distinct(t) && Balanced(t) && Sorted(Items(t)) && node in Nodes(t)
    ensures Distinct(Del(t, node)) && Balanced(Del(t, node)) && Sorted(Items(Del(t, node)))
    ensures Nodes(Del(t, node)) == Nodes(t) - {node}
  {
    hide Less, Del, Balanced, Distinct;
    NodesInorder(t);
    var s := Inorder(t);
    var i :| 0 <= i < |s| && s[i] == node;
    DelCorrect(t, node, i);
    DistinctNoDup(t);
    WithoutElems(s, i);
    NodesInorder(Del(t, node));
    PairsWithout(s, i);
    SortedWithout(Items(t), i);
  }

  lemma PairsWithout(s: seq<ZNode>, i: nat)
    requires i < |s|
    ensures Pairs(Without(s, i)) == Without(Pairs(s), i)
  {
    var a, b := Pairs(Without(s, i)), Without(Pairs(s), i);
    assert |a| == |b|;
    hide Without;
    forall k | 0 <= k < |a| ensures a[k] == b[k] {
      var j := if k < i then k else k + 1;
      assert a[k] == PairOf(Without(s, i)[k]) && b[k] == Pairs(s)[j] == PairOf(s[j]);
    }
  }

  // ----- zset_seekge -----

  // zset_seekge: the first tuple that is not below the key.
  method SeekGe(root: ZNode?, score: real, name: Bytes, ghost t: Tree) returns (found: ZNode?)
    requires Good(t, root)
    ensures var k := RankOfKey(Items(t), Pair(score, name));
      if k == |Items(t)| then found == null else |Inorder(t)| == |Items(t)| && found == Inorder(t)[k]
  {
    hide Less, PathLinked, PathCached, PathDistinct, Distinct, Balanced, Height, Size, Inorder, RankOfKey, Plug;
    ghost var key := Pair(score, name);
    Allocated(t);
    found := null;
    var node := root;
    ghost var p, s := Root, t;
    SpotRoot(t, root);
    while node != null
      invariant Spot(p, s, node) && Plug(p, s) == t && Sorted(Items(t))
      invariant AllBelow(Pairs(Before(p)), key) && NoneBelow(Pairs(After(p)), key)
      invariant found == if After(p) == [] then null else After(p)[0]
      decreases s
    {
      SpotBelow(p, s, node);
      assert s == Node(s.left, node, s.right);
      if Less(PairOf(node), Pair(score, name)) {
        TurnRight(p, s.left, node, s.right, key);
        node := node.right;
        p, s := InRight(s.left, s.it, p), s.right;
      } else {
        TurnLeft(p, s.left, node, s.right, key);
        found := node;
        node := node.left;
        p, s := InLeft(p, s.it, s.right), s.left;
      }
    }
    SeekEnds(p, t, key);
  }

  lemma SeekEnds(p: Path, t: Tree, key: Pair)
    requires Plug(p, Leaf) == t
    requires AllBelow(Pairs(Before(p)), key) && NoneBelow(Pairs(After(p)), key)
    ensures |Inorder(t)| == |Items(t)| && Inorder(t) == Before(p) + After(p)
    ensures RankOfKey(Items(t), key) == |Before(p)|
  {
    PlugInorder(p, Leaf);
    assert Inorder(Leaf) == [];
    hide Less, Plug, Inorder, Before, After, RankOfKey;
    var a, b := Before(p), After(p);
    assert a + [] + b == a + b;
    PairsConcat(a, b);
    assert (Pairs(a) + Pairs(b))[..|a|] == Pairs(a) && (Pairs(a) + Pairs(b))[|a|..] == Pairs(b);
    RankOfKeyIs(Items(t), key, |a|);
  }

  // Detach a tuple, give it the new score, and insert it again.
  method TreeMove(root: ZNode?, node: ZNode, score: real, ghost t: Tree, ghost all: set<ZNode>)
    returns (newRoot: ZNode, ghost u: Tree)
    requires Good(t, root) && node in Nodes(t) && all == Nodes(t)
    requires forall z :: z in all && z != node ==> z.name != node.name
    modifies all
    ensures Good(u, newRoot) && Nodes(u) == all
    ensures node.score == score && forall z :: z in all && z != node ==> z.score == old(z.score)
  {
    hide Linked, Sorted, Balanced, Distinct;
    var rest, s := TreeDelete(root, node, t, all);
    ghost var items := Items(s);
    InitLinks(node);
    node.score := score;
    assert Items(s) == items;
    newRoot, u := TreeInsert(rest, node, s, all);
  }

  // tree_dispose: each node is freed once, and not looked at any more after that.
  method TreeDispose(node: ZNode?, ghost p: ZNode?, ghost t: Tree) returns (ghost freed: seq<ZNode>)
    requires Linked(t, node, p) && Distinct(t)
    ensures NoDup(freed) && Elems(freed) == Nodes(t)
    decreases t
  {
    Allocated(t);
    freed := [];
    if node != null {
      ghost var left := TreeDispose(node.left, node, t.left);
      assert node !in left by { assert node !in Elems(left); }
      ghost var right := TreeDispose(node.right, node, t.right);
      assert node !in right by { assert node !in Elems(right); }
      freed := left + right + [node];
      FreedOnce(left, right, node);
    }
  }

  lemma FreedOnce(a: seq<ZNode>, b: seq<ZNode>, x: ZNode)
    requires NoDup(a) && NoDup(b) && Elems(a) !! Elems(b) && x !in Elems(a) + Elems(b)
    ensures NoDup(a + b + [x]) && Elems(a + b + [x]) == Elems(a) + Elems(b) + {x}
  {
    ElemsConcat(a, b);
    ElemsConcat(a + b, [x]);
    NoDupConcat(a, b);
    NoDupConcat(a + b, [x]);
    assert Elems([x]) == {x};
  }
}
