// The shape of the sorted set's tree (lib/server/avl.cpp), seen as a value:
// which node sits where.  Rotation, rebalancing and deletion are stated here as
// functions on that shape; module Avl proves that the pointer code computes
// them, and the lemmas below prove what they promise.

module AvlTree {
  import opened Seqs
  import opened ZNodes

  datatype Tree = Leaf | Node(left: Tree, it: ZNode, right: Tree)

  // Where a subtree hangs: the way from its parent up to the root.
  datatype Path =
    | Root
    | InLeft(up: Path, it: ZNode, right: Tree)
    | InRight(left: Tree, it: ZNode, up: Path)

  // ----- Reading a tree -----

  ghost function Nodes(t: Tree): set<ZNode> {
    match t
    case Leaf => {}
    case Node(l, x, r) => Nodes(l) + {x} + Nodes(r)
  }

  ghost function PathNodes(p: Path): set<ZNode> {
    match p
    case Root => {}
    case InLeft(up, x, r) => PathNodes(up) + {x} + Nodes(r)
    case InRight(l, x, up) => PathNodes(up) + {x} + Nodes(l)
  }

  ghost function Inorder(t: Tree): seq<ZNode> {
    match t
    case Leaf => []
    case Node(l, x, r) => Inorder(l) + [x] + Inorder(r)
  }

  // The nodes that come before and after the subtree hanging at p.
  ghost function Before(p: Path): seq<ZNode> {
    match p
    case Root => []
    case InLeft(up, x, r) => Before(up)
    case InRight(l, x, up) => Before(up) + Inorder(l) + [x]
  }

  ghost function After(p: Path): seq<ZNode> {
    match p
    case Root => []
    case InLeft(up, x, r) => [x] + Inorder(r) + After(up)
    case InRight(l, x, up) => After(up)
  }

  function Max(a: nat, b: nat): nat { if a < b then b else a }

  function Height(t: Tree): nat {
    match t
    case Leaf => 0
    case Node(l, _, r) => 1 + Max(Height(l), Height(r))
  }

  function Size(t: Tree): nat {
    match t
    case Leaf => 0
    case Node(l, _, r) => 1 + Size(l) + Size(r)
  }

  function Depth(p: Path): nat {
    match p
    case Root => 0
    case InLeft(up, _, _) => 1 + Depth(up)
    case InRight(_, _, up) => 1 + Depth(up)
  }

  // The subtree of the lowest node of p, with t hanging below it.
  function Up(p: Path, t: Tree): Tree
    requires p != Root
  {
    match p
    case InLeft(_, x, r) => Node(t, x, r)
    case InRight(l, x, _) => Node(l, x, t)
  }

  // The whole tree.
  function Plug(p: Path, t: Tree): Tree {
    if p == Root then t else Plug(p.up, Up(p, t))
  }

  function Sibling(p: Path): Tree
    requires p != Root
  {
    match p
    case InLeft(_, _, r) => r
    case InRight(l, _, _) => l
  }

  predicate Balanced(t: Tree) {
    match t
    case Leaf => true
    case Node(l, _, r) =>
      Balanced(l) && Balanced(r) && Height(l) <= Height(r) + 1 && Height(r) <= Height(l) + 1
  }

  // The path is an AVL tree around a hole of height h.
  predicate BalancedAround(p: Path, h: nat) {
    p != Root ==>
      Balanced(Sibling(p)) && h <= Height(Sibling(p)) + 1 && Height(Sibling(p)) <= h + 1 &&
      BalancedAround(p.up, UpHeight(p, h))
  }

  function UpHeight(p: Path, h: nat): nat
    requires p != Root
  {
    1 + Max(h, Height(Sibling(p)))
  }

  // No node occurs twice.
  ghost predicate Distinct(t: Tree) {
    match t
    case Leaf => true
    case Node(l, x, r) =>
      x !in Nodes(l) && x !in Nodes(r) && Nodes(l) !! Nodes(r) && Distinct(l) && Distinct(r)
  }

  // ----- Rebalancing -----

  function RotLeft(t: Tree): Tree
    requires t.Node? && t.right.Node?
  {
    Node(Node(t.left, t.it, t.right.left), t.right.it, t.right.right)
  }

  function RotRight(t: Tree): Tree
    requires t.Node? && t.left.Node?
  {
    Node(t.left.left, t.left.it, Node(t.left.right, t.it, t.right))
  }

  function FixLeft(t: Tree): Tree
    requires t.Node? && t.left.Node?
  {
    var l := t.left;
    RotRight(if Height(l.left) < Height(l.right) then Node(RotLeft(l), t.it, t.right) else t)
  }

  function FixRight(t: Tree): Tree
    requires t.Node? && t.right.Node?
  {
    var r := t.right;
    RotLeft(if Height(r.right) < Height(r.left) then Node(t.left, t.it, RotRight(r)) else t)
  }

  // One round of the avl_fix loop.
  function FixNode(t: Tree): Tree
    requires t.Node?
  {
    if Height(t.left) == Height(t.right) + 2 then FixLeft(t)
    else if Height(t.left) + 2 == Height(t.right) then FixRight(t)
    else t
  }

  // The whole avl_fix loop, started at t with p above it.
  function Fix(p: Path, t: Tree): Tree
    requires t.Node?
    decreases p
  {
    if p == Root then FixNode(t) else Fix(p.up, Up(p, FixNode(t)))
  }

  // ----- Deletion -----

  // Where node n of t sits, below p.
  ghost function Locate(p: Path, t: Tree, n: ZNode): (r: (Path, Tree))
    requires n in Nodes(t)
    ensures r.1.Node? && r.1.it == n && Plug(r.0, r.1) == Plug(p, t)
    decreases t
  {
    if n == t.it then (p, t)
    else if n in Nodes(t.left) then Locate(InLeft(p, t.it, t.right), t.left, n)
    else Locate(InRight(t.left, t.it, p), t.right, n)
  }

  function Leftmost(p: Path, t: Tree): (r: (Path, Tree))
    requires t.Node?
    ensures r.1.Node? && r.1.left.Leaf? && Plug(r.0, r.1) == Plug(p, t)
    decreases t
  {
    if t.left.Leaf? then (p, t) else Leftmost(InLeft(p, t.it, t.right), t.left)
  }

  // The tree left when child takes the place of the subtree hanging at p.
  function Attach(p: Path, child: Tree): Tree {
    if p == Root then child else Fix(p.up, Up(p, child))
  }

  // avl_del_easy: the only child takes the node's place.
  function DelEasy(p: Path, t: Tree): Tree
    requires t.Node? && (t.left.Leaf? || t.right.Leaf?)
  {
    Attach(p, if t.left.Node? then t.left else t.right)
  }

  // v takes the place of n.
  function Replace(t: Tree, n: ZNode, v: ZNode): Tree {
    match t
    case Leaf => Leaf
    case Node(l, x, r) => Node(Replace(l, n, v), if x == n then v else x, Replace(r, n, v))
  }

  function DelAt(p: Path, t: Tree): Tree
    requires t.Node?
  {
    if t.left.Leaf? || t.right.Leaf? then DelEasy(p, t)
    else
      var (vp, v) := Leftmost(InRight(t.left, t.it, p), t.right);
      Replace(DelEasy(vp, v), t.it, v.it)
  }

  ghost function Del(t: Tree, n: ZNode): Tree
    requires n in Nodes(t)
  {
    var (p, s) := Locate(Root, t, n);
    DelAt(p, s)
  }

  // ----- Rebalancing keeps the order -----

  // Looking at a subtree from one level up.
  lemma UpInorder(p: Path, t: Tree)
    requires p != Root
    ensures Before(p) + Inorder(t) + After(p) == Before(p.up) + Inorder(Up(p, t)) + After(p.up)
  {
    match p
    case InLeft(up, x, r) => Regroup(Before(up), Inorder(t), [x], Inorder(r), After(up));
    case InRight(l, x, up) => Regroup(Before(up), Inorder(l), [x], Inorder(t), After(up));
  }

  lemma Regroup<T>(a: seq<T>, l: seq<T>, x: seq<T>, r: seq<T>, b: seq<T>)
    ensures a + (l + x + r) + b == a + l + (x + r + b)
    ensures a + (l + x + r) + b == (a + l + x) + r + b
  {
  }

  lemma {:induction false} PlugInorder(p: Path, t: Tree)
    ensures Inorder(Plug(p, t)) == Before(p) + Inorder(t) + After(p)
    decreases p
  {
    if p != Root {
      PlugInorder(p.up, Up(p, t));
      UpInorder(p, t);
    }
  }

  // The whole order, split at one node.
  lemma AroundInorder(p: Path, l: Tree, x: ZNode, r: Tree)
    ensures Inorder(Plug(p, Node(l, x, r))) == (Before(p) + Inorder(l)) + [x] + (Inorder(r) + After(p))
  {
    PlugInorder(p, Node(l, x, r));
    hide Plug, Before, After;
    var a, b, L, R := Before(p), After(p), Inorder(l), Inorder(r);
    assert Inorder(Node(l, x, r)) == L + [x] + R;
    hide Inorder;
    RegroupAround(a, L, [x], R, b);
  }

  lemma RegroupAround<T>(a: seq<T>, l: seq<T>, x: seq<T>, r: seq<T>, b: seq<T>)
    ensures a + (l + x + r) + b == (a + l) + x + (r + b)
  {
  }

  lemma RotationInorder(a: Tree, x: ZNode, b: Tree, y: ZNode, c: Tree)
    ensures Inorder(Node(Node(a, x, b), y, c)) == Inorder(Node(a, x, Node(b, y, c)))
  {
    assert Inorder(Node(Node(a, x, b), y, c)) == Inorder(Node(a, x, b)) + [y] + Inorder(c);
    assert Inorder(Node(a, x, Node(b, y, c))) == Inorder(a) + [x] + Inorder(Node(b, y, c));
  }

  lemma RotLeftInorder(t: Tree)
    requires t.Node? && t.right.Node?
    ensures Inorder(RotLeft(t)) == Inorder(t)
  {
    RotationInorder(t.left, t.it, t.right.left, t.right.it, t.right.right);
  }

  lemma RotRightInorder(t: Tree)
    requires t.Node? && t.left.Node?
    ensures Inorder(RotRight(t)) == Inorder(t)
  {
    RotationInorder(t.left.left, t.left.it, t.left.right, t.it, t.right);
  }

  lemma FixNodeInorder(t: Tree)
    requires t.Node?
    ensures FixNode(t).Node? && Inorder(FixNode(t)) == Inorder(t)
  {
    if Height(t.left) == Height(t.right) + 2 {
      var l := t.left;
      if Height(l.left) < Height(l.right) {
        RotLeftInorder(l);
        RotRightInorder(Node(RotLeft(l), t.it, t.right));
      } else {
        RotRightInorder(t);
      }
    } else if Height(t.left) + 2 == Height(t.right) {
      var r := t.right;
      if Height(r.right) < Height(r.left) {
        RotRightInorder(r);
        RotLeftInorder(Node(t.left, t.it, RotRight(r)));
      } else {
        RotLeftInorder(t);
      }
    }
  }

  lemma {:induction false} FixInorder(p: Path, t: Tree)
    requires t.Node?
    ensures Inorder(Fix(p, t)) == Before(p) + Inorder(t) + After(p)
    decreases p
  {
    FixNodeInorder(t);
    if p != Root {
      FixInorder(p.up, Up(p, FixNode(t)));
      UpInorder(p, FixNode(t));
    }
  }

  // ----- Rebalancing restores the AVL property -----

  lemma FixLeftBalanced(t: Tree)
    requires t.Node? && Balanced(t.left) && Balanced(t.right)
    requires Height(t.left) == Height(t.right) + 2
    ensures Balanced(FixLeft(t))
    ensures Height(t) <= Height(FixLeft(t)) + 1 && Height(FixLeft(t)) <= Height(t)
  {
    var l := t.left;
    if Height(l.left) < Height(l.right) {
      var m := l.right;
      assert FixLeft(t) == Node(Node(l.left, l.it, m.left), m.it, Node(m.right, t.it, t.right));
      assert Balanced(m.left) && Balanced(m.right);
    } else {
      assert FixLeft(t) == Node(l.left, l.it, Node(l.right, t.it, t.right));
    }
  }

  lemma FixRightBalanced(t: Tree)
    requires t.Node? && Balanced(t.left) && Balanced(t.right)
    requires Height(t.left) + 2 == Height(t.right)
    ensures Balanced(FixRight(t))
    ensures Height(t) <= Height(FixRight(t)) + 1 && Height(FixRight(t)) <= Height(t)
  {
    var r := t.right;
    if Height(r.right) < Height(r.left) {
      var m := r.left;
      assert FixRight(t) == Node(Node(t.left, t.it, m.left), m.it, Node(m.right, r.it, r.right));
      assert Balanced(m.left) && Balanced(m.right);
    } else {
      assert FixRight(t) == Node(Node(t.left, t.it, r.left), r.it, r.right);
    }
  }

  // A node whose sides differ by at most 2 becomes balanced; its height stays,
  // or drops by one.  A balanced node is left alone.
  lemma FixNodeBalanced(t: Tree)
    requires t.Node? && Balanced(t.left) && Balanced(t.right)
    requires Height(t.left) <= Height(t.right) + 2 && Height(t.right) <= Height(t.left) + 2
    ensures Balanced(FixNode(t))
    ensures Height(t) <= Height(FixNode(t)) + 1 && Height(FixNode(t)) <= Height(t)
    ensures Balanced(t) ==> FixNode(t) == t
  {
    if Height(t.left) == Height(t.right) + 2 {
      FixLeftBalanced(t);
    } else if Height(t.left) + 2 == Height(t.right) {
      FixRightBalanced(t);
    }
  }

  // The subtree t stands in a hole that used to have height h; it may differ by
  // one from that, and may be out of balance itself if it did not shrink.
  predicate Fixable(t: Tree, h: nat) {
    t.Node? && Balanced(t.left) && Balanced(t.right) &&
    Height(t.left) <= Height(t.right) + 2 && Height(t.right) <= Height(t.left) + 2 &&
    h <= Height(t) + 1 && Height(t) <= h + 1 &&
    (Balanced(t) || h <= Height(t))
  }

  // A sibling's parent becomes fixable when t got higher or lower by one.
  lemma UpFixable(p: Path, t: Tree, h: nat)
    requires p != Root && Balanced(t) && BalancedAround(p, h)
    requires h <= Height(t) + 1 && Height(t) <= h + 1
    ensures Fixable(Up(p, t), UpHeight(p, h)) && BalancedAround(p.up, UpHeight(p, h))
  {
    FixableNode(t, p.it, Sibling(p), h);
  }

  lemma FixableNode(t: Tree, x: ZNode, s: Tree, h: nat)
    requires Balanced(t) && Balanced(s)
    requires h <= Height(t) + 1 && Height(t) <= h + 1
    requires h <= Height(s) + 1 && Height(s) <= h + 1
    ensures Fixable(Node(t, x, s), 1 + Max(h, Height(s))) && Fixable(Node(s, x, t), 1 + Max(h, Height(s)))
  {
  }

  lemma {:induction false} FixBalanced(p: Path, t: Tree, h: nat)
    requires Fixable(t, h) && BalancedAround(p, h)
    ensures Balanced(Fix(p, t))
    decreases p
  {
    FixNodeBalanced(t);
    if p != Root {
      UpFixable(p, FixNode(t), h);
      FixBalanced(p.up, Up(p, FixNode(t)), UpHeight(p, h));
    }
  }

  // ----- Distinct nodes -----

  lemma {:induction false} NodesInorder(t: Tree)
    ensures Nodes(t) == Elems(Inorder(t))
    ensures |Inorder(t)| == Size(t)
  {
    match t
    case Leaf =>
    case Node(l, x, r) => NodesInorder(l); NodesInorder(r);
  }

  lemma {:induction false} DistinctNoDup(t: Tree)
    ensures Distinct(t) <==> NoDup(Inorder(t))
  {
    match t
    case Leaf =>
    case Node(l, x, r) =>
      DistinctNoDup(l); DistinctNoDup(r);
      NodesInorder(l); NodesInorder(r);
      NoDupAround(Inorder(l), x, Inorder(r));
  }

  ghost predicate PathDistinct(p: Path) {
    match p
    case Root => true
    case InLeft(up, x, r) =>
      x !in Nodes(r) && x !in PathNodes(up) && Nodes(r) !! PathNodes(up) && Distinct(r) && PathDistinct(up)
    case InRight(l, x, up) =>
      x !in Nodes(l) && x !in PathNodes(up) && Nodes(l) !! PathNodes(up) && Distinct(l) && PathDistinct(up)
  }

  lemma {:induction false} PlugNodes(p: Path, t: Tree)
    ensures Nodes(Plug(p, t)) == PathNodes(p) + Nodes(t)
    decreases p
  {
    if p != Root { PlugNodes(p.up, Up(p, t)); }
  }

  lemma {:induction false} PlugDistinct(p: Path, t: Tree)
    ensures Distinct(Plug(p, t)) <==> Distinct(t) && PathDistinct(p) && PathNodes(p) !! Nodes(t)
    decreases p
  {
    if p != Root { PlugDistinct(p.up, Up(p, t)); }
  }

  lemma UpBalanced(p: Path, t: Tree)
    requires p != Root
    ensures Height(Up(p, t)) == UpHeight(p, Height(t))
    ensures Balanced(Up(p, t)) <==>
      Balanced(t) && Balanced(Sibling(p)) &&
      Height(t) <= Height(Sibling(p)) + 1 && Height(Sibling(p)) <= Height(t) + 1
  {
  }

  lemma {:induction false} PlugBalanced(p: Path, t: Tree)
    ensures Balanced(Plug(p, t)) <==> Balanced(t) && BalancedAround(p, Height(t))
    decreases p
  {
    if p != Root {
      var h := Height(t);
      PlugBalanced(p.up, Up(p, t));
      UpBalanced(p, t);
      assert BalancedAround(p, h) <==>
        Balanced(Sibling(p)) && h <= Height(Sibling(p)) + 1 && Height(Sibling(p)) <= h + 1 &&
        BalancedAround(p.up, UpHeight(p, h));
    }
  }

  lemma FixNodes(p: Path, t: Tree)
    requires t.Node?
    ensures Nodes(Fix(p, t)) == PathNodes(p) + Nodes(t)
    ensures Distinct(Plug(p, t)) <==> Distinct(Fix(p, t))
  {
    FixInorder(p, t);
    PlugInorder(p, t);
    PlugNodes(p, t);
    NodesInorder(Fix(p, t));
    NodesInorder(Plug(p, t));
    DistinctNoDup(Fix(p, t));
    DistinctNoDup(Plug(p, t));
  }

  lemma RotationNodes(a: Tree, x: ZNode, b: Tree, y: ZNode, c: Tree)
    ensures Nodes(Node(Node(a, x, b), y, c)) == Nodes(Node(a, x, Node(b, y, c)))
    ensures Distinct(Node(Node(a, x, b), y, c)) == Distinct(Node(a, x, Node(b, y, c)))
  {
  }

  lemma FixNodeNodes(t: Tree)
    requires t.Node?
    ensures FixNode(t).Node? && Nodes(FixNode(t)) == Nodes(t)
    ensures Distinct(FixNode(t)) == Distinct(t)
  {
    FixNodeInorder(t);
    NodesInorder(t);
    NodesInorder(FixNode(t));
    DistinctNoDup(t);
    DistinctNoDup(FixNode(t));
  }

  // ----- Insertion -----

  // A new node hung at a leaf position: the tree is balanced again, and the
  // order is the old one with the node at that position.
  lemma InsertCorrect(p: Path, n: ZNode)
    requires Balanced(Plug(p, Leaf))
    ensures Balanced(Fix(p, Node(Leaf, n, Leaf)))
    ensures Inorder(Fix(p, Node(Leaf, n, Leaf))) == Before(p) + [n] + After(p)
    ensures Inorder(Plug(p, Leaf)) == Before(p) + After(p)
  {
    var t := Node(Leaf, n, Leaf);
    PlugBalanced(p, Leaf);
    FixBalanced(p, t, 0);
    FixInorder(p, t);
    PlugInorder(p, Leaf);
    assert Inorder(t) == [n];
    assert Before(p) + Inorder(Leaf) + After(p) == Before(p) + After(p);
  }

  // ----- Deletion removes exactly one node -----

  lemma AttachInorder(p: Path, child: Tree)
    ensures Inorder(Attach(p, child)) == Before(p) + Inorder(child) + After(p)
  {
    if p != Root {
      FixInorder(p.up, Up(p, child));
      UpInorder(p, child);
    }
  }

  lemma AttachBalanced(p: Path, child: Tree, h: nat)
    requires Balanced(child) && h == Height(child) + 1 && BalancedAround(p, h)
    ensures Balanced(Attach(p, child))
  {
    if p != Root {
      UpFixable(p, child, h);
      FixBalanced(p.up, Up(p, child), UpHeight(p, h));
    }
  }

  lemma DelEasyCorrect(p: Path, t: Tree)
    requires t.Node? && (t.left.Leaf? || t.right.Leaf?)
    ensures Inorder(DelEasy(p, t)) == Before(p) + (Inorder(t.left) + Inorder(t.right)) + After(p)
    ensures Balanced(Plug(p, t)) ==> Balanced(DelEasy(p, t))
  {
    var child := if t.left.Node? then t.left else t.right;
    assert Inorder(child) == Inorder(t.left) + Inorder(t.right);
    AttachInorder(p, child);
    if Balanced(Plug(p, t)) {
      PlugBalanced(p, t);
      AttachBalanced(p, child, Height(t));
    }
  }

  lemma InorderNode(t: Tree)
    requires t.Node?
    ensures Inorder(t) == Inorder(t.left) + [t.it] + Inorder(t.right)
  {
  }

  lemma InorderLeaf()
    ensures Inorder(Leaf) == []
  {
  }

  lemma Regroup3<T>(l: seq<T>, x: seq<T>, r: seq<T>, b: seq<T>)
    ensures l + (x + r + b) == l + x + r + b
  {
  }

  lemma {:induction false} LeftmostBefore(p: Path, t: Tree)
    requires t.Node?
    ensures var (vp, v) := Leftmost(p, t); Before(vp) == Before(p)
    ensures var (vp, v) := Leftmost(p, t);
      [v.it] + Inorder(v.right) + After(vp) == Inorder(t) + After(p)
    decreases t
  {
    hide Plug, Inorder;
    InorderNode(t);
    if t.left.Leaf? {
      InorderLeaf();
      assert [] + [t.it] + Inorder(t.right) == [t.it] + Inorder(t.right);
    } else {
      LeftmostBefore(InLeft(p, t.it, t.right), t.left);
      Regroup3(Inorder(t.left), [t.it], Inorder(t.right), After(p));
    }
  }

  lemma {:induction false} ReplaceShape(t: Tree, n: ZNode, v: ZNode)
    ensures Height(Replace(t, n, v)) == Height(t) && Size(Replace(t, n, v)) == Size(t)
    ensures Balanced(Replace(t, n, v)) == Balanced(t)
  {
    match t
    case Leaf =>
    case Node(l, x, r) => ReplaceShape(l, n, v); ReplaceShape(r, n, v);
  }

  lemma {:induction false} ReplaceInorder(t: Tree, n: ZNode, v: ZNode)
    ensures |Inorder(Replace(t, n, v))| == |Inorder(t)|
    ensures forall i :: 0 <= i < |Inorder(t)| ==>
      Inorder(Replace(t, n, v))[i] == if Inorder(t)[i] == n then v else Inorder(t)[i]
  {
    match t
    case Leaf =>
    case Node(l, x, r) => ReplaceInorder(l, n, v); ReplaceInorder(r, n, v);
  }

  lemma DelAtBalanced(p: Path, t: Tree)
    requires t.Node? && Balanced(Plug(p, t))
    ensures Balanced(DelAt(p, t))
  {
    if t.left.Leaf? || t.right.Leaf? {
      DelEasyCorrect(p, t);
    } else {
      var (vp, v) := Leftmost(InRight(t.left, t.it, p), t.right);
      DelEasyCorrect(vp, v);
      ReplaceShape(DelEasy(vp, v), t.it, v.it);
    }
  }

  // A list in which n occurs once, with v put in its place.
  lemma ReplaceOnce(t: Tree, n: ZNode, v: ZNode, a: seq<ZNode>, b: seq<ZNode>)
    requires Inorder(t) == a + [n] + b && n !in a && n !in b
    ensures Inorder(Replace(t, n, v)) == a + [v] + b
  {
    ReplaceInorder(t, n, v);
    forall i | 0 <= i < |a| + 1 + |b| ensures Inorder(Replace(t, n, v))[i] == (a + [v] + b)[i] {
      assert Inorder(t)[i] == (a + [n] + b)[i];
      if i < |a| { assert Inorder(t)[i] in a; }
      if i > |a| { assert Inorder(t)[i] == b[i - |a| - 1]; }
    }
  }

  // What remains of a + [n] + v + b when v moves to n's place.
  lemma DelAtInorder(p: Path, t: Tree)
    requires t.Node? && NoDup(Before(p) + Inorder(t) + After(p))
    ensures Inorder(DelAt(p, t)) == Before(p) + (Inorder(t.left) + Inorder(t.right)) + After(p)
  {
    if t.left.Leaf? || t.right.Leaf? {
      DelEasyCorrect(p, t);
    } else {
      DelSuccessorInorder(p, t.left, t.it, t.right);
    }
  }

  lemma DelSuccessorInorder(p: Path, l: Tree, n: ZNode, r: Tree)
    requires r.Node? && NoDup(Before(p) + (Inorder(l) + [n] + Inorder(r)) + After(p))
    ensures var (vp, v) := Leftmost(InRight(l, n, p), r);
      Inorder(Replace(DelEasy(vp, v), n, v.it)) == Before(p) + (Inorder(l) + Inorder(r)) + After(p)
  {
    var q := InRight(l, n, p);
    var (vp, v) := Leftmost(q, r);
    DelEasyCorrect(vp, v);
    LeftmostBefore(q, r);
    ghost var a, b := Before(p) + Inorder(l), Inorder(v.right) + After(vp);
    Regroup2(Before(p), Inorder(l), [n], Inorder(r), After(p), [v.it], Inorder(v.right), After(vp));
    assert Inorder(v.left) == [];
    assert Inorder(DelEasy(vp, v)) == (a + [n]) + ([] + Inorder(v.right)) + After(vp);
    NoDupAround(a, n, [v.it] + b);
    ReplaceOnce(DelEasy(vp, v), n, v.it, a, b);
  }

  lemma Regroup2<T>(x: seq<T>, l: seq<T>, n: seq<T>, r: seq<T>, y: seq<T>, v: seq<T>, w: seq<T>, z: seq<T>)
    requires v + w + z == r + y
    ensures x + (l + n + r) + y == (x + l) + n + (v + (w + z))
    ensures x + (l + r) + y == (x + l) + v + (w + z)
    ensures (x + l + n) + ([] + w) + z == (x + l) + n + (w + z)
  {
    assert x + (l + r) + y == (x + l) + (r + y);
    assert x + (l + n + r) + y == (x + l) + n + (r + y);
    assert v + w + z == v + (w + z);
    assert (x + l) + v + (w + z) == (x + l) + (v + (w + z));
    assert [] + w == w;
    assert (x + l + n) + w + z == (x + l) + n + (w + z);
  }

  // The order after avl_del is the old order without that node.
  lemma DelCorrect(t: Tree, n: ZNode, i: nat)
    requires Balanced(t) && Distinct(t)
    requires i < |Inorder(t)| && Inorder(t)[i] == n
    ensures n in Nodes(t)
    ensures Balanced(Del(t, n)) && Distinct(Del(t, n))
    ensures Inorder(Del(t, n)) == Without(Inorder(t), i)
  {
    NodesInorder(t);
    var (p, s) := Locate(Root, t, n);
    DistinctNoDup(t);
    PlugInorder(p, s);
    DelAtInorder(p, s);
    DelAtBalanced(p, s);
    SplitAround(Inorder(t), Before(p), Inorder(s.left), n, Inorder(s.right), After(p), i);
    DistinctNoDup(Del(t, n));
  }

  lemma SplitAround(s: seq<ZNode>, a: seq<ZNode>, l: seq<ZNode>, n: ZNode, r: seq<ZNode>, b: seq<ZNode>, i: nat)
    requires s == a + (l + [n] + r) + b && NoDup(s)
    requires i < |s| && s[i] == n
    ensures i == |a| + |l|
    ensures Without(s, i) == a + (l + r) + b && NoDup(a + (l + r) + b)
  {
    assert s[|a| + |l|] == n;
    assert i == |a| + |l|;
    assert s == (a + l) + [n] + (r + b);
    NoDupAround(a + l, n, r + b);
    assert (a + l) + (r + b) == a + (l + r) + b;
  }

  // After the successor has been detached, the node is still in the tree and
  // the successor is not.
  lemma SuccessorLeaves(p: Path, s: Tree)
    requires s.Node? && s.right.Node? && Distinct(Plug(p, s))
    ensures var (vp, v) := Leftmost(InRight(s.left, s.it, p), s.right);
      var rest := DelEasy(vp, v);
      Distinct(rest) && s.it in Nodes(rest) && v.it !in Nodes(rest) &&
      Nodes(rest) + {v.it} == Nodes(Plug(p, s)) &&
      PathNodes(vp) + Nodes(v) == Nodes(Plug(p, s))
  {
    var q := InRight(s.left, s.it, p);
    var (vp, v) := Leftmost(q, s.right);
    assert Plug(vp, v) == Plug(p, s);
    PlugNodes(vp, v);
    DetachNodes(vp, v);
    LeftmostBefore(q, s.right);
    PlugDistinct(vp, v);
    BeforeNodes(vp);
    assert s.it in Before(vp);
  }

  lemma {:induction false} BeforeNodes(p: Path)
    ensures forall x :: x in Before(p) ==> x in PathNodes(p)
  {
    match p
    case Root =>
    case InLeft(up, x, r) => BeforeNodes(up);
    case InRight(l, x, up) => BeforeNodes(up); NodesInorder(l);
  }

  lemma DetachNodes(p: Path, t: Tree)
    requires t.Node? && (t.left.Leaf? || t.right.Leaf?) && Distinct(Plug(p, t))
    ensures Distinct(DelEasy(p, t)) && t.it !in Nodes(DelEasy(p, t))
    ensures Nodes(DelEasy(p, t)) == PathNodes(p) + (Nodes(t) - {t.it})
  {
    var child := if t.left.Node? then t.left else t.right;
    PlugDistinct(p, t);
    if p != Root {
      FixNodes(p.up, Up(p, child));
      PlugDistinct(p, child);
    }
  }

  lemma {:induction false} ReplaceAbsent(t: Tree, n: ZNode, v: ZNode)
    requires n !in Nodes(t)
    ensures Replace(t, n, v) == t
  {
    match t
    case Leaf =>
    case Node(l, x, r) => ReplaceAbsent(l, n, v); ReplaceAbsent(r, n, v);
  }

  lemma PlugReplace(p: Path, s: Tree, v: ZNode)
    requires s.Node? && Distinct(Plug(p, s))
    ensures Replace(Plug(p, s), s.it, v) == Plug(p, Node(s.left, v, s.right))
  {
    PlugDistinct(p, s);
    ReplaceAbsent(s.left, s.it, v);
    ReplaceAbsent(s.right, s.it, v);
    PlugReplaceBelow(p, s, s.it, v);
  }

  lemma {:induction false} PlugReplaceBelow(p: Path, t: Tree, n: ZNode, v: ZNode)
    requires n !in PathNodes(p)
    ensures Replace(Plug(p, t), n, v) == Plug(p, Replace(t, n, v))
    decreases p
  {
    if p != Root {
      ReplaceAbsent(Sibling(p), n, v);
      PlugReplaceBelow(p.up, Up(p, t), n, v);
    }
  }

  // ----- Ranks -----

  // The position, in the whole order, of the root of the subtree at p.
  ghost function Rank(p: Path, t: Tree): nat
    requires t.Node?
  {
    |Before(p)| + Size(t.left)
  }

  lemma RankAt(p: Path, t: Tree)
    requires t.Node?
    ensures Rank(p, t) < |Inorder(Plug(p, t))| && Inorder(Plug(p, t))[Rank(p, t)] == t.it
  {
    PlugInorder(p, t);
    NodesInorder(t.left);
    assert Inorder(t)[Size(t.left)] == t.it;
  }

  lemma RankOf(p: Path, t: Tree, rank: nat)
    requires t.Node? && Distinct(Plug(p, t))
    requires rank < |Inorder(Plug(p, t))| && Inorder(Plug(p, t))[rank] == t.it
    ensures rank == Rank(p, t)
  {
    RankAt(p, t);
    DistinctNoDup(Plug(p, t));
  }

  lemma RankBounds(p: Path, t: Tree)
    requires t.Node?
    ensures Size(t.left) <= Rank(p, t) && Rank(p, t) + Size(t.right) < Size(Plug(p, t))
    ensures p == Root ==> Rank(p, t) == Size(t.left) && Size(Plug(p, t)) == Size(t)
    ensures |Inorder(Plug(p, t))| == Size(Plug(p, t))
  {
    PlugInorder(p, t);
    NodesInorder(t);
    NodesInorder(t.left);
    NodesInorder(t.right);
    NodesInorder(Plug(p, t));
  }

  lemma {:induction false} HeightPlug(p: Path, t: Tree)
    ensures Depth(p) + Height(t) <= Height(Plug(p, t))
    decreases p
  {
    if p != Root { HeightPlug(p.up, Up(p, t)); }
  }

  // ----- Height against size -----

  function Fib(n: nat): nat { if n < 2 then n else Fib(n - 1) + Fib(n - 2) }

  lemma {:induction false} FibMonotone(m: nat, n: nat)
    requires m <= n
    ensures Fib(m) <= Fib(n)
    decreases n
  {
    if m < n {
      FibMonotone(m, n - 1);
      if n == 2 { assert Fib(2) == 1; }
    }
  }

  lemma FibTwo()
    ensures Fib(2) == 1
  {
  }

  // An AVL tree of height h has at least Fib(h + 2) - 1 nodes.
  lemma {:induction false} MinSize(t: Tree)
    requires Balanced(t)
    ensures Size(t) + 1 >= Fib(Height(t) + 2)
  {
    hide Fib;
    match t
    case Leaf => FibTwo();
    case Node(l, _, r) =>
      MinSize(l);
      MinSize(r);
      FibStep(Height(l), Height(r));
  }

  lemma FibStep(a: nat, b: nat)
    requires a <= b + 1 && b <= a + 1
    ensures Fib(a + 2) + Fib(b + 2) >= Fib(1 + Max(a, b) + 2)
  {
    if a <= b { FibMonotone(b + 1, a + 2); } else { FibMonotone(a + 1, b + 2); }
  }

  function Pow2(n: nat): nat { if n == 0 then 1 else 2 * Pow2(n - 1) }

  lemma {:induction false} FibGrows(n: nat)
    ensures Fib(n + 2) >= Pow2(n / 2)
  {
    if n >= 2 {
      FibGrows(n - 2);
      FibMonotone(n, n + 1);
    } else {
      assert Fib(2) == 1 && Fib(3) == 2;
    }
  }

  // Height is logarithmic in the number of nodes.
  lemma {:induction false} HeightLogarithmic(t: Tree)
    requires Balanced(t)
    ensures Pow2(Height(t) / 2) <= Size(t) + 1
  {
    MinSize(t);
    FibGrows(Height(t));
  }
}
