// The pointer code of lib/server/avl.cpp.  A tree in the heap is described by
// Linked: the shape it has, with every parent and child link and every cached
// height and cnt in place.  Each method is proved against the function of
// module AvlTree with the same name.

module Avl {
  import opened Basics
  import opened ZNodes
  import opened AvlTree

  // n points to a tree of shape t whose root has parent p.
  ghost predicate Linked(t: Tree, n: ZNode?, p: ZNode?)
    reads Nodes(t)
  {
    match t
    case Leaf => n == null
    case Node(l, x, r) =>
      n == x && x.parent == p && x.height == Height(t) && x.cnt == Size(t) &&
      Linked(l, x.left, x) && Linked(r, x.right, x)
  }

  // As Linked, but height and cnt of n itself may be stale.
  ghost predicate KidsLinked(t: Tree, n: ZNode)
    reads Nodes(t)
  {
    t.Node? && n == t.it && Linked(t.left, n.left, n) && Linked(t.right, n.right, n)
  }

  function Above(p: Path): ZNode? {
    match p
    case Root => null
    case InLeft(_, x, _) => x
    case InRight(_, x, _) => x
  }

  // n hangs at p, and what lies beside the way up is a linked tree.  Nothing is
  // said about height and cnt of the nodes on the way up.
  ghost predicate PathLinked(p: Path, n: ZNode?)
    reads PathNodes(p)
  {
    match p
    case Root => true
    case InLeft(up, x, r) =>
      x.left == n && x.parent == Above(up) && Linked(r, x.right, x) && PathLinked(up, x)
    case InRight(l, x, up) =>
      x.right == n && x.parent == Above(up) && Linked(l, x.left, x) && PathLinked(up, x)
  }

  ghost predicate Apart(p: Path, t: Tree) {
    Distinct(t) && PathDistinct(p) && PathNodes(p) !! Nodes(t)
  }

  function HeightOf(n: ZNode?): nat
    reads n
  { if n == null then 0 else n.height }

  function CntOf(n: ZNode?): nat
    reads n
  { if n == null then 0 else n.cnt }

  // What a linked tree's root caches.
  lemma LinkedRoot(t: Tree, n: ZNode?, p: ZNode?)
    requires Linked(t, n, p)
    ensures HeightOf(n) == Height(t) && CntOf(n) == Size(t)
    ensures if t.Leaf? then n == null else n == t.it && n in Nodes(t)
  {
  }

  // "parent->left == node" tells on which side node hangs.
  lemma SideOf(p: Path, n: ZNode)
    requires PathLinked(p, n) && n !in PathNodes(p) && p != Root
    ensures Above(p).left == n <==> p.InLeft?
  {
    match p
    case InLeft(up, x, r) =>
    case InRight(l, x, up) => LinkedRoot(l, x.left, x);
  }

  // The nodes a ghost tree speaks of exist.
  lemma Allocated(t: Tree)
    ensures forall x :: x in Nodes(t) ==> allocated(x)
  {
  }

  lemma PathAllocated(p: Path)
    ensures forall x :: x in PathNodes(p) ==> allocated(x)
  {
    match p
    case Root =>
    case InLeft(up, x, r) => PathAllocated(up); Allocated(r);
    case InRight(l, x, up) => PathAllocated(up); Allocated(l);
  }

  // Recompute what node caches from its children.
  method Update(node: ZNode, ghost t: Tree)
    requires KidsLinked(t, node) && Distinct(t)
    modifies node`height, node`cnt
    ensures Linked(t, node, node.parent)
  {
    LinkedRoot(t.left, node.left, node);
    LinkedRoot(t.right, node.right, node);
    var h := 1 + Max(HeightOf(node.left), HeightOf(node.right));
    var c := 1 + CntOf(node.left) + CntOf(node.right);
    node.height := h;
    node.cnt := c;
  }

  // "if (n) n->parent = p"
  method Reparent(n: ZNode?, p: ZNode?, ghost t: Tree, ghost was: ZNode?)
    requires Linked(t, n, was) && Distinct(t)
    modifies if n == null then {} else {n}`parent
    ensures Linked(t, n, p)
  {
    if n != null {
      n.parent := p;
    }
  }

  method RotateLeft(node: ZNode, ghost t: Tree) returns (top: ZNode)
    requires t.Node? && t.right.Node? && Distinct(t) && KidsLinked(t, node)
    modifies Nodes(t)`parent, Nodes(t)`left, Nodes(t)`right, Nodes(t)`height, Nodes(t)`cnt
    ensures Linked(RotLeft(t), top, old(node.parent))
  {
    hide Height, Size;
    Allocated(t);
    var parent := node.parent;
    top := node.right;
    ghost var a, b, c := t.left, t.right.left, t.right.right;
    assert {node, top} !! Nodes(a) && {node, top} !! Nodes(b) && {node, top} !! Nodes(c);
    LinkedRoot(b, top.left, top);
    var inner := top.left;
    assert inner != null ==> inner !in Nodes(a) && inner !in Nodes(c);
    node.right := inner;
    Reparent(inner, node, b, top);
    top.parent := parent;
    top.left := node;
    node.parent := top;
    Update(node, Node(a, node, b));
    Update(top, RotLeft(t));
  }

  method RotateRight(node: ZNode, ghost t: Tree) returns (top: ZNode)
    requires t.Node? && t.left.Node? && Distinct(t) && KidsLinked(t, node)
    modifies Nodes(t)`parent, Nodes(t)`left, Nodes(t)`right, Nodes(t)`height, Nodes(t)`cnt
    ensures Linked(RotRight(t), top, old(node.parent))
  {
    hide Height, Size;
    Allocated(t);
    var parent := node.parent;
    top := node.left;
    ghost var a, b, c := t.left.left, t.left.right, t.right;
    assert {node, top} !! Nodes(a) && {node, top} !! Nodes(b) && {node, top} !! Nodes(c);
    LinkedRoot(b, top.right, top);
    var inner := top.right;
    assert inner != null ==> inner !in Nodes(a) && inner !in Nodes(c);
    node.left := inner;
    Reparent(inner, node, b, top);
    top.parent := parent;
    top.right := node;
    node.parent := top;
    Update(node, Node(b, node, c));
    Update(top, RotRight(t));
  }

  // avl_fix_left: the left subtree is taller by 2.
  method RepairLeft(node: ZNode, ghost t: Tree) returns (top: ZNode)
    requires t.Node? && t.left.Node? && Distinct(t) && KidsLinked(t, node)
    modifies Nodes(t)`parent, Nodes(t)`left, Nodes(t)`right, Nodes(t)`height, Nodes(t)`cnt
    ensures Linked(FixLeft(t), top, old(node.parent))
  {
    Allocated(t);
    ghost var s, l := t, t.left;
    LinkedRoot(l.left, node.left.left, node.left);
    LinkedRoot(l.right, node.left.right, node.left);
    if HeightOf(node.left.left) < HeightOf(node.left.right) {
      var newLeft := RotateLeft(node.left, l);
      node.left := newLeft;
      s := Node(RotLeft(l), t.it, t.right);
      RotationNodes(l.left, l.it, l.right.left, l.right.it, l.right.right);
    }
    top := RotateRight(node, s);
  }

  method RepairRight(node: ZNode, ghost t: Tree) returns (top: ZNode)
    requires t.Node? && t.right.Node? && Distinct(t) && KidsLinked(t, node)
    modifies Nodes(t)`parent, Nodes(t)`left, Nodes(t)`right, Nodes(t)`height, Nodes(t)`cnt
    ensures Linked(FixRight(t), top, old(node.parent))
  {
    hide Inorder, Balanced;
    Allocated(t);
    ghost var s, r := t, t.right;
    LinkedRoot(r.left, node.right.left, node.right);
    LinkedRoot(r.right, node.right.right, node.right);
    if HeightOf(node.right.right) < HeightOf(node.right.left) {
      var newRight := RotateRight(node.right, r);
      node.right := newRight;
      s := Node(t.left, t.it, RotRight(r));
      RotationNodes(r.left.left, r.left.it, r.left.right, r.it, r.right);
    }
    top := RotateLeft(node, s);
  }

  // "*from = child", where from is the link that p describes.
  method SetChild(parent: ZNode, isLeft: bool, child: ZNode?, ghost p: Path, ghost was: ZNode?, ghost s: Tree)
    requires p != Root && parent == p.it && isLeft == p.InLeft?
    requires PathLinked(p, was) && Linked(s, child, parent) && Apart(p, s)
    modifies parent`left, parent`right
    ensures KidsLinked(Up(p, s), parent) && PathLinked(p.up, parent)
    ensures parent.parent == Above(p.up) && Apart(p.up, Up(p, s))
  {
    hide Height, Size;
    if isLeft {
      parent.left := child;
    } else {
      parent.right := child;
    }
  }

  // avl_update, then the rotations of one round of avl_fix.
  method Repair(node: ZNode, ghost t: Tree) returns (top: ZNode)
    requires KidsLinked(t, node) && Distinct(t)
    modifies Nodes(t)`parent, Nodes(t)`left, Nodes(t)`right, Nodes(t)`height, Nodes(t)`cnt
    ensures Linked(FixNode(t), top, old(node.parent))
  {
    Allocated(t);
    Update(node, t);
    LinkedRoot(t.left, node.left, node);
    LinkedRoot(t.right, node.right, node);
    var l, r := HeightOf(node.left), HeightOf(node.right);
    top := node;
    if l == r + 2 {
      top := RepairLeft(node, t);
    } else if l + 2 == r {
      top := RepairRight(node, t);
    }
  }

  // node is the root of t, its own height and cnt possibly stale, and hangs at p.
  ghost predicate Hangs(p: Path, t: Tree, node: ZNode)
    reads PathNodes(p), Nodes(t)
  {
    KidsLinked(t, node) && node.parent == Above(p) && PathLinked(p, node) && Apart(p, t)
  }

  // One round of avl_fix: repair node and attach the result to the parent.
  method Round(node: ZNode, ghost p: Path, ghost t: Tree) returns (parent: ZNode?, top: ZNode)
    requires Hangs(p, t, node)
    modifies (PathNodes(p) + Nodes(t))`parent, (PathNodes(p) + Nodes(t))`left, (PathNodes(p) + Nodes(t))`right,
      (PathNodes(p) + Nodes(t))`height, (PathNodes(p) + Nodes(t))`cnt
    ensures parent == Above(p) && FixNode(t).Node?
    ensures parent == null ==> Linked(FixNode(t), top, null)
    ensures parent != null ==> Hangs(p.up, Up(p, FixNode(t)), parent)
  {
    Allocated(t);
    PathAllocated(p);
    FixNodeNodes(t);
    parent := node.parent;
    if parent == null {
      top := Repair(node, t);
      return;
    }
    SideOf(p, node);
    var isLeft := parent.left == node;
    top := Repair(node, t);
    SetChild(parent, isLeft, top, p, node, FixNode(t));
  }

  // avl_fix: rebalance from node up to the root; returns the new root.
  method Rebalance(start: ZNode, ghost p: Path, ghost t: Tree) returns (root: ZNode)
    requires Hangs(p, t, start)
    modifies (PathNodes(p) + Nodes(t))`parent, (PathNodes(p) + Nodes(t))`left, (PathNodes(p) + Nodes(t))`right,
      (PathNodes(p) + Nodes(t))`height, (PathNodes(p) + Nodes(t))`cnt
    ensures Linked(Fix(p, t), root, null)
  {
    hide Linked, PathLinked, Distinct, PathDistinct, FixNode;
    var node: ZNode := start;
    ghost var q, s := p, t;
    while true
      invariant Hangs(q, s, node)
      invariant Fix(q, s) == Fix(p, t)
      invariant PathNodes(q) + Nodes(s) == PathNodes(p) + Nodes(t)
      decreases q
    {
      FixNodeNodes(s);
      var parent, top := Round(node, q, s);
      if parent == null {
        return top;
      }
      q, s := q.up, Up(q, FixNode(s));
      node := parent;
    }
  }

  // ----- Whole trees, seen from one of their nodes -----

  function RootOf(t: Tree): ZNode? { if t.Leaf? then null else t.it }

  // The root pointer of the tree in which n hangs at p.
  function Top(p: Path, n: ZNode?): ZNode? {
    match p
    case Root => n
    case InLeft(up, x, _) => Top(up, x)
    case InRight(_, x, up) => Top(up, x)
  }

  // height and cnt on the way up are right if a tree of height h with c nodes
  // hangs at p.
  ghost predicate PathCached(p: Path, h: nat, c: nat)
    reads PathNodes(p)`height, PathNodes(p)`cnt
  {
    match p
    case Root => true
    case InLeft(up, x, r) =>
      x.height == 1 + Max(h, Height(r)) && x.cnt == 1 + c + Size(r) && PathCached(up, x.height, x.cnt)
    case InRight(l, x, up) =>
      x.height == 1 + Max(h, Height(l)) && x.cnt == 1 + Size(l) + c && PathCached(up, x.height, x.cnt)
  }

  lemma {:induction false} PlugLinked(p: Path, t: Tree)
    ensures Linked(Plug(p, t), Top(p, RootOf(t)), null) <==>
      Linked(t, RootOf(t), Above(p)) && PathLinked(p, RootOf(t)) && PathCached(p, Height(t), Size(t))
    ensures RootOf(Plug(p, t)) == Top(p, RootOf(t))
    decreases p
  {
    if p != Root { PlugLinked(p.up, Up(p, t)); }
    match p
    case Root =>
    case InLeft(up, x, r) => LinkedNode(t, x, r, Above(up));
    case InRight(l, x, up) => LinkedNode(l, x, t, Above(up));
  }

  lemma LinkedNode(l: Tree, x: ZNode, r: Tree, p: ZNode?)
    ensures Linked(Node(l, x, r), x, p) <==>
      x.parent == p && x.height == 1 + Max(Height(l), Height(r)) && x.cnt == 1 + Size(l) + Size(r) &&
      x.left == RootOf(l) && x.right == RootOf(r) && Linked(l, RootOf(l), x) && Linked(r, RootOf(r), x)
  {
  }

  // Every node of a linked tree hangs somewhere in it.
  lemma LocateHangs(t: Tree, root: ZNode?, n: ZNode)
    requires Linked(t, root, null) && Distinct(t) && n in Nodes(t)
    ensures var (p, s) := Locate(Root, t, n);
      Hangs(p, s, n) && Linked(s, n, Above(p)) && PathCached(p, Height(s), Size(s)) && root == Top(p, n)
  {
    var (p, s) := Locate(Root, t, n);
    LinkedRoot(t, root, null);
    PlugLinked(p, s);
    PlugDistinct(p, s);
  }

  // ----- Deletion -----

  // avl_del_easy: detach a node that lacks a child; returns the new root.
  method DetachEasy(node: ZNode, ghost p: Path, ghost t: Tree) returns (root: ZNode?)
    requires Hangs(p, t, node) && (t.left.Leaf? || t.right.Leaf?)
    modifies (PathNodes(p) + Nodes(t))`parent, (PathNodes(p) + Nodes(t))`left, (PathNodes(p) + Nodes(t))`right,
      (PathNodes(p) + Nodes(t))`height, (PathNodes(p) + Nodes(t))`cnt
    ensures Linked(DelEasy(p, t), root, null)
  {
    Allocated(t);
    PathAllocated(p);
    LinkedRoot(t.left, node.left, node);
    LinkedRoot(t.right, node.right, node);
    ghost var c := if t.left.Node? then t.left else t.right;
    var child := if node.left != null then node.left else node.right;
    var parent := node.parent;
    assert child != null ==> child !in PathNodes(p);
    Reparent(child, parent, c, node);
    if parent == null {
      return child;
    }
    SideOf(p, node);
    var isLeft := parent.left == node;
    SetChild(parent, isLeft, child, p, node, c);
    root := Rebalance(parent, p.up, Up(p, c));
  }

  // "*victim = *node": victim takes over node's parent, children and caches.
  method TakeLinks(node: ZNode, victim: ZNode, ghost s: Tree)
    requires s.Node? && Linked(s, node, node.parent) && Distinct(s) && victim !in Nodes(s)
    modifies victim`parent, victim`left, victim`right, victim`height, victim`cnt
    modifies Nodes(s.left)`parent, Nodes(s.right)`parent
    ensures Linked(Node(s.left, victim, s.right), victim, node.parent)
  {
    Allocated(s);
    LinkedRoot(s.left, node.left, node);
    LinkedRoot(s.right, node.right, node);
    victim.parent, victim.left, victim.right := node.parent, node.left, node.right;
    victim.height, victim.cnt := node.height, node.cnt;
    Reparent(victim.left, victim, s.left, node);
    Reparent(victim.right, victim, s.right, node);
  }

  // Redirect to victim the link from above, or the root pointer.
  method TakePlace(node: ZNode, victim: ZNode, root: ZNode?, ghost p: Path, ghost s: Tree) returns (top: ZNode?)
    requires Linked(s, victim, Above(p)) && node.parent == Above(p)
    requires PathLinked(p, node) && Apart(p, s) && node !in PathNodes(p)
    requires root == Top(p, node)
    modifies PathNodes(p)`left, PathNodes(p)`right
    ensures Linked(s, victim, Above(p)) && PathLinked(p, victim)
    ensures top == Top(p, victim)
  {
    Allocated(s);
    PathAllocated(p);
    var parent := node.parent;
    top := root;
    if parent == null {
      top := victim;
    } else {
      SideOf(p, node);
      var isLeft := parent.left == node;
      SetChild(parent, isLeft, victim, p, node, s);
    }
  }

  // The successor walk of avl_del.
  method FindLeftmost(start: ZNode, ghost p: Path, ghost t: Tree) returns (victim: ZNode)
    requires Hangs(p, t, start)
    ensures var (vp, v) := Leftmost(p, t); Hangs(vp, v, victim)
  {
    victim := start;
    ghost var vp, v := p, t;
    while victim.left != null
      invariant Hangs(vp, v, victim) && Leftmost(vp, v) == Leftmost(p, t)
      decreases v
    {
      LinkedRoot(v.left, victim.left, victim);
      victim := victim.left;
      vp, v := InLeft(vp, v.it, v.right), v.left;
    }
    LinkedRoot(v.left, victim.left, victim);
  }

  // avl_del: detach node; returns the new root.
  method Delete(node: ZNode, ghost t: Tree) returns (root: ZNode?)
    requires Linked(t, RootOf(t), null) && Distinct(t) && node in Nodes(t)
    modifies Nodes(t)`parent, Nodes(t)`left, Nodes(t)`right, Nodes(t)`height, Nodes(t)`cnt
    ensures Linked(Del(t, node), root, null)
  {
    Allocated(t);
    ghost var (p, s) := Locate(Root, t, node);
    LocateHangs(t, RootOf(t), node);
    PlugNodes(p, s);
    LinkedRoot(s.left, node.left, node);
    LinkedRoot(s.right, node.right, node);
    if node.left == null || node.right == null {
      root := DetachEasy(node, p, s);
      return;
    }
    ghost var q := InRight(s.left, node, p);
    var victim := FindLeftmost(node.right, q, s.right);
    ghost var (vp, v) := Leftmost(q, s.right);
    SuccessorLeaves(p, s);
    var rest := DetachEasy(victim, vp, v);
    root := Succeed(node, victim, rest, DelEasy(vp, v));
  }

  // With another node in the middle of s, the whole tree is linked as the one with that node replaced.
  lemma LinkedReplaced(p: Path, s: Tree, victim: ZNode)
    requires s.Node? && Distinct(Plug(p, s))
    requires Linked(Node(s.left, victim, s.right), victim, Above(p)) && PathLinked(p, victim)
    requires PathCached(p, Height(s), Size(s))
    ensures Linked(Replace(Plug(p, s), s.it, victim), Top(p, victim), null)
  {
    PlugLinked(p, Node(s.left, victim, s.right));
    PlugReplace(p, s, victim);
  }

  // The second half of avl_del: victim, already detached, replaces node.
  method Succeed(node: ZNode, victim: ZNode, rest: ZNode?, ghost t: Tree) returns (root: ZNode?)
    requires Linked(t, rest, null) && Distinct(t) && node in Nodes(t) && victim !in Nodes(t)
    modifies victim`parent, victim`left, victim`right, victim`height, victim`cnt
    modifies Nodes(t)`parent, Nodes(t)`left, Nodes(t)`right
    ensures Linked(Replace(t, node, victim), root, null)
  {
    Allocated(t);
    hide Linked, PathLinked, KidsLinked, PathCached, Locate, Replace, PathDistinct, Inorder, Top;
    ghost var (p, s) := Locate(Root, t, node);
    LocateHangs(t, rest, node);
    PlugNodes(p, s);
    PathAllocated(p);
    TakeLinks(node, victim, s);
    ghost var r := Node(s.left, victim, s.right);
    root := TakePlace(node, victim, rest, p, r);
    LinkedReplaced(p, s, victim);
  }

  // ----- The rank walk -----

  // node points to t, which hangs at p in a tree that is linked throughout.
  ghost predicate Spot(p: Path, t: Tree, node: ZNode?)
    reads PathNodes(p), Nodes(t)
  {
    Linked(t, node, Above(p)) && PathLinked(p, node) &&
    PathCached(p, Height(t), Size(t)) && Apart(p, t)
  }

  ghost predicate Sits(p: Path, t: Tree, node: ZNode)
    reads PathNodes(p), Nodes(t)
  {
    t.Node? && t.it == node && Spot(p, t, node)
  }

  lemma SpotRoot(t: Tree, root: ZNode?)
    requires Linked(t, root, null) && Distinct(t)
    ensures Spot(Root, t, root) && Plug(Root, t) == t
  {
  }

  lemma SpotBelow(p: Path, t: Tree, node: ZNode)
    requires Spot(p, t, node)
    ensures Sits(p, t, node)
    ensures Spot(InLeft(p, t.it, t.right), t.left, node.left)
    ensures Spot(InRight(t.left, t.it, p), t.right, node.right)
    ensures Plug(InLeft(p, t.it, t.right), t.left) == Plug(p, t)
    ensures Plug(InRight(t.left, t.it, p), t.right) == Plug(p, t)
  {
  }

  lemma SitsLeft(p: Path, t: Tree, node: ZNode)
    requires Sits(p, t, node) && t.left.Node?
    ensures node.left != null && Sits(InLeft(p, t.it, t.right), t.left, node.left)
    ensures Rank(InLeft(p, t.it, t.right), t.left) + CntOf(node.left.right) + 1 == Rank(p, t)
  {
    LinkedRoot(t.left, node.left, node);
    LinkedRoot(t.left.right, node.left.right, node.left);
  }

  lemma SitsRight(p: Path, t: Tree, node: ZNode)
    requires Sits(p, t, node) && t.right.Node?
    ensures node.right != null && Sits(InRight(t.left, t.it, p), t.right, node.right)
    ensures Rank(InRight(t.left, t.it, p), t.right) == Rank(p, t) + CntOf(node.right.left) + 1
  {
    LinkedRoot(t.right, node.right, node);
    LinkedRoot(t.right.left, node.right.left, node.right);
    NodesInorder(t.left);
  }

  lemma SitsAbove(p: Path, t: Tree, node: ZNode)
    requires Sits(p, t, node) && p != Root
    ensures Sits(p.up, Up(p, t), p.it)
    ensures p.it.right == node <==> p.InRight?
    ensures if p.InRight? then Rank(p.up, Up(p, t)) + Size(t.left) + 1 == Rank(p, t)
      else Rank(p.up, Up(p, t)) == Rank(p, t) + Size(t.right) + 1
  {
    match p
    case InLeft(up, x, r) => LinkedRoot(r, x.right, x); LinkedNode(t, x, r, Above(up));
    case InRight(l, x, up) => LinkedNode(l, x, t, Above(up)); NodesInorder(l);
  }

  lemma SitsCounts(p: Path, t: Tree, node: ZNode)
    requires Sits(p, t, node)
    ensures CntOf(node.left) == Size(t.left) && CntOf(node.right) == Size(t.right)
    ensures node.parent == Above(p)
  {
    LinkedRoot(t.left, node.left, node);
    LinkedRoot(t.right, node.right, node);
  }

  // The target lies in the subtree t, whose root is pos steps from the start.
  ghost predicate InReach(t: Tree, pos: int, offset: int) {
    t.Node? && pos - Size(t.left) <= offset <= pos + Size(t.right)
  }

  // The counters are uint32_t.
  const CNT_LIMIT: nat := 0x1_0000_0000

  // One move of avl_offset: down if the target lies below, up if it does not;
  // off the tree only if the target does not exist.  No sum leaves int64.
  method Move(node: ZNode, pos: int64, offset: int64, ghost p: Path, ghost t: Tree, ghost start: int)
    returns (next: ZNode?, there: int64, ghost q: Path, ghost s: Tree)
    requires Sits(p, t, node) && offset != pos && start + pos as int == Rank(p, t)
    requires 0 <= start < Size(Plug(p, t)) < CNT_LIMIT
    ensures next == null ==> !(0 <= start + offset as int < Size(Plug(p, t)))
    ensures next != null ==> Sits(q, s, next) && Plug(q, s) == Plug(p, t) && start + there as int == Rank(q, s)
    ensures next != null && InReach(t, pos as int, offset as int) ==>
      InReach(s, there as int, offset as int) && Depth(q) == Depth(p) + 1 && Size(s) < Size(t)
    ensures next != null && !InReach(t, pos as int, offset as int) ==> Depth(q) + 1 == Depth(p)
  {
    hide Linked, PathLinked, PathCached, Distinct, PathDistinct, Height, Before, Inorder, Balanced, Spot;
    SitsCounts(p, t, node);
    RankBounds(p, t);
    q, s, there := p, t, pos;
    if pos < offset && pos + CntOf(node.right) as int64 >= offset {
      assert Size(t.right) > 0;
      SitsRight(p, t, node);
      next := node.right;
      q, s := InRight(t.left, t.it, p), t.right;
      SitsCounts(q, s, next);
      there := pos + (CntOf(next.left) as int64 + 1);
    } else if pos > offset && pos - CntOf(node.left) as int64 <= offset {
      assert Size(t.left) > 0;
      SitsLeft(p, t, node);
      next := node.left;
      q, s := InLeft(p, t.it, t.right), t.left;
      SitsCounts(q, s, next);
      there := pos - (CntOf(next.right) as int64 + 1);
    } else {
      next := node.parent;
      if next == null {
        return;
      }
      SitsAbove(p, t, node);
      there := if next.right == node
        then pos - (CntOf(node.left) as int64 + 1) else pos + (CntOf(node.right) as int64 + 1);
      q, s := p.up, Up(p, t);
    }
  }

  // The place of the node with that rank.
  lemma Seat(whole: Tree, start: ZNode, rank: nat) returns (p: Path, t: Tree)
    requires Linked(whole, RootOf(whole), null) && Distinct(whole)
    requires rank < |Inorder(whole)| && Inorder(whole)[rank] == start
    ensures Sits(p, t, start) && Plug(p, t) == whole && rank == Rank(p, t) && Depth(p) < Height(whole)
  {
    NodesInorder(whole);
    LocateHangs(whole, RootOf(whole), start);
    p, t := Locate(Root, whole, start).0, Locate(Root, whole, start).1;
    RankOf(p, t, rank);
    HeightPlug(p, t);
  }

  // avl_offset: the node whose rank is offset away from start's.
  method Offset(start: ZNode, offset: int64, ghost whole: Tree, ghost rank: nat)
    returns (r: ZNode?, ghost moves: nat)
    requires Linked(whole, RootOf(whole), null) && Distinct(whole) && Size(whole) < CNT_LIMIT
    requires rank < |Inorder(whole)| && Inorder(whole)[rank] == start
    ensures r == if 0 <= rank + offset as int < |Inorder(whole)| then Inorder(whole)[rank + offset as int] else null
    ensures moves <= 2 * (Height(whole) - 1)
  {
    hide Linked, PathLinked, PathCached, Distinct, PathDistinct, Before;
    ghost var p, t := Seat(whole, start, rank);
    RankBounds(p, t);
    ghost var deep, down := Depth(p), false;
    moves := 0;
    var node: ZNode := start;
    var pos: int64 := 0;
    while offset != pos
      invariant Sits(p, t, node) && Plug(p, t) == whole && rank + pos as int == Rank(p, t)
      invariant deep < Height(whole)
      invariant if down then InReach(t, pos as int, offset as int) && moves <= deep + Depth(p)
        else moves + Depth(p) == deep
      decreases !down, if down then Size(t) else Depth(p)
    {
      var next, there, q, s := Move(node, pos, offset, p, t, rank);
      if next == null {
        HeightPlug(p, t);
        return null, moves;
      }
      down := InReach(t, pos as int, offset as int);
      node, pos, p, t := next, there, q, s;
      moves := moves + 1;
    }
    HeightPlug(p, t);
    RankAt(p, t);
    r := node;
  }
}
