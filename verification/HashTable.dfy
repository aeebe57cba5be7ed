// The progressively rehashed map of lib/server/HashTable.cpp.  A node is
// embedded in the payload that owns it; owner stands for container_of.

module HashTable {
  import opened Seqs

  const K_MAX_LOAD_FACTOR: nat := 8
  const K_REHASHING_WORK: nat := 128

  class HNode<T> {
    var next: HNode?<T>
    const hcode: nat
    const owner: T

    constructor (owner: T, hcode: nat)
      ensures this.owner == owner && this.hcode == hcode
    {
      this.owner := owner;
      this.hcode := hcode;
      next := null;
    }
  }

  // The incoming pointer to a node: a slot, or the next field of a node.
  datatype Link<T> = NoLink | Slot(i: nat) | NextOf(prev: HNode<T>)

  ghost function Exp2(k: nat): (r: nat)
    ensures r >= 1
  {
    if k == 0 then 1 else 2 * Exp2(k - 1)
  }

  // hcode & mask.
  function SlotOf(hcode: nat, mask: nat): (r: nat)
    ensures r <= mask
  {
    hcode % (mask + 1)
  }

  // a & b, bit by bit.
  function And(a: nat, b: nat): nat
    decreases b
  {
    if b == 0 then 0 else 2 * And(a / 2, b / 2) + if a % 2 == 1 && b % 2 == 1 then 1 else 0
  }

  // SlotOf is the bitwise "and" for the masks that occur.
  lemma {:induction false} SlotOfIsAnd(hcode: nat, k: nat)
    ensures SlotOf(hcode, Exp2(k) - 1) == And(hcode, Exp2(k) - 1)
    decreases k
  {
    if k > 0 {
      var m := Exp2(k - 1);
      SlotOfIsAnd(hcode / 2, k - 1);
      ModDouble(hcode, m);
      assert Exp2(k) == 2 * m && (2 * m - 1) / 2 == m - 1 && (2 * m - 1) % 2 == 1;
    }
  }

  lemma ModDouble(a: nat, n: nat)
    requires n > 0
    ensures a % (2 * n) == 2 * ((a / 2) % n) + a % 2
  {
    var h := a / 2;
    DivMod(h, n);
    Double(n, h / n);
    ModUnique(a, 2 * n, h / n, 2 * (h % n) + a % 2);
  }

  lemma Double(n: nat, q: nat)
    ensures 2 * (n * q) == (2 * n) * q
  {
  }

  lemma DivMod(a: nat, n: nat)
    requires n > 0
    ensures a == n * (a / n) + a % n && 0 <= a % n < n && 0 <= a / n
  {
  }

  lemma ModUnique(a: nat, n: nat, q: nat, r: nat)
    requires r < n && a == n * q + r
    ensures a % n == r
  {
    DivMod(a, n);
    var p := a / n;
    if p > q {
      MulGap(n, q, p);
    } else if p < q {
      MulGap(n, p, q);
    }
  }

  lemma {:induction false} MulGap(n: nat, q: nat, p: nat)
    requires q < p
    ensures n * q + n <= n * p
    decreases p
  {
    MulStep(n, p - 1);
    if q + 1 < p {
      MulGap(n, q, p - 1);
    }
  }

  lemma MulStep(n: nat, q: nat)
    ensures n * (q + 1) == n * q + n
  {
  }

  // ----- Chains -----

  ghost function First<T>(s: seq<HNode<T>>): HNode?<T> {
    if s == [] then null else s[0]
  }

  ghost function After<T>(s: seq<HNode<T>>, k: nat): HNode?<T> {
    if k + 1 < |s| then s[k + 1] else null
  }

  // The chains hold exactly these nodes, each one once, in the chain of its hash.
  ghost predicate Bucketed<T>(chains: seq<seq<HNode<T>>>, nodes: set<HNode<T>>) {
    |chains| > 0 &&
    (forall i, k {:trigger chains[i][k]} :: 0 <= i < |chains| && 0 <= k < |chains[i]| ==>
      chains[i][k] in nodes && SlotOf(chains[i][k].hcode, |chains| - 1) == i) &&
    (forall i {:trigger chains[i]} :: 0 <= i < |chains| ==> NoDup(chains[i])) &&
    forall n {:trigger Home(chains, n)} :: n in nodes ==> Home(chains, n)
  }

  ghost predicate Home<T>(chains: seq<seq<HNode<T>>>, n: HNode<T>) {
    |chains| > 0 && n in chains[SlotOf(n.hcode, |chains| - 1)]
  }

  lemma BucketedInsert<T>(chains: seq<seq<HNode<T>>>, nodes: set<HNode<T>>, n: HNode<T>, i: nat)
    requires Bucketed(chains, nodes) && n !in nodes && i == SlotOf(n.hcode, |chains| - 1)
    ensures Bucketed(chains[i := [n] + chains[i]], nodes + {n})
  {
    var c, s := chains[i := [n] + chains[i]], nodes + {n};
    assert c[i][0] == n;
    forall m | m in s ensures Home(c, m) {
      assert Home(chains, m) || m == n;
    }
  }

  lemma NotChained<T>(chains: seq<seq<HNode<T>>>, nodes: set<HNode<T>>, n: HNode<T>)
    requires Bucketed(chains, nodes) && n !in nodes
    ensures forall i, k {:trigger chains[i][k]} :: 0 <= i < |chains| && 0 <= k < |chains[i]| ==> chains[i][k] != n
  {
  }

  lemma BucketedDetach<T>(chains: seq<seq<HNode<T>>>, nodes: set<HNode<T>>, i: nat, k: nat)
    requires Bucketed(chains, nodes) && i < |chains| && k < |chains[i]|
    ensures chains[i][k] in nodes && Bucketed(chains[i := Without(chains[i], k)], nodes - {chains[i][k]})
  {
    var x, was := chains[i][k], chains[i];
    var c, s := chains[i := Without(was, k)], nodes - {x};
    forall m | m in s ensures Home(c, m) {
      assert Home(chains, m);
      if SlotOf(m.hcode, |c| - 1) == i {
        var j :| 0 <= j < |was| && was[j] == m;
        assert c[i][if j < k then j else j - 1] == m;
      }
    }
  }

  // A node has one place only.
  lemma OnePlace<T>(chains: seq<seq<HNode<T>>>, nodes: set<HNode<T>>, i: nat, k: nat)
    requires Bucketed(chains, nodes) && i < |chains| && k < |chains[i]|
    ensures forall j, m {:trigger chains[j][m]} :: 0 <= j < |chains| && 0 <= m < |chains[j]| ==>
      (chains[j][m] == chains[i][k] <==> j == i && m == k)
  {
    forall j, m | 0 <= j < |chains| && 0 <= m < |chains[j]| && chains[j][m] == chains[i][k]
      ensures j == i && m == k
    {
      assert NoDup(chains[i]);
    }
  }

  ghost function Flatten<T>(chains: seq<seq<T>>): seq<T> {
    if chains == [] then [] else Flatten(chains[..|chains| - 1]) + chains[|chains| - 1]
  }

  // The nodes of the slots below n.
  ghost function Below<T>(nodes: set<HNode<T>>, mask: nat, n: nat): set<HNode<T>> {
    set m | m in nodes && SlotOf(m.hcode, mask) < n
  }

  // Chain n adds the nodes of slot n.
  lemma BelowStep<T>(chains: seq<seq<HNode<T>>>, nodes: set<HNode<T>>, n: nat)
    requires Bucketed(chains, nodes) && n < |chains|
    ensures Below(nodes, |chains| - 1, n + 1) == Below(nodes, |chains| - 1, n) + Elems(chains[n])
    ensures Below(nodes, |chains| - 1, n) !! Elems(chains[n]) && NoDup(chains[n])
  {
    var c := chains[n];
    forall m | m in c ensures m in nodes && SlotOf(m.hcode, |chains| - 1) == n {
      var k :| 0 <= k < |c| && c[k] == m;
      assert chains[n][k] in nodes;
    }
    forall m | m in nodes && SlotOf(m.hcode, |chains| - 1) == n ensures m in c {
      assert Home(chains, m);
    }
  }

  // The chains below the n-th, one after the other, list the nodes of the
  // slots below n, each one once.
  lemma {:induction false} FlattenBucketed<T>(chains: seq<seq<HNode<T>>>, nodes: set<HNode<T>>, n: nat)
    requires Bucketed(chains, nodes) && n <= |chains|
    ensures NoDup(Flatten(chains[..n])) && Elems(Flatten(chains[..n])) == Below(nodes, |chains| - 1, n)
  {
    if n > 0 {
      hide Bucketed;
      FlattenBucketed(chains, nodes, n - 1);
      BelowStep(chains, nodes, n - 1);
      assert chains[..n][..n - 1] == chains[..n - 1];
      ElemsConcat(Flatten(chains[..n - 1]), chains[n - 1]);
    }
  }

  lemma {:induction false} FlattenPrefix<T>(chains: seq<seq<T>>, i: nat)
    requires i < |chains|
    ensures Flatten(chains[..i + 1]) == Flatten(chains[..i]) + chains[i]
    ensures Flatten(chains[..i + 1]) <= Flatten(chains)
    decreases |chains|
  {
    assert chains[..i + 1][..i] == chains[..i];
    var n := |chains| - 1;
    if i < n {
      FlattenPrefix(chains[..n], i);
      assert chains[..n][..i + 1] == chains[..i + 1];
    } else {
      assert chains[..i + 1] == chains;
    }
  }

  // Calling f on the nodes of s in order, until it returns false, reached part.
  ghost predicate Visits<T>(f: HNode<T> -> bool, s: seq<HNode<T>>, done: bool, part: seq<HNode<T>>) {
    if done then part == s && forall n :: n in part ==> f(n)
    else part <= s && part != [] && !f(part[|part| - 1]) && forall n :: n in part[..|part| - 1] ==> f(n)
  }

  lemma VisitsFrom<T>(f: HNode<T> -> bool, s: seq<HNode<T>>, done: bool, part: seq<HNode<T>>)
    requires Visits(f, s, done, part) && NoDup(s)
    ensures NoDup(part) && Elems(part) <= Elems(s)
    ensures (forall n :: n in Elems(s) ==> f(n)) ==> done
  {
    if !done { assert part[|part| - 1] in Elems(s); }
  }

  lemma VisitsConcat<T>(f: HNode<T> -> bool, a: seq<HNode<T>>, b: seq<HNode<T>>, va: seq<HNode<T>>,
      done: bool, vb: seq<HNode<T>>)
    requires Visits(f, a, true, va) && Visits(f, b, done, vb)
    ensures Visits(f, a + b, done, va + vb)
  {
    if !done {
      assert (va + vb)[..|va + vb| - 1] == va + vb[..|vb| - 1];
    }
  }

  // Each node's next is the one after it in its chain.
  ghost predicate NextLinks<T>(chains: seq<seq<HNode<T>>>)
    reads set i, k | 0 <= i < |chains| && 0 <= k < |chains[i]| :: chains[i][k]
  {
    forall i, k {:trigger chains[i][k]} :: 0 <= i < |chains| && 0 <= k < |chains[i]| ==>
      chains[i][k].next == After(chains[i], k)
  }

  lemma NextLinksDetach<T>(chains: seq<seq<HNode<T>>>, i: nat, k: nat)
    requires i < |chains| && k < |chains[i]|
    requires forall j, m {:trigger chains[j][m]} :: 0 <= j < |chains| && 0 <= m < |chains[j]| ==>
      chains[j][m].next == After(chains[j], if j == i && m + 1 == k then k else m)
    ensures NextLinks(chains[i := Without(chains[i], k)])
  {
    var c: seq<seq<HNode<T>>> := chains[i := Without(chains[i], k)];
    forall j, m | 0 <= j < |c| && 0 <= m < |c[j]| ensures c[j][m].next == After(c[j], m) {
      assert c[j][m] == chains[j][if j == i && m >= k then m + 1 else m];
    }
  }

  // One fixed-size table.
  class HTab<T> {
    var tab: array?<HNode?<T>>
    var mask: nat
    var size: nat
    // chains[i] lists the nodes of slot i in order; nodes is what they hold.
    ghost var chains: seq<seq<HNode<T>>>
    ghost var nodes: set<HNode<T>>
    ghost var bits: nat

    ghost predicate Valid()
      reads this, tab, nodes
    {
      if tab == null then mask == 0 && size == 0 && nodes == {} && chains == [] else Live()
    }

    // The table has its slots.
    ghost predicate Live()
      reads this, tab, nodes
    {
      tab != null && tab.Length == mask + 1 == Exp2(bits) && |chains| == mask + 1 && size == |nodes| &&
      Bucketed(chains, nodes) && NextLinks(chains) &&
      forall i {:trigger chains[i]} :: 0 <= i <= mask ==> tab[i] == First(chains[i])
    }

    // from is the incoming pointer to the k-th node of chain i.
    ghost predicate Points(from: Link<T>, i: nat, k: nat)
      reads this
    {
      i < |chains| && k < |chains[i]| &&
      from == if k == 0 then Slot(i) else NextOf(chains[i][k - 1])
    }

    // HTab{}
    constructor Empty()
      ensures Valid() && tab == null && nodes == {} && fresh(this)
    {
      tab, mask, size := null, 0, 0;
      chains, nodes, bits := [], {}, 0;
    }

    // h_init
    constructor Init(n: nat, ghost k: nat)
      requires n == Exp2(k)
      ensures Live() && fresh(tab) && fresh(this)
      ensures mask == n - 1 && nodes == {} && bits == k
      ensures forall i :: 0 <= i < n ==> chains[i] == []
    {
      var t: array<HNode?<T>> := new HNode?<T>[n](_ => null);
      tab := t;
      mask, size := n - 1, 0;
      chains, nodes, bits := seq(n, _ => []), {}, k;
    }

    // h_insert
    method Insert(node: HNode<T>)
      requires Live() && node !in nodes
      modifies this`chains, this`nodes, this`size, tab, node`next
      ensures Live() && nodes == old(nodes) + {node}
      ensures chains == old(chains[SlotOf(node.hcode, mask) := [node] + chains[SlotOf(node.hcode, mask)]])
    {
      hide Bucketed, SlotOf;
      var pos := SlotOf(node.hcode, mask);
      BucketedInsert(chains, nodes, node, pos);
      NotChained(chains, nodes, node);
      var next := tab[pos];
      node.next := next;
      tab[pos] := node;
      size := size + 1;
      chains := chains[pos := [node] + chains[pos]];
      nodes := nodes + {node};
    }

    function Deref(from: Link<T>): HNode?<T>
      requires from.Slot? ==> tab != null && from.i < tab.Length
      reads this, tab, if from.NextOf? then {from.prev} else {}
    {
      match from
      case NoLink => null
      case Slot(i) => tab[i]
      case NextOf(prev) => prev.next
    }

    // h_lookup: the incoming pointer to a node with this hash that eq accepts.
    method Lookup(hcode: nat, eq: HNode<T> -> bool) returns (from: Link<T>, ghost i: nat, ghost k: nat)
      requires Valid()
      ensures from.NoLink? ==> forall n :: n in nodes ==> !(n.hcode == hcode && eq(n))
      ensures !from.NoLink? ==>
        (tab != null && Points(from, i, k) &&
        chains[i][k] in nodes && chains[i][k].hcode == hcode && eq(chains[i][k]))
    {
      i, k := 0, 0;
      if tab == null {
        return NoLink, 0, 0;
      }
      var pos := SlotOf(hcode, mask);
      i := pos;
      from := Slot(pos);
      var cur := tab[pos];
      while cur != null
        invariant k <= |chains[i]|
        invariant cur == if k < |chains[i]| then chains[i][k] else null
        invariant k < |chains[i]| ==> Points(from, i, k)
        invariant forall j :: 0 <= j < k ==> !(chains[i][j].hcode == hcode && eq(chains[i][j]))
        decreases |chains[i]| - k
      {
        if cur.hcode == hcode && eq(cur) {
          return;
        }
        from := NextOf(cur);
        cur := cur.next;
        k := k + 1;
      }
      from := NoLink;
      forall n | n in nodes ensures !(n.hcode == hcode && eq(n)) {
        assert Home(chains, n);
      }
    }

    // The inner loop of h_foreach: f is called on the nodes of one chain.
    method VisitChain(f: HNode<T> -> bool, i: nat) returns (done: bool, part: seq<HNode<T>>)
      requires Live() && i <= mask
      ensures Visits(f, chains[i], done, part)
    {
      part := [];
      var node := tab[i];
      ghost var k := 0;
      while node != null
        invariant k <= |chains[i]|
        invariant node == if k < |chains[i]| then chains[i][k] else null
        invariant part == chains[i][..k]
        invariant forall n :: n in part ==> f(n)
        decreases |chains[i]| - k
      {
        part := part + [node];
        if !f(node) {
          assert part[..|part| - 1] == chains[i][..k];
          return false, part;
        }
        node := node.next;
        k := k + 1;
      }
      done := true;
    }

    // h_foreach: call f on each node until it returns false.
    method Foreach(f: HNode<T> -> bool) returns (done: bool, visited: seq<HNode<T>>)
      requires Valid() && (tab != null ==> mask > 0)
      ensures Visits(f, Flatten(chains), done, visited)
    {
      visited := [];
      var i := 0;
      while mask != 0 && i <= mask
        invariant i <= |chains| && (mask == 0 ==> i == 0)
        invariant Visits(f, Flatten(chains[..i]), true, visited)
        decreases mask + 1 - i
      {
        var done', part := VisitChain(f, i);
        VisitsConcat(f, Flatten(chains[..i]), chains[i], visited, done', part);
        FlattenPrefix(chains, i);
        visited := visited + part;
        if !done' {
          return false, visited;
        }
        i := i + 1;
      }
      assert chains[..i] == chains;
      done := true;
    }

    lemma Incoming(from: Link<T>, i: nat, k: nat)
      requires Live() && Points(from, i, k)
      ensures from.Slot? ==> from.i < tab.Length
      ensures Deref(from) == chains[i][k]
    {
      hide Bucketed, SlotOf;
    }

    // "*from = node->next", where from is the incoming pointer to node.
    method Unlink(from: Link<T>, node: HNode<T>, ghost i: nat, ghost k: nat)
      requires Live() && Points(from, i, k) && node == chains[i][k]
      modifies tab, nodes`next
      ensures forall j {:trigger chains[j]} :: 0 <= j <= mask ==>
        tab[j] == First(if j == i then Without(chains[i], k) else chains[j])
      ensures NextLinks(chains[i := Without(chains[i], k)])
    {
      if k > 0 {
        OnePlace(chains, nodes, i, k - 1);
      }
      var next := node.next;
      match from {
        case Slot(pos) => tab[pos] := next;
        case NextOf(prev) => prev.next := next;
      }
      NextLinksDetach(chains, i, k);
    }

    // h_detach
    method Detach(from: Link<T>, ghost i: nat, ghost k: nat) returns (node: HNode<T>)
      requires Live() && Points(from, i, k)
      modifies this`chains, this`nodes, this`size, tab, nodes`next
      ensures Live() && node == old(chains[i][k]) && node in old(nodes)
      ensures nodes == old(nodes) - {node}
      ensures chains == old(chains[i := Without(chains[i], k)])
    {
      hide Bucketed, SlotOf, NextLinks, First, After;
      BucketedDetach(chains, nodes, i, k);
      Incoming(from, i, k);
      node := Deref(from);
      Unlink(from, node, i, k);
      size := size - 1;
      chains := chains[i := Without(chains[i], k)];
      nodes := nodes - {node};
    }
  }

  // Visiting the chains in order meets each node of a table exactly once.
  lemma FlattenTable<T>(t: HTab<T>)
    requires t.Valid()
    ensures NoDup(Flatten(t.chains)) && Elems(Flatten(t.chains)) == t.nodes
    ensures |Flatten(t.chains)| == |t.nodes|
  {
    if t.tab != null {
      var n := |t.chains|;
      FlattenBucketed(t.chains, t.nodes, n);
      assert t.chains[..n] == t.chains;
      assert Below(t.nodes, n - 1, n) == t.nodes;
    }
    NoDupSize(Flatten(t.chains));
  }

  // h_insert(newer, h_detach(older, &older->tab[slot]))
  method MoveFirst<T>(older: HTab<T>, newer: HTab<T>, slot: nat) returns (node: HNode<T>)
    requires older != newer && older.Live() && newer.Live() && newer.nodes !! older.nodes
    requires older.tab != newer.tab
    requires slot <= older.mask && older.tab[slot] != null
    modifies older, newer, older.tab, newer.tab, older.nodes`next
    ensures older.Live() && newer.Live() && node in old(older.nodes)
    ensures older.nodes == old(older.nodes) - {node} && newer.nodes == old(newer.nodes) + {node}
    ensures older.size == old(older.size) - 1 && newer.size == old(newer.size) + 1
    ensures older.tab == old(older.tab) && older.mask == old(older.mask)
    ensures newer.tab == old(newer.tab) && newer.mask == old(newer.mask)
    ensures |older.chains| == older.mask + 1 &&
      forall i {:trigger older.chains[i]} :: 0 <= i < |older.chains| && i != slot ==>
        older.chains[i] == old(older.chains[i])
  {
    hide Bucketed, NextLinks;
    var from: Link<T> := Slot(slot);
    node := older.Detach(from, slot, 0);
    newer.Insert(node);
  }

  // h_insert(newer, node) leaves the older table alone.
  method InsertBeside<T>(older: HTab<T>, newer: HTab<T>, node: HNode<T>)
    requires older != newer && older.Valid() && newer.Live() && newer.nodes !! older.nodes
    requires older.tab != newer.tab && node !in newer.nodes && node !in older.nodes
    modifies newer, newer.tab, node
    ensures older.Valid() && newer.Live() && newer.nodes == old(newer.nodes) + {node} && newer.nodes !! older.nodes
    ensures newer.size == old(newer.size) + 1 && newer.tab == old(newer.tab) && newer.mask == old(newer.mask)
  {
    newer.Insert(node);
  }

  // The map: two tables, and the slot of the older one up to which nodes have
  // been moved to the newer one.
  // What is left of this many nodes to be moved, after one operation's help.
  function Helped(left: nat): nat {
    if left <= K_REHASHING_WORK then 0 else left - K_REHASHING_WORK
  }

  class HMap<T> {
    var newer: HTab<T>
    var older: HTab<T>
    var migratePos: nat
    ghost var Repr: set<object>

    ghost function Nodes(): set<HNode<T>>
      reads this, newer, older
    {
      newer.nodes + older.nodes
    }

    ghost predicate Owns()
      reads this, Repr
    {
      this in Repr && newer in Repr && older in Repr && newer.nodes <= Repr && older.nodes <= Repr &&
      (newer.tab != null ==> newer.tab in Repr) && (older.tab != null ==> older.tab in Repr)
    }

    // Each node is in exactly one table, and nothing is left below migratePos.
    ghost predicate Shape()
      reads this, Repr
    {
      Owns() && newer != older && newer.Valid() && older.Valid() && newer.nodes !! older.nodes &&
      (newer.tab == null ==> older.tab == null) &&
      (newer.tab != null ==> newer.tab != older.tab && newer.mask >= 3) &&
      (older.tab != null ==>
        newer.mask + 1 == 2 * (older.mask + 1) && older.mask >= 3 && migratePos <= older.mask + 1 &&
        forall i {:trigger older.chains[i]} :: 0 <= i < migratePos ==> older.chains[i] == [])
    }

    // The load bound.  During a migration out of C slots, the nodes beyond the
    // 8C that started it are paid for by 128 moved nodes each.
    ghost predicate Load()
      reads this, newer, older
    {
      if older.tab != null then
        var full := K_MAX_LOAD_FACTOR * (older.mask + 1);
        K_REHASHING_WORK * (newer.size + older.size - full) <= full - older.size
      else
        newer.tab != null ==> newer.size < K_MAX_LOAD_FACTOR * (newer.mask + 1)
    }

    ghost predicate Valid()
      reads this, Repr
    {
      Shape() && Load()
    }

    constructor ()
      ensures Valid() && Nodes() == {} && fresh(Repr)
    {
      var n := new HTab.Empty();
      var o := new HTab.Empty();
      newer, older := n, o;
      migratePos := 0;
      Repr := {this, n, o};
    }

    // hm_clear; the nodes are left to their owner.
    method Clear()
      requires Valid()
      modifies this
      ensures Valid() && Nodes() == {} && fresh(Repr - old(Repr)) && this in Repr
    {
      newer := new HTab.Empty();
      older := new HTab.Empty();
      migratePos := 0;
      Repr := {this, newer, older};
    }

    lemma TablesIn()
      requires Valid()
      ensures newer in Repr && older in Repr
    {
    }

    // While the older table holds a node, the cursor stands on one of its slots.
    lemma CursorInside()
      requires Shape() && older.size > 0
      ensures migratePos <= older.mask && older.Live() && newer.Live() && newer.tab != null && older.tab != null
      ensures older.tab[migratePos] == First(older.chains[migratePos])
    {
      var n :| n in older.nodes;
      assert Home(older.chains, n);
    }

    method MoveOne()
      requires Shape() && older.Live() && newer.Live() && newer.tab != null && older.tab != null
      requires migratePos <= older.mask && older.tab[migratePos] != null
      modifies newer, older, newer.tab, older.tab, older.nodes`next
      ensures Shape() && Nodes() == old(Nodes()) && older.nodes <= old(older.nodes)
      ensures newer.mask == old(newer.mask) && newer.tab == old(newer.tab)
      ensures older.mask == old(older.mask) && older.tab == old(older.tab)
      ensures newer.size == old(newer.size) + 1 && older.size == old(older.size) - 1
    {
      hide HTab.Live;
      var node := MoveFirst(older, newer, migratePos);
    }

    // One round of the migration loop: step over an empty slot, or move the
    // first node of the slot to the newer table.
    method MigrateStep() returns (moved: bool)
      requires Shape() && older.size > 0
      modifies this`migratePos, newer, older, newer.tab, older.tab, older.nodes`next
      ensures Shape() && Nodes() == old(Nodes()) && older.nodes <= old(older.nodes)
      ensures newer.mask == old(newer.mask) && newer.tab == old(newer.tab)
      ensures older.mask == old(older.mask) && older.tab == old(older.tab)
      ensures newer.size == old(newer.size) + (if moved then 1 else 0)
      ensures older.size == old(older.size) - (if moved then 1 else 0)
      ensures migratePos == old(migratePos) + (if moved then 0 else 1)
    {
      hide HTab.Live;
      CursorInside();
      moved := older.tab[migratePos] != null;
      if moved {
        MoveOne();
      } else {
        migratePos := migratePos + 1;
      }
    }

    // The migration loop of hm_help_rehashing.
    method Migrate()
      requires Shape()
      modifies this`migratePos, newer, older, newer.tab, older.tab, older.nodes`next
      ensures Shape() && Nodes() == old(Nodes())
      ensures newer.mask == old(newer.mask) && newer.tab == old(newer.tab)
      ensures older.mask == old(older.mask) && older.tab == old(older.tab)
      ensures newer.size + older.size == old(newer.size + older.size)
      ensures older.size == if old(older.size) <= K_REHASHING_WORK then 0 else old(older.size) - K_REHASHING_WORK
      ensures old(older.tab) != null ==> old(migratePos) <= migratePos
    {
      var nwork := 0;
      while nwork < K_REHASHING_WORK && older.size > 0
        invariant Shape() && Nodes() == old(Nodes()) && older.nodes <= old(older.nodes)
        invariant newer.mask == old(newer.mask) && newer.tab == old(newer.tab)
        invariant older.mask == old(older.mask) && older.tab == old(older.tab)
        invariant newer.size == old(newer.size) + nwork && nwork <= K_REHASHING_WORK
        invariant older.size == old(older.size) - nwork
        invariant old(older.tab) != null ==> old(migratePos) <= migratePos
        decreases older.size, older.mask + 1 - migratePos
      {
        var moved := MigrateStep();
        if moved {
          nwork := nwork + 1;
        }
      }
    }

    // older = HTab{}
    method DropOlder()
      requires Shape() && older.size == 0
      modifies this`older, this`Repr
      ensures Shape() && older.tab == null && older.nodes == old(older.nodes) && older.size == 0
      ensures Repr == old(Repr) + {older} && fresh(older)
    {
      older := new HTab.Empty();
      Repr := Repr + {older};
    }

    // hm_help_rehashing: move 128 nodes, or all that are left, and then drop
    // the older table.
    method HelpRehashing()
      requires Shape()
      modifies Repr
      ensures Shape() && Nodes() == old(Nodes()) && fresh(Repr - old(Repr))
      ensures newer == old(newer) && newer.tab == old(newer.tab) && newer.mask == old(newer.mask)
      ensures newer.size + older.size == old(newer.size + older.size)
      ensures old(older.size) <= K_REHASHING_WORK ==> older.tab == null
      ensures old(older.size) > K_REHASHING_WORK ==>
        (older.tab == old(older.tab) && older.mask == old(older.mask) &&
        older.size == old(older.size) - K_REHASHING_WORK)
      // The cursor only advances, once per empty slot, and stays on the table.
      ensures old(older.tab) != null ==> old(migratePos) <= migratePos <= old(older.mask) + 1
    {
      Migrate();
      if older.size == 0 && older.tab != null {
        DropOlder();
      }
    }

    // hm_trigger_rehashing
    method TriggerRehashing()
      requires Shape() && newer.tab != null
      requires older.tab == null
      modifies this
      ensures Shape() && Nodes() == old(Nodes()) && fresh(Repr - old(Repr))
      ensures older == old(newer) && newer.size == 0 && newer.mask + 1 == 2 * (old(newer.mask) + 1)
      ensures newer.tab != null && migratePos == 0
    {
      hide Bucketed, NextLinks;
      older := newer;
      newer := new HTab.Init((newer.mask + 1) * 2, newer.bits + 1);
      migratePos := 0;
      Repr := Repr + {newer, newer.tab};
    }

    // h_lookup in both tables.
    method Find(hcode: nat, eq: HNode<T> -> bool)
      returns (inNewer: bool, from: Link<T>, r: HNode?<T>, ghost i: nat, ghost k: nat)
      requires Shape()
      ensures r == null <==> from.NoLink?
      ensures from.NoLink? ==> forall n :: n in Nodes() ==> !(n.hcode == hcode && eq(n))
      ensures !from.NoLink? ==>
        (var t := if inNewer then newer else older;
        t.Live() && t.Points(from, i, k) &&
        r == t.chains[i][k] && r in t.nodes && r.hcode == hcode && eq(r))
    {
      inNewer := true;
      from, i, k := newer.Lookup(hcode, eq);
      if from.NoLink? {
        inNewer := false;
        from, i, k := older.Lookup(hcode, eq);
      }
      var t := if inNewer then newer else older;
      if !from.NoLink? {
        t.Incoming(from, i, k);
      }
      r := t.Deref(from);
    }

    // hm_lookup
    method Lookup(hcode: nat, eq: HNode<T> -> bool) returns (r: HNode?<T>)
      requires Valid()
      modifies Repr
      ensures Valid() && Nodes() == old(Nodes()) && fresh(Repr - old(Repr))
      ensures if r == null then forall n :: n in Nodes() ==> !(n.hcode == hcode && eq(n))
        else r in Nodes() && r.hcode == hcode && eq(r)
      ensures older.size == Helped(old(older.size))
    {
      hide HTab.Live;
      HelpRehashing();
      var _, from, found, i, k := Find(hcode, eq);
      r := found;
    }

    // The newer table is never full: it has room for all nodes by the time the
    // migration ends, so no migration is due before the last one is over.
    lemma BelowThreshold()
      requires Valid() && newer.tab != null
      ensures newer.size < K_MAX_LOAD_FACTOR * (newer.mask + 1)
      ensures older.tab != null ==> newer.size + older.size < K_MAX_LOAD_FACTOR * (newer.mask + 1)
    {
    }

    // hm_insert makes sure there is a table, and always inserts into the newer.
    method Prepare()
      requires Shape()
      modifies this`newer, this`Repr
      ensures Shape() && newer.tab != null && newer.nodes == old(newer.nodes) && newer.size == old(newer.size)
      ensures newer.mask == if old(newer.tab) == null then 3 else old(newer.mask)
      ensures fresh(Repr - old(Repr))
    {
      if newer.tab == null {
        assert Exp2(1) == 2 && Exp2(2) == 4;
        newer := new HTab.Init(4, 2);
        Repr := Repr + {newer, newer.tab};
      }
    }

    method Add(node: HNode<T>)
      requires Shape() && newer.tab != null && node !in Nodes()
      modifies this`Repr, newer, newer.tab, node
      ensures Shape() && Nodes() == old(Nodes()) + {node} && Repr == old(Repr) + {node}
      ensures newer.size == old(newer.size) + 1 && newer.mask == old(newer.mask) && newer.tab == old(newer.tab)
    {
      hide HTab.Live;
      InsertBeside(older, newer, node);
      Repr := Repr + {node};
    }

    // A rehash starts when the newer table is full and none is going on.
    method CheckLoad()
      requires Shape() && newer.tab != null
      modifies this
      ensures Shape() && Nodes() == old(Nodes()) && fresh(Repr - old(Repr))
      ensures if old(older.tab == null && newer.size >= (newer.mask + 1) * K_MAX_LOAD_FACTOR)
        then older == old(newer) && newer.size == 0 && newer.mask + 1 == 2 * (old(newer.mask) + 1)
        else unchanged(this)
      ensures newer.tab != null
    {
      if older.tab == null {
        var threshold := (newer.mask + 1) * K_MAX_LOAD_FACTOR;
        if newer.size >= threshold {
          TriggerRehashing();
        }
      }
    }

    // hm_insert.  The newer table doubles exactly when its load reaches 8 with
    // no migration going on.
    method Insert(node: HNode<T>)
      requires Valid() && node !in Nodes()
      modifies Repr, node
      ensures Valid() && Nodes() == old(Nodes()) + {node} && fresh(Repr - old(Repr) - {node})
      ensures newer.mask + 1 ==
        var slots := if old(newer.tab) == null then 4 else old(newer.mask) + 1;
        if old(older.tab) == null && old(newer.size) + 1 == K_MAX_LOAD_FACTOR * slots then 2 * slots else slots
      ensures old(older.tab) != null ==> older.size == Helped(old(older.size))
    {
      hide HTab.Live;
      Prepare();
      Add(node);
      CheckLoad();
      HelpRehashing();
    }

    // h_detach from the table that has the node.
    method DetachNewer(from: Link<T>, ghost i: nat, ghost k: nat) returns (r: HNode<T>)
      requires Shape() && newer.Live() && newer.Points(from, i, k)
      modifies newer, newer.tab, newer.nodes`next
      ensures Shape() && r == old(newer.chains[i][k]) && r in old(newer.nodes) && newer.nodes == old(newer.nodes) - {r}
      ensures newer.mask == old(newer.mask) && newer.tab == old(newer.tab) && newer.size == old(newer.size) - 1
    {
      r := newer.Detach(from, i, k);
    }

    method DetachOlder(from: Link<T>, ghost i: nat, ghost k: nat) returns (r: HNode<T>)
      requires Shape() && older.Live() && older.Points(from, i, k)
      modifies older, older.tab, older.nodes`next
      ensures Shape() && r == old(older.chains[i][k]) && r in old(older.nodes) && older.nodes == old(older.nodes) - {r}
      ensures older.mask == old(older.mask) && older.tab == old(older.tab) && older.size == old(older.size) - 1
    {
      r := older.Detach(from, i, k);
    }

    method Remove(inNewer: bool, from: Link<T>, ghost i: nat, ghost k: nat) returns (r: HNode<T>)
      requires Shape()
      requires var t := if inNewer then newer else older; t.Live() && t.Points(from, i, k)
      modifies newer, older, newer.tab, older.tab, Nodes()`next
      ensures Shape() && r == old((if inNewer then newer else older).chains[i][k])
      ensures r in old(Nodes()) && Nodes() == old(Nodes()) - {r}
      ensures newer.mask == old(newer.mask) && newer.tab == old(newer.tab)
      ensures older.mask == old(older.mask) && older.tab == old(older.tab)
      ensures newer.size == old(newer.size) - (if inNewer then 1 else 0)
      ensures older.size == old(older.size) - (if inNewer then 0 else 1)
    {
      hide HTab.Live;
      if inNewer {
        r := DetachNewer(from, i, k);
        assert r !in older.nodes;
      } else {
        r := DetachOlder(from, i, k);
        assert r !in newer.nodes;
      }
    }

    // h_lookup and h_detach, in whichever table has a match.
    method FindAndRemove(hcode: nat, eq: HNode<T> -> bool) returns (r: HNode?<T>)
      requires Shape()
      modifies newer, older, newer.tab, older.tab, Nodes()`next
      ensures Shape() && newer.tab == old(newer.tab) && newer.mask == old(newer.mask) && newer.size <= old(newer.size)
      ensures older.tab == old(older.tab) && older.mask == old(older.mask) && older.size <= old(older.size)
      ensures r == null ==> Nodes() == old(Nodes()) && forall n :: n in Nodes() ==> !(n.hcode == hcode && eq(n))
      ensures r != null ==> r in old(Nodes()) && r.hcode == hcode && eq(r) && Nodes() == old(Nodes()) - {r}
    {
      hide Shape, HTab.Live;
      var inNewer, from, found, i, k := Find(hcode, eq);
      r := null;
      if found != null {
        r := Remove(inNewer, from, i, k);
      }
    }

    // hm_delete
    method Delete(hcode: nat, eq: HNode<T> -> bool) returns (r: HNode?<T>)
      requires Valid()
      modifies Repr
      ensures Valid() && fresh(Repr - old(Repr))
      ensures r == null ==> Nodes() == old(Nodes()) && forall n :: n in Nodes() ==> !(n.hcode == hcode && eq(n))
      ensures r != null ==> r in old(Nodes()) && r.hcode == hcode && eq(r) && Nodes() == old(Nodes()) - {r}
      ensures older.size <= Helped(old(older.size))
    {
      hide HTab.Live;
      HelpRehashing();
      r := FindAndRemove(hcode, eq);
    }

    // hm_foreach.  A callback that never refuses sees each node exactly once,
    // also in the middle of a migration.
    method Foreach(f: HNode<T> -> bool) returns (visited: seq<HNode<T>>)
      requires Valid()
      ensures NoDup(visited) && Elems(visited) <= Nodes()
      ensures (forall n :: n in Nodes() ==> f(n)) ==> Elems(visited) == Nodes() && |visited| == |Nodes()|
      ensures |visited| < |Nodes()| ==> visited != [] && !f(visited[|visited| - 1])
    {
      hide HTab.Live, Flatten;
      FlattenTable(newer);
      FlattenTable(older);
      ghost var a, b := Flatten(newer.chains), Flatten(older.chains);
      ElemsConcat(a, b);
      var done, first := newer.Foreach(f);
      visited := first;
      if done {
        var done', rest := older.Foreach(f);
        VisitsConcat(f, a, b, first, done', rest);
        visited := first + rest;
        VisitsFrom(f, a + b, done', visited);
      } else {
        VisitsFrom(f, a, done, visited);
        assert Elems(a) <= Nodes();
      }
    }

    // hm_size
    method Size() returns (n: nat)
      requires Valid()
      ensures n == |Nodes()|
    {
      n := newer.size + older.size;
    }
  }
}
