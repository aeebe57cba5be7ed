// The connection table and the idle list: handle_accept and conn_destroy of
// lib/server/conn.cpp, and lib/server/timer.cpp.

module Servers {
  import opened Basics
  import opened Seqs
  import opened List
  import opened Connection
  import opened Stores
  import opened Commands
  import opened Runs
  import Wire

  const K_IDLE_TIMEOUT_MS: nat := 5000
  const U64_MAX: nat := 0xFFFF_FFFF_FFFF_FFFF

  // nodes[i] is embedded in conns[i].
  ghost predicate Embedded(conns: seq<Conn>, nodes: seq<DList<Conn>>)
    reads (set c | c in conns)`idleNode
  {
    |nodes| == |conns| &&
    forall i {:trigger conns[i]} {:trigger nodes[i]} :: 0 <= i < |conns| ==>
      conns[i].idleNode == nodes[i] && nodes[i].owner == Some(conns[i])
  }

  // The table maps the descriptors of exactly these connections to them.
  ghost predicate Tabled(table: seq<Conn?>, conns: seq<Conn>) {
    (forall c {:trigger c in conns} :: c in conns ==> c.fd < |table| && table[c.fd] == c) &&
    forall f {:trigger table[f]} :: 0 <= f < |table| && table[f] != null ==> table[f] in conns && table[f].fd == f
  }

  // The longest idle connection comes first.
  ghost predicate ByActivity(conns: seq<Conn>)
    reads (set c | c in conns)`lastActive
  {
    forall i, j :: 0 <= i < j < |conns| ==> conns[i].lastActive <= conns[j].lastActive
  }

  ghost predicate Idle(c: Conn, now: nat)
    reads c`lastActive
  {
    c.lastActive + K_IDLE_TIMEOUT_MS < now
  }

  // Between events every live connection is to stay open, as Conn.Valid says,
  // and no two share a buffer.
  ghost predicate AllOpen(cs: set<Conn>)
    reads cs`wantRead, cs`wantWrite, cs`wantClose, cs`received, cs`executed, cs`replies, cs`sent
    reads set c | c in cs :: c.incoming, set c | c in cs :: c.outgoing
  {
    (forall c {:trigger c in cs} :: c in cs ==> c.Valid() && !c.wantClose) && BuffersApart(cs)
  }

  ghost predicate BuffersApart(cs: set<Conn>) {
    forall c, d :: c in cs && d in cs && c != d ==> {c.incoming, c.outgoing} !! {d.incoming, d.outgoing}
  }

  lemma OpenMore(cs: set<Conn>, c: Conn)
    requires AllOpen(cs) && c.Valid() && !c.wantClose
    requires forall d :: d in cs ==> {c.incoming, c.outgoing} !! {d.incoming, d.outgoing}
    ensures AllOpen(cs + {c})
  {
    hide Conn.Valid;
    forall d | d in cs + {c} ensures d.Valid() && !d.wantClose {
      assert d == c || d in cs;
    }
  }

  lemma OpenFewer(cs: set<Conn>, some: set<Conn>)
    requires AllOpen(cs) && some <= cs
    ensures AllOpen(some)
  {
    hide Conn.Valid;
  }

  lemma OpenAgain(cs: set<Conn>, c: Conn)
    requires AllOpen(cs - {c}) && BuffersApart(cs) && c.Valid() && !c.wantClose
    ensures AllOpen(cs)
  {
    hide Conn.Valid;
    forall d | d in cs ensures d.Valid() && !d.wantClose {
      assert d == c || d in cs - {c};
    }
  }

  // The store has no part in these connections.
  ghost predicate AllClear(cs: set<Conn>, st: Store)
    reads st`Cells, st`Lent, st.db
  {
    forall c {:trigger c in cs} :: c in cs ==> c.Clear(st)
  }

  // What one connection does is no concern of the others.
  method Serve(c: Conn, st: Store, num: Numbers, e: Polled, last: nat, ghost k: nat, ghost cs: set<Conn>)
    returns (now: nat, ghost x: Run)
    requires AllOpen(cs) && AllClear(cs, st) && c in cs && Possible(e.r)
    requires (e.readable ==> c.wantRead) && (e.writable ==> c.wantWrite)
    requires st.Valid() && Able(st.Model(), k) && TURN <= k
    modifies c`wantRead, c`wantWrite, c`wantClose, c`sent, c`received, c`executed, c`replies
    modifies c.incoming, c.outgoing, st.Repr()
    ensures AllOpen(cs - {c}) && c.Valid()
    ensures st.Valid() && st.Onward() && Timely(x.events, last, now)
    ensures Leads(x, old(st.Model()), st.Model(), num) && |x.events| <= TURN && Able(st.Model(), k - |x.events|)
    ensures c.received == old(c.received) + e.Input()
    ensures c.executed == old(c.executed) + Cmds(x.events) && c.replies == old(c.replies) + x.replies
    ensures c.wantClose <==> e.GivesUp(c.received, old(c.outgoing.data), x.replies)
    ensures |c.sent| == |old(c.sent)| + Taken(e.w, e.Due(old(c.outgoing.data), x.replies))
    ensures forall d :: d in cs && d != c ==> d.outgoing.data == old(d.outgoing.data)
  {
    hide Conn.Valid, Store.Valid, Store.Model, Leads, Timely, Able, Polled.GivesUp, Polled.Due;
    OpenOthers(cs, c);
    now, x := c.Dispatch(st, num, e, last, k);
  }

  lemma OpenOthers(cs: set<Conn>, c: Conn)
    requires AllOpen(cs)
    ensures AllOpen(cs - {c})
  {
    hide Conn.Valid;
  }

  // fd2conn.resize(fd + 1), if it is shorter
  function Resized(table: seq<Conn?>, fd: nat): (r: seq<Conn?>)
    ensures fd < |r| && |table| <= |r|
    ensures forall f :: 0 <= f < |r| ==> r[f] == if f < |table| then table[f] else null
  {
    if |table| <= fd then table + seq(fd + 1 - |table|, _ => null) else table
  }

  lemma TabledAdd(table: seq<Conn?>, conns: seq<Conn>, c: Conn)
    requires Tabled(table, conns) && (c.fd < |table| ==> table[c.fd] == null)
    ensures Tabled(Resized(table, c.fd)[c.fd := c], conns + [c]) && c !in conns
  {
    var t := Resized(table, c.fd)[c.fd := c];
    forall d | d in conns + [c] ensures d.fd < |t| && t[d.fd] == d {
      assert d in conns || d == c;
    }
    forall f | 0 <= f < |t| && t[f] != null ensures t[f] in conns + [c] && t[f].fd == f {
      assert t[f] in conns || t[f] == c;
    }
  }

  lemma AddLast(conns: seq<Conn>, nodes: seq<DList<Conn>>, c: Conn, node: DList<Conn>)
    requires Embedded(conns, nodes) && NoDup(conns) && c !in conns && ByActivity(conns)
    requires c.idleNode == node && node.owner == Some(c) && forall d :: d in conns ==> d.lastActive <= c.lastActive
    ensures Embedded(conns + [c], nodes + [node]) && NoDup(conns + [c]) && ByActivity(conns + [c])
  {
    NoDupAround(conns, c, []);
    assert conns + [c] + [] == conns + [c];
    hide NoDup;
    var cs := conns + [c];
    forall i, j | 0 <= i < j < |cs| ensures cs[i].lastActive <= cs[j].lastActive {
      assert cs[i] in conns;
    }
  }

  lemma DropAt(conns: seq<Conn>, nodes: seq<DList<Conn>>, k: nat)
    requires Embedded(conns, nodes) && NoDup(conns) && ByActivity(conns) && k < |conns|
    ensures |nodes| == |conns| && Embedded(Without(conns, k), Without(nodes, k))
    ensures NoDup(Without(conns, k)) && ByActivity(Without(conns, k))
    ensures Elems(Without(conns, k)) == Elems(conns) - {conns[k]}
    ensures nodes[k] == conns[k].idleNode && nodes[k].owner == Some(conns[k])
  {
    WithoutElems(conns, k);
    hide NoDup, Elems;
    var cs := Without(conns, k);
    forall i, j | 0 <= i < j < |cs| ensures cs[i].lastActive <= cs[j].lastActive {
      assert cs[i] == conns[if i < k then i else i + 1] && cs[j] == conns[if j < k then j else j + 1];
    }
  }

  lemma TabledDrop(table: seq<Conn?>, conns: seq<Conn>, rest: seq<Conn>, c: Conn)
    requires Tabled(table, conns) && c in conns && Elems(rest) == Elems(conns) - {c}
    ensures c.fd < |table| && Tabled(table[c.fd := null], rest)
  {
    var t := table[c.fd := null];
    forall d | d in rest ensures d.fd < |t| && t[d.fd] == d {
      assert d in Elems(rest) && d in conns;
      assert table[d.fd] == d;
    }
    forall f | 0 <= f < |t| && t[f] != null ensures t[f] in rest && t[f].fd == f {
      assert table[f] in Elems(conns);
      assert t[f] in Elems(rest);
    }
  }

  lemma TabledSame(table: seq<Conn?>, conns: seq<Conn>, other: seq<Conn>)
    requires Tabled(table, conns) && Elems(other) == Elems(conns)
    ensures Tabled(table, other)
  {
    forall d | d in other ensures d.fd < |table| && table[d.fd] == d {
      assert d in Elems(other) && d in conns;
    }
    forall f | 0 <= f < |table| && table[f] != null ensures table[f] in other && table[f].fd == f {
      assert table[f] in Elems(conns);
    }
  }

  class Server {
    const idle: DList<Conn>
    const st: Store
    var fd2conn: seq<Conn?>
    // The live connections in the order of the idle list, and their nodes.
    ghost var conns: seq<Conn>
    ghost var nodes: seq<DList<Conn>>

    // The idle list is a ring of exactly the connections in the table, sorted
    // by their last activity.
    ghost predicate Valid()
      reads this`fd2conn, this`conns, this`nodes, idle, nodes
      reads (set c | c in conns)`idleNode, (set c | c in conns)`lastActive
    {
      Ring([idle] + nodes) && Embedded(conns, nodes) && Tabled(fd2conn, conns) && NoDup(conns) && ByActivity(conns)
    }

    constructor (st: Store)
      ensures Valid() && conns == [] && nodes == [] && this.st == st && fresh(idle)
    {
      var head := new DList(None);
      Init(head);
      idle, this.st := head, st;
      fd2conn, conns, nodes := [], [], [];
    }

    // The store has no part in the connections and the list.
    ghost predicate ListApart()
      reads this`conns, this`nodes, st`Cells, st`Lent, st.db
    {
      this !in st.World() && idle !in st.World() && (forall n :: n in nodes ==> n !in st.World()) &&
      forall c :: c in conns ==> c.Clear(st)
    }

    // What holds between the turns of the event loop.
    ghost predicate Sound()
      reads this`fd2conn, this`conns, this`nodes, idle, nodes, conns
      reads set c | c in conns :: c.incoming, set c | c in conns :: c.outgoing
      reads st, st.heap, st.db, st.db.Repr, st.Cells
    {
      Valid() && AllOpen(Elems(conns)) && ListApart() && st.Valid()
    }

    // No connection has been active after this time.
    ghost predicate ActiveBy(now: nat)
      reads this`conns, (set c | c in conns)`lastActive
    {
      forall c :: c in conns ==> c.lastActive <= now
    }

    // The object for an accepted connection, not yet in the table or the list.
    method Newcomer(connfd: nat, now: nat) returns (c: Conn)
      requires AllOpen(Elems(conns)) && ListApart()
      ensures AllOpen(Elems(conns + [c])) && ListApart() && c.Clear(st) && c.idleNode !in st.World()
      ensures fresh(c) && fresh(c.idleNode) && fresh(c.incoming) && fresh(c.outgoing)
      ensures c.fd == connfd && c.Past() == History([], [], [], [], now) && c.idleNode.owner == Some(c)
    {
      hide AllOpen, Conn.Valid;
      c := new Conn(connfd, now);
      OpenMore(Elems(conns), c);
      ElemsConcat(conns, [c]);
      assert Elems([c]) == {c};
    }

    // handle_accept: accept() has returned connfd, which no open connection has.
    method Accept(connfd: nat, now: nat) returns (c: Conn)
      requires Valid() && AllOpen(Elems(conns)) && ListApart() && ActiveBy(now)
      requires forall d :: d in conns ==> d.fd != connfd
      modifies this`fd2conn, this`conns, this`nodes, idle, nodes
      ensures Valid() && AllOpen(Elems(conns)) && ListApart() && ActiveBy(now)
      ensures conns == old(conns) + [c] && nodes == old(nodes) + [c.idleNode] && fresh(c) && fresh(c.idleNode)
      ensures fresh(c.incoming) && fresh(c.outgoing)
      ensures c.fd == connfd && c.Past() == History([], [], [], [], now)
      ensures |old(fd2conn)| <= |fd2conn| &&
        forall f :: 0 <= f < |old(fd2conn)| && f != connfd ==> fd2conn[f] == old(fd2conn)[f]
    {
      hide Valid, AllOpen, Conn.Valid, Conn.Clear, Store.Repr;
      NotInUse(connfd);
      c := Newcomer(connfd, now);
      Enlist(c, c.idleNode);
    }

    lemma NotInUse(connfd: nat)
      requires Valid() && forall d :: d in conns ==> d.fd != connfd
      ensures connfd < |fd2conn| ==> fd2conn[connfd] == null
    {
    }

    // The new connection goes to the end of the list, and into the table.
    method Enlist(c: Conn, node: DList<Conn>)
      requires Valid() && (c.fd < |fd2conn| ==> fd2conn[c.fd] == null)
      requires c.idleNode == node && node.owner == Some(c) && node !in [idle] + nodes
      requires forall d :: d in conns ==> d.lastActive <= c.lastActive
      modifies this`fd2conn, this`conns, this`nodes, idle, nodes, node
      ensures Valid() && conns == old(conns) + [c] && nodes == old(nodes) + [node]
      ensures |old(fd2conn)| <= |fd2conn| &&
        forall f :: 0 <= f < |old(fd2conn)| && f != c.fd ==> fd2conn[f] == old(fd2conn)[f]
    {
      hide Ring, Embedded, Tabled, NoDup, ByActivity, Resized;
      TabledAdd(fd2conn, conns, c);
      InsertBefore(idle, node, [idle] + nodes, 0);
      assert Inserted([idle] + nodes, 0, node) == [idle] + (nodes + [node]);
      AddLast(conns, nodes, c, node);
      fd2conn := Resized(fd2conn, c.fd);
      assert fd2conn[c.fd] == null;
      fd2conn := fd2conn[c.fd := c];
      conns := conns + [c];
      nodes := nodes + [node];
    }

    // The list's part of conn_destroy, and of moving a connection.
    method Unlist(c: Conn, ghost k: nat)
      requires Valid() && k < |conns| && c == conns[k]
      modifies idle, nodes
      ensures Ring([idle] + Without(nodes, k)) && nodes[k] !in [idle] + Without(nodes, k)
      ensures nodes[k] == c.idleNode
    {
      hide Ring, Tabled, NoDup, ByActivity;
      ghost var s := [idle] + nodes;
      assert Without(s, k + 1) == [idle] + Without(nodes, k);
      Apart(s, k + 1);
      List.Detach(c.idleNode, s, k + 1);
    }

    lemma Apart(s: seq<DList<Conn>>, k: nat)
      requires Ring(s) && k < |s|
      ensures s[k] !in Without(s, k)
    {
    }

    // conn_destroy
    method Destroy(c: Conn, ghost k: nat)
      requires Valid() && k < |conns| && c == conns[k]
      modifies this`fd2conn, this`conns, this`nodes, idle, nodes
      ensures Valid() && conns == Without(old(conns), k) && Elems(conns) == old(Elems(conns)) - {c}
      ensures k < |old(nodes)| && nodes == Without(old(nodes), k)
      ensures c.fd < |old(fd2conn)| && fd2conn == old(fd2conn)[c.fd := null]
    {
      hide Ring, Embedded, Tabled, NoDup, ByActivity;
      DropAt(conns, nodes, k);
      TabledDrop(fd2conn, conns, Without(conns, k), c);
      Unlist(c, k);
      fd2conn := fd2conn[c.fd := null];
      conns := Without(conns, k);
      nodes := Without(nodes, k);
    }

    // The event loop's update of the idle timer: to the end of the list.
    method Touch(c: Conn, now: nat, ghost k: nat)
      requires Valid() && k < |conns| && c == conns[k]
      requires forall c :: c in conns ==> c.lastActive <= now
      modifies this`conns, this`nodes, idle, nodes, c`lastActive
      ensures Valid() && conns == Without(old(conns), k) + [c] && c.lastActive == now
      ensures Elems(conns) == old(Elems(conns))
      ensures k < |old(nodes)| && nodes == Without(old(nodes), k) + [old(nodes)[k]]
    {
      hide Ring, Embedded, Tabled, NoDup, ByActivity;
      DropAt(conns, nodes, k);
      ghost var cs, ns, node := Without(conns, k), Without(nodes, k), nodes[k];
      Unlist(c, k);
      c.lastActive := now;
      InsertBefore(idle, c.idleNode, [idle] + ns, 0);
      assert Inserted([idle] + ns, 0, c.idleNode) == [idle] + (ns + [c.idleNode]);
      assert c.idleNode == node;
      AddLast(cs, ns, c, c.idleNode);
      ElemsConcat(cs, [c]);
      TabledSame(fd2conn, conns, cs + [c]);
      conns := cs + [c];
      nodes := ns + [c.idleNode];
    }

    // The first element of the list is the first connection.
    lemma FirstIdle()
      requires Valid()
      ensures |conns| == |nodes|
      ensures conns != [] ==> (idle.next == nodes[0] && nodes[0].owner == Some(conns[0]))
    {
      assert ([idle] + nodes)[0].next == Next([idle] + nodes, 0);
    }

    // The first loop of process_timers closes exactly the connections that
    // have been idle for too long, although it looks at the first one only.
    method CloseIdle(now: nat) returns (ghost closed: nat)
      requires Valid()
      modifies this`fd2conn, this`conns, this`nodes, idle, nodes
      ensures Valid() && closed <= |old(conns)| && conns == old(conns)[closed..]
      ensures closed <= |old(nodes)| && nodes == old(nodes)[closed..]
      ensures forall i :: 0 <= i < |old(conns)| ==> (i < closed <==> Idle(old(conns)[i], now))
    {
      hide Valid;
      closed := 0;
      while true
        invariant Valid() && closed <= |old(conns)| && conns == old(conns)[closed..]
        invariant closed <= |old(nodes)| && nodes == old(nodes)[closed..]
        invariant forall i :: 0 <= i < closed ==> Idle(old(conns)[i], now)
        decreases |conns|
      {
        FirstIdle();
        var none := NoneIdle();
        if none {
          break;
        }
        var c := idle.next.owner.value;
        var nextMs := c.lastActive + K_IDLE_TIMEOUT_MS;
        if nextMs >= now {
          break;
        }
        Destroy(c, 0);
        closed := closed + 1;
      }
      OthersLater();
    }

    method NoneIdle() returns (r: bool)
      requires Valid()
      ensures r == (conns == [])
    {
      r := Empty(idle, [idle] + nodes);
    }

    lemma OthersLater()
      requires Valid()
      ensures forall c :: c in conns ==> conns[0].lastActive <= c.lastActive
    {
    }

    // Some timer goes off at t.
    ghost predicate Timer(t: int)
      requires st.Valid()
      reads this`conns, (set c | c in conns)`lastActive
      reads st`foot, st`Cells, st`handle, st`dropped, st`given, st`Lent, st.db, st.db.Repr, st.Cells
    {
      (exists c :: c in conns && t == c.lastActive + K_IDLE_TIMEOUT_MS) ||
      exists k :: k in st.Model() && st.Model()[k].expire == Some(t)
    }

    // The earliest of all timers.
    ghost predicate FirstTimer(t: int)
      requires st.Valid()
      reads this`conns, (set c | c in conns)`lastActive
      reads st`foot, st`Cells, st`handle, st`dropped, st`given, st`Lent, st.db, st.db.Repr, st.Cells
    {
      Timer(t) && forall u :: Timer(u) ==> t <= u
    }

    // The first part of next_timer_ms; U64_MAX stands for none.
    method EarliestTimer() returns (nextMs: nat)
      requires Valid() && st.Valid() && forall t :: Timer(t) ==> t <= U64_MAX
      ensures nextMs == U64_MAX ==> forall t :: Timer(t) ==> t == U64_MAX
      ensures nextMs != U64_MAX ==> FirstTimer(nextMs)
    {
      hide Valid, Store.Valid, Store.Model;
      FirstIdle();
      OthersLater();
      st.FirstDue();
      nextMs := U64_MAX;
      var none := NoneIdle();
      if !none {
        var c := idle.next.owner.value;
        nextMs := c.lastActive + K_IDLE_TIMEOUT_MS;
        assert Timer(nextMs);
      }
      var heap := st.heap.a;
      if heap != [] && heap[0].val < nextMs {
        nextMs := heap[0].val;
        assert heap[0].ref.key in st.Model();
      }
    }

    // next_timer_ms: the distance to the earliest of all timers, 0 if it has
    // passed, and -1 if there is none.  Distances are cast to int32_t.
    method NextTimerMs(now: nat) returns (ms: int)
      requires Valid() && st.Valid() && forall t :: Timer(t) ==> t <= U64_MAX
      ensures (exists t :: FirstTimer(t)) || (ms == -1 && forall t :: !Timer(t))
      ensures forall t :: FirstTimer(t) && t <= now ==> ms == if t == U64_MAX then -1 else 0
      // The cast matters for distances of 2^31 milliseconds and more, and
      // U64_MAX is taken for none.
      ensures forall t :: FirstTimer(t) && now < t < U64_MAX ==> ms == Wire.Int32(t - now)
      ensures forall t :: FirstTimer(t) && now < t ==> (ms == t - now <==> t - now < 0x8000_0000 && t < U64_MAX)
    {
      hide Valid, Store.Valid, Store.Model, Timer;
      var nextMs := EarliestTimer();
      if nextMs == U64_MAX && exists t :: Timer(t) {
        assert FirstTimer(U64_MAX);
      }
      ms := if nextMs == U64_MAX then -1 else if nextMs <= now then 0 else Wire.Int32(nextMs - now);
    }

    // The TTL phase is no concern of the connections.
    method Expire(now: nat, num: Numbers, ghost k: nat) returns (ghost x: Run)
      requires ListApart() && st.Valid() && Able(st.Model(), k)
      modifies st.Repr()
      ensures ListApart() && st.Valid() && st.Onward() && Able(st.Model(), k)
      ensures Leads(x, old(st.Model()), st.Model(), num) && x.events == [Event.Tick(now)] && x.replies == [None]
    {
      hide Store.Valid, Store.Model, Leads, Able;
      ghost var m := st.Model();
      AbleCounted(m, k);
      x := PlayTick(st, now, num);
      SweptAble(x, m, st.Model(), num, now, k);
    }

    // process_timers
    method ProcessTimers(now: nat, num: Numbers, ghost k: nat) returns (ghost closed: nat, ghost x: Run)
      requires Sound() && Able(st.Model(), k)
      modifies this`fd2conn, this`conns, this`nodes, idle, nodes, st.Repr()
      ensures Sound() && st.Onward() && Able(st.Model(), k)
      ensures forall c :: c in conns ==> !Idle(c, now) && c in old(conns) && c.lastActive == old(c.lastActive)
      ensures closed <= |old(conns)| && conns == old(conns)[closed..]
      ensures closed <= |old(nodes)| && nodes == old(nodes)[closed..]
      ensures forall i :: 0 <= i < |old(conns)| ==> (i < closed <==> Idle(old(conns)[i], now))
      ensures Leads(x, old(st.Model()), st.Model(), num) && x.events == [Event.Tick(now)] && x.replies == [None]
    {
      hide Store.Valid, Store.Model, Leads, Able, Ring, Embedded, Tabled, NoDup, ByActivity, Conn.Valid;
      ghost var cs := Elems(conns);
      assert forall i :: 0 <= i < |conns| ==> conns[i].Clear(st);
      closed := CloseIdle(now);
      OpenFewer(cs, Elems(conns));
      assert ListApart();
      x := Expire(now, num, k);
    }

    lemma TableHas()
      requires Valid()
      ensures forall f :: 0 <= f < |fd2conn| && fd2conn[f] != null ==> fd2conn[f] in conns && fd2conn[f].fd == f
    {
    }

    lemma FdOf(c: Conn)
      requires Valid() && c in conns
      ensures c.fd < |fd2conn| && fd2conn[c.fd] == c
      ensures forall f :: 0 <= f < |fd2conn| && fd2conn[f] == c ==> f == c.fd
    {
    }

    lemma Found(fd: nat) returns (k: nat)
      requires Valid() && fd < |fd2conn| && fd2conn[fd] != null
      ensures k < |conns| && conns[k] == fd2conn[fd] && conns[k].fd == fd
    {
      k :| 0 <= k < |conns| && conns[k] == fd2conn[fd];
    }
  }
}
