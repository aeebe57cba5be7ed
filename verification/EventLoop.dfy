// The turns of the event loop in server.cpp.

module EventLoop {
  import opened Basics
  import opened Seqs
  import opened List
  import opened Buffers
  import opened Framing
  import opened Connection
  import opened Commands
  import opened Stores
  import opened Timers
  import opened Runs
  import opened Servers
  import KeyValue
  import Wire

  // What poll() reports at this moment about the open connection c: only the
  // readiness that was asked for.
  predicate AsPolled(sv: Server, e: Polled, c: Conn)
    reads sv`fd2conn, c`wantRead, c`wantWrite
  {
    e.fd < |sv.fd2conn| && sv.fd2conn[e.fd] == c && Possible(e.r) &&
    (e.readable ==> c.wantRead) && (e.writable ==> c.wantWrite)
  }

  // The store has taken in new objects only, and handed over more entries.
  twostate predicate Grown(st: Store)
    reads st`dropped, st`given, st`Lent, st`Cells, st.db
  {
    (forall o {:trigger o in st.Repr()} :: o in st.Repr() ==> o in old(st.Repr()) || fresh(o)) &&
    old(st.dropped) <= st.dropped && old(st.given) <= st.given
  }

  // c has not been touched.
  twostate predicate Steady(c: Conn)
    reads c`received, c`executed, c`replies, c`sent, c`lastActive
  {
    c.Past() == old(c.Past())
  }

  // The other connections are as they were.
  twostate predicate OthersSame(cs: set<Conn>, c: Conn)
    reads cs`wantRead, cs`wantWrite, cs`received, cs`executed, cs`replies, cs`sent, cs`lastActive
    reads set d | d in cs :: d.outgoing
  {
    forall d :: d in cs && d != c ==>
      Steady(d) && d.wantRead == old(d.wantRead) && d.wantWrite == old(d.wantWrite) &&
      d.outgoing.data == old(d.outgoing.data)
  }

  // "update the idle timer"
  method Bring(sv: Server, c: Conn, now: nat, ghost i: nat)
    requires sv.Sound() && sv.st.Valid() && sv.ActiveBy(now) && i < |sv.conns| && c == sv.conns[i]
    modifies sv`conns, sv`nodes, sv.idle, Elems(sv.nodes), c`lastActive
    ensures sv.Sound() && sv.st.Valid() && sv.ActiveBy(now) && |sv.conns| > 0 && sv.conns[|sv.conns| - 1] == c
    ensures Elems(sv.conns) == old(Elems(sv.conns)) && Elems(sv.nodes) <= old(Elems(sv.nodes))
    ensures sv.st.Model() == old(sv.st.Model()) && c.lastActive == now
  {
    hide Ring, Embedded, Tabled, NoDup, ByActivity, Conn.Valid, BuffersApart, Store.Valid, Store.Model;
    assert forall d :: d in sv.conns ==> d in Elems(sv.conns);
    assert c !in sv.st.World() && c.Clear(sv.st);
    sv.Touch(c, now, i);
    assert forall d :: d in sv.conns ==> d in Elems(sv.conns);
  }

  // x is what has happened in the store since it was m, k the commands that
  // there is still room for.
  ghost predicate SoFar(x: Run, m: Db, t: Db, num: Numbers, start: nat, now: nat, k: int) {
    Leads(x, m, t, num) && Timely(x.events, start, now) && k >= 0 && Able(t, k)
  }

  lemma FarEarlier(x: Run, m: Db, t: Db, num: Numbers, start: nat, mid: nat, now: nat, k: int)
    requires SoFar(x, m, t, num, mid, now, k) && start <= mid
    ensures SoFar(x, m, t, num, start, now, k)
  {
    hide Leads, Able, Timely;
    TimelyEarlier(x.events, start, mid, now);
  }

  // What c has gone through in its turn, where y is what happened in the store:
  // it has read its input, executed what that completed, got the replies, and
  // sent as much of what there was to send as the socket took.  It was active at
  // the beginning of its turn.
  ghost predicate Served(c: Conn, e: Polled, y: Run, was: History, held: Bytes, from: nat)
    reads c`received, c`executed, c`replies, c`sent, c`lastActive
  {
    c.executed == Split(c.received).cmds && c.sent <= Frames(c.replies) &&
    c.executed == was.executed + Cmds(y.events) && c.replies == was.replies + y.replies &&
    if e.ready then
      c.received == was.received + e.Input() && |c.sent| == |was.sent| + Taken(e.w, e.Due(held, y.replies)) &&
      from <= c.lastActive && forall v :: v in y.events ==> c.lastActive <= v.now
    else c.Past() == was
  }

  lemma ServedEarlier(c: Conn, e: Polled, y: Run, was: History, held: Bytes, from: nat, mid: nat)
    requires Served(c, e, y, was, held, mid) && from <= mid
    ensures Served(c, e, y, was, held, from)
  {
  }

  // The beginning of a turn renews the time of the last activity.
  lemma ServedSince(c: Conn, e: Polled, y: Run, was: History, held: Bytes, from: nat, mid: nat)
    requires e.ready && Served(c, e, y, was.(lastActive := mid), held, mid) && from <= mid
    ensures Served(c, e, y, was, held, from)
  {
  }

  // The connection stays open after its turn, but for the idle timer.
  ghost predicate Kept(e: Polled, c: Conn, y: Run, held: Bytes)
    reads c`received
  {
    !e.ready || !(e.failed || e.GivesUp(c.received, held, y.replies))
  }

  // Sound, but for the connection c, which is last in the list and may be to be
  // closed.
  ghost predicate SoundBut(sv: Server, c: Conn)
    reads sv`fd2conn, sv`conns, sv`nodes, sv.idle, sv.nodes, sv.conns, c, c.incoming, c.outgoing
    reads set d | d in sv.conns :: d.incoming, set d | d in sv.conns :: d.outgoing
    reads sv.st, sv.st.heap, sv.st.db, sv.st.db.Repr, sv.st.Cells
  {
    sv.Valid() && sv.ListApart() && sv.st.Valid() && c.Valid() &&
    AllOpen(Elems(sv.conns) - {c}) && BuffersApart(Elems(sv.conns)) &&
    |sv.conns| > 0 && sv.conns[|sv.conns| - 1] == c
  }

  // "handle IO"
  method Io(sv: Server, c: Conn, e: Polled, num: Numbers, last: nat, ghost k: nat)
    returns (now: nat, ghost x: Run)
    requires sv.Sound() && sv.st.Valid() && sv.ActiveBy(last) && Possible(e.r) && e.ready
    requires c.lastActive == last && |sv.conns| > 0 && sv.conns[|sv.conns| - 1] == c
    requires (e.readable ==> c.wantRead) && (e.writable ==> c.wantWrite) && Able(sv.st.Model(), k) && TURN <= k
    modifies c`wantRead, c`wantWrite, c`wantClose, c`sent, c`received, c`executed, c`replies
    modifies c.incoming, c.outgoing, sv.st.Repr()
    ensures SoundBut(sv, c) && sv.st.Valid() && sv.ActiveBy(now) && Grown(sv.st) && |x.events| <= TURN
    ensures SoFar(x, old(sv.st.Model()), sv.st.Model(), num, last, now, k - |x.events|)
    ensures Served(c, e, x, old(c.Past()), old(c.outgoing.data), last)
    ensures c.wantClose <==> e.GivesUp(c.received, old(c.outgoing.data), x.replies)
    ensures OthersSame(old(Elems(sv.conns)), c)
  {
    hide Ring, Embedded, Tabled, NoDup, ByActivity, Conn.Valid, BuffersApart, Store.Valid, Store.Model, Leads, Able,
      Polled.GivesUp, Polled.Due;
    now, x := Serve(c, sv.st, num, e, last, k, Elems(sv.conns));
    c.Executed();
  }

  // The same, for what c had gone through before its turn began.
  method HandleIo(sv: Server, c: Conn, e: Polled, num: Numbers, last: nat, ghost k: nat, ghost from: nat,
      ghost was: History) returns (now: nat, ghost x: Run)
    requires sv.Sound() && sv.st.Valid() && sv.ActiveBy(last) && Possible(e.r) && e.ready
    requires c.lastActive == last && |sv.conns| > 0 && sv.conns[|sv.conns| - 1] == c
    requires (e.readable ==> c.wantRead) && (e.writable ==> c.wantWrite) && Able(sv.st.Model(), k) && TURN <= k
    requires from <= last && c.Past() == was.(lastActive := last)
    modifies c`wantRead, c`wantWrite, c`wantClose, c`sent, c`received, c`executed, c`replies
    modifies c.incoming, c.outgoing, sv.st.Repr()
    ensures SoundBut(sv, c) && sv.st.Valid() && sv.ActiveBy(now) && Grown(sv.st) && |x.events| <= TURN
    ensures SoFar(x, old(sv.st.Model()), sv.st.Model(), num, from, now, k - |x.events|)
    ensures Served(c, e, x, was, old(c.outgoing.data), from)
    ensures c.wantClose <==> e.GivesUp(c.received, old(c.outgoing.data), x.replies)
    ensures OthersSame(old(Elems(sv.conns)), c)
  {
    hide Server.Sound, SoundBut, Store.Valid, Store.Model, SoFar, Served, Polled.GivesUp, Grown;
    now, x := Io(sv, c, e, num, last, k);
    ServedSince(c, e, x, was, old(c.outgoing.data), from, last);
    FarEarlier(x, old(sv.st.Model()), sv.st.Model(), num, from, last, now, k - |x.events|);
  }

  // The idle timer of a socket that was polled.
  method BringPolled(sv: Server, e: Polled, c: Conn, last: nat) returns (now: nat)
    requires sv.Sound() && sv.st.Valid() && sv.ActiveBy(last) && AsPolled(sv, e, c)
    modifies sv`conns, sv`nodes, sv.idle, Elems(sv.nodes), c`lastActive
    ensures sv.Sound() && sv.st.Valid() && sv.ActiveBy(now) && now >= last
    ensures |sv.conns| > 0 && sv.conns[|sv.conns| - 1] == c && c.lastActive == now
    ensures Elems(sv.conns) == old(Elems(sv.conns)) && Elems(sv.nodes) <= old(Elems(sv.nodes))
    ensures sv.st.Model() == old(sv.st.Model()) && sv.st.Repr() == old(sv.st.Repr())
  {
    hide Server.Valid, AllOpen, Conn.Valid, Conn.Clear, BuffersApart, Store.Valid, Store.Model;
    ghost var i := sv.Found(e.fd);
    now := Clock(last);
    Bring(sv, c, now, i);
  }

  lemma SoundParts(sv: Server)
    requires sv.Sound()
    ensures sv.Valid()
  {
  }

  // The body of the loop over the polled sockets, up to the closing.
  method Attend(sv: Server, e: Polled, c: Conn, num: Numbers, last: nat, ghost k: nat)
    returns (now: nat, ghost x: Run)
    requires sv.Sound() && sv.st.Valid() && sv.ActiveBy(last) && AsPolled(sv, e, c) && e.ready
    requires Able(sv.st.Model(), k) && TURN <= k
    modifies sv`conns, sv`nodes, sv.idle, Elems(sv.nodes), c, c.incoming, c.outgoing, sv.st.Repr()
    ensures SoundBut(sv, c) && sv.st.Valid() && sv.ActiveBy(now)
    ensures Elems(sv.conns) == old(Elems(sv.conns)) && Elems(sv.nodes) <= old(Elems(sv.nodes))
    ensures Grown(sv.st) && |x.events| <= TURN
    ensures SoFar(x, old(sv.st.Model()), sv.st.Model(), num, last, now, k - |x.events|)
    ensures Served(c, e, x, old(c.Past()), old(c.outgoing.data), last)
    ensures c.wantClose <==> e.GivesUp(c.received, old(c.outgoing.data), x.replies)
    ensures OthersSame(old(Elems(sv.conns)), c)
  {
    hide SoundBut, Server.Valid, AllOpen, Conn.Valid, Conn.Clear, BuffersApart, Store.Valid, Store.Model, SoFar, Able,
      Served, Polled.GivesUp;
    var start := BringPolled(sv, e, c, last);
    now, x := HandleIo(sv, c, e, num, start, k, last, old(c.Past()));
  }

  // conn_destroy
  method CloseLast(sv: Server, c: Conn, ghost now: nat)
    requires SoundBut(sv, c) && sv.st.Valid() && sv.ActiveBy(now)
    modifies sv`fd2conn, sv`conns, sv`nodes, sv.idle, Elems(sv.nodes)
    ensures sv.Sound() && sv.st.Valid() && sv.ActiveBy(now) && c.Valid()
    ensures Elems(sv.conns) == old(Elems(sv.conns)) - {c}
    ensures Elems(sv.nodes) <= old(Elems(sv.nodes)) && sv.st.Model() == old(sv.st.Model())
    ensures c.fd < |old(sv.fd2conn)| && sv.fd2conn == old(sv.fd2conn)[c.fd := null]
  {
    hide Ring, Embedded, Tabled, NoDup, ByActivity, Conn.Valid, Store.Valid, Store.Model;
    assert forall d :: d in sv.conns ==> d in Elems(sv.conns);
    sv.Destroy(c, |sv.conns| - 1);
    assert forall d :: d in sv.conns ==> d in Elems(sv.conns);
  }

  // The body of the loop over the polled sockets.
  method Turn(sv: Server, e: Polled, ghost c: Conn, num: Numbers, last: nat, ghost k: nat)
    returns (now: nat, ghost x: Run)
    requires sv.Sound() && sv.st.Valid() && sv.ActiveBy(last) && AsPolled(sv, e, c) && e.ready
    requires Able(sv.st.Model(), k) && TURN <= k
    modifies sv`fd2conn, sv`conns, sv`nodes, sv.idle, Elems(sv.nodes)
    modifies c, c.incoming, c.outgoing, sv.st.Repr()
    ensures sv.Sound() && sv.st.Valid() && sv.ActiveBy(now) && Grown(sv.st)
    ensures Elems(sv.conns) ==
      if Kept(e, c, x, old(c.outgoing.data)) then old(Elems(sv.conns)) else old(Elems(sv.conns)) - {c}
    ensures Elems(sv.nodes) <= old(Elems(sv.nodes)) && |sv.fd2conn| == old(|sv.fd2conn|)
    ensures forall f :: 0 <= f < |sv.fd2conn| && f != e.fd ==> sv.fd2conn[f] == old(sv.fd2conn)[f]
    ensures |x.events| <= TURN && SoFar(x, old(sv.st.Model()), sv.st.Model(), num, last, now, k - |x.events|)
    ensures Served(c, e, x, old(c.Past()), old(c.outgoing.data), last)
    ensures OthersSame(old(Elems(sv.conns)), c)
  {
    hide Server.Valid, Conn.Valid, BuffersApart, Store.Valid, Store.Model, SoFar, Able, Served, Polled.GivesUp;
    var conn := sv.fd2conn[e.fd];
    now, x := Attend(sv, e, conn, num, last, k);
    ElemsIn(sv.nodes, old(sv.nodes));
    sv.FdOf(conn);
    if e.failed || conn.wantClose {
      CloseLast(sv, conn, now);
    } else {
      OpenAgain(Elems(sv.conns), conn);
    }
  }

  ghost function BuffersOf(cs: seq<Conn>): set<object> {
    (set c | c in cs :: c.incoming as object) + (set c | c in cs :: c.outgoing as object)
  }

  lemma BuffersIn(cs: seq<Conn>, all: seq<Conn>)
    requires Elems(cs) <= Elems(all)
    ensures BuffersOf(cs) <= BuffersOf(all)
  {
    ElemsIn(cs, all);
  }

  // All that the event loop may change, but for the server's own fields.
  ghost function Parts(sv: Server): set<object>
    reads sv`conns, sv`nodes, sv.st`Cells, sv.st.db
  {
    {sv.idle} + Elems(sv.nodes) + Elems(sv.conns) + BuffersOf(sv.conns) + sv.st.Repr()
  }

  lemma PartsHave(sv: Server)
    ensures sv.idle in Parts(sv) && Elems(sv.nodes) <= Parts(sv) && Elems(sv.conns) <= Parts(sv)
    ensures BuffersOf(sv.conns) <= Parts(sv) && sv.st.Repr() <= Parts(sv)
    ensures forall o {:trigger o in Parts(sv)} :: o in Parts(sv) ==>
      o == sv.idle || o in Elems(sv.nodes) || o in Elems(sv.conns) || o in BuffersOf(sv.conns) || o in sv.st.Repr()
  {
  }

  // New parts are new objects, and no entry handed over comes back.
  twostate predicate Renewed(sv: Server)
    reads sv`conns, sv`nodes, sv.st`dropped, sv.st`given, sv.st`Cells, sv.st.db
  {
    (forall o {:trigger o in Parts(sv)} :: o in Parts(sv) ==> o in old(Parts(sv)) || fresh(o)) &&
    old(sv.st.dropped) <= sv.st.dropped && old(sv.st.given) <= sv.st.given
  }

  // poll() names each socket once; cs are their connections.
  predicate EachOnce(polled: seq<Polled>, cs: seq<Conn>)
    requires |cs| == |polled|
  {
    (forall i {:trigger cs[i]} :: 0 <= i < |cs| ==> cs[i].fd == polled[i].fd) &&
    forall i, j :: 0 <= i < j < |polled| ==> polled[i].fd != polled[j].fd
  }

  // From the i-th on, the sockets are as they were polled.
  predicate AllPolled(sv: Server, polled: seq<Polled>, cs: seq<Conn>, i: nat)
    requires |cs| == |polled|
    reads sv`fd2conn, cs
  {
    forall j {:trigger cs[j]} :: i <= j < |cs| ==> AsPolled(sv, polled[j], cs[j])
  }

  // The turn of another connection leaves c alone.
  twostate predicate Skipped(sv: Server, c: Conn)
    reads sv`conns, c`received, c`executed, c`replies, c`sent, c`lastActive
  {
    Steady(c) && (c in sv.conns <==> c in old(sv.conns))
  }

  // From the i-th on, the connections hold the same bytes to be written.
  twostate predicate Waiting(cs: seq<Conn>, i: nat)
    reads set c | c in cs :: c.outgoing
  {
    forall j {:trigger cs[j]} :: i <= j < |cs| ==> cs[j].outgoing.data == old(cs[j].outgoing.data)
  }

  // One round of the loop: the sockets whose turn is still to come stay as
  // they were polled.
  method TurnIn(sv: Server, polled: seq<Polled>, ghost cs: seq<Conn>, i: nat, num: Numbers, last: nat, ghost k: nat)
    returns (now: nat, ghost x: Run)
    requires sv.Sound() && sv.st.Valid() && sv.ActiveBy(last)
    requires |cs| == |polled| && EachOnce(polled, cs) && i < |polled| && AllPolled(sv, polled, cs, i) && polled[i].ready
    requires forall c :: c in cs ==> c !in sv.st.Repr()
    requires Able(sv.st.Model(), k) && TURN <= k
    modifies sv`fd2conn, sv`conns, sv`nodes, sv.idle, Elems(sv.nodes), Elems(sv.conns), BuffersOf(sv.conns)
    modifies sv.st.Repr()
    ensures sv.Sound() && sv.st.Valid() && sv.ActiveBy(now) && Grown(sv.st)
    ensures Elems(sv.conns) <= old(Elems(sv.conns)) && Elems(sv.nodes) <= old(Elems(sv.nodes))
    ensures AllPolled(sv, polled, cs, i + 1)
    ensures |x.events| <= TURN && SoFar(x, old(sv.st.Model()), sv.st.Model(), num, last, now, k - |x.events|)
    ensures Served(cs[i], polled[i], x, old(cs[i].Past()), old(cs[i].outgoing.data), last)
    ensures cs[i] in sv.conns <==> Kept(polled[i], cs[i], x, old(cs[i].outgoing.data))
    ensures forall j {:trigger cs[j]} :: 0 <= j < |cs| && j != i ==> Skipped(sv, cs[j])
    ensures forall d :: d in old(sv.conns) && d != cs[i] ==> d in sv.conns && Steady(d)
    ensures Waiting(cs, i + 1)
    ensures forall d :: d in sv.conns ==> d in old(sv.conns)
  {
    hide Server.Valid, AllOpen, Server.ListApart, Store.Valid, Store.Model, SoFar, Able, Served, Kept;
    sv.TableHas();
    ghost var c := cs[i];
    assert AsPolled(sv, polled[i], c);
    now, x := Turn(sv, polled[i], c, num, last, k);
    assert forall d :: d in sv.conns <==> d in Elems(sv.conns);
    assert forall d :: d in old(sv.conns) ==> d in old(Elems(sv.conns));
    forall j | i < j < |polled| ensures AsPolled(sv, polled[j], cs[j]) {
      assert old(AsPolled(sv, polled[j], cs[j])) && polled[j].fd != polled[i].fd;
    }
  }

  lemma FarOn(x: Run, y: Run, m: Db, u: Db, t: Db, num: Numbers, start: nat, mid: nat, now: nat, k: int)
    requires SoFar(x, m, u, num, start, mid, k + |y.events|)
    requires Leads(y, u, t, num) && Timely(y.events, mid, now) && k >= 0 && Able(t, k)
    ensures |y.maps| > 0 && SoFar(Join(x, y), m, t, num, start, now, k)
    ensures |Join(x, y).events| == |x.events| + |y.events|
  {
    hide Leads, Able, Timely;
    LeadsOn(x, y, m, u, t, num);
    TimelyConcat(x.events, y.events, start, mid, now);
  }

  lemma FarStill(m: Db, num: Numbers, now: nat, k: nat)
    requires Able(m, k)
    ensures SoFar(Still(m), m, m, num, now, now, k)
  {
    hide Able;
    NoReply(m, num);
  }

  // One more round, after x, if the socket is ready.
  method TurnOn(sv: Server, polled: seq<Polled>, ghost cs: seq<Conn>, i: nat, num: Numbers, start: nat, last: nat,
      ghost k: nat, ghost x: Run, ghost m: Db) returns (now: nat, ghost y: Run, ghost z: Run)
    requires sv.Sound() && sv.st.Valid() && sv.ActiveBy(last)
    requires |cs| == |polled| && EachOnce(polled, cs) && i < |polled| && AllPolled(sv, polled, cs, i)
    requires forall c :: c in cs ==> c !in sv.st.Repr()
    requires SoFar(x, m, sv.st.Model(), num, start, last, k - |x.events|) && |x.events| + TURN <= k
    modifies sv`fd2conn, sv`conns, sv`nodes, Parts(sv)
    ensures sv.Sound() && sv.st.Valid() && sv.ActiveBy(now) && Renewed(sv) && Grown(sv.st)
    ensures AllPolled(sv, polled, cs, i + 1)
    ensures |z.events| <= |x.events| + TURN
    ensures SoFar(z, m, sv.st.Model(), num, start, now, k - |z.events|)
    ensures z.events == x.events + y.events && z.replies == x.replies + y.replies
    ensures Served(cs[i], polled[i], y, old(cs[i].Past()), old(cs[i].outgoing.data), start)
    ensures cs[i] in sv.conns <==> Kept(polled[i], cs[i], y, old(cs[i].outgoing.data))
    ensures forall j {:trigger cs[j]} :: 0 <= j < |cs| && j != i ==> Skipped(sv, cs[j])
    ensures forall d :: d in old(sv.conns) && d != cs[i] ==> d in sv.conns && Steady(d)
    ensures Waiting(cs, i + 1)
    ensures forall d :: d in sv.conns ==> d in old(sv.conns)
  {
    hide Server.Sound, Server.ActiveBy, Store.Valid, Store.Model, Leads, Timely, AsPolled,
      EachOnce, BuffersOf, Able, Served;
    now, y, z := last, Still(sv.st.Model()), x;
    FarTimes(x, m, sv.st.Model(), num, start, last, k - |x.events|);
    PartsHave(sv);
    if polled[i].ready {
      ghost var u := sv.st.Model();
      now, y := TurnIn(sv, polled, cs, i, num, last, k - |x.events|);
      FarOn(x, y, m, u, sv.st.Model(), num, start, last, now, k - |x.events| - |y.events|);
      z := Join(x, y);
      ServedEarlier(cs[i], polled[i], y, old(cs[i].Past()), old(cs[i].outgoing.data), start, last);
      BuffersIn(sv.conns, old(sv.conns));
      PartsHave(sv);
    } else {
      Unready(sv, polled[i], cs[i], y, start);
    }
  }

  lemma FarTimes(x: Run, m: Db, t: Db, num: Numbers, start: nat, now: nat, k: int)
    requires SoFar(x, m, t, num, start, now, k)
    ensures start <= now
  {
  }

  lemma Unready(sv: Server, e: Polled, c: Conn, y: Run, from: nat)
    requires sv.Sound() && AsPolled(sv, e, c) && !e.ready && y.events == [] && y.replies == []
    ensures c in sv.conns && Served(c, e, y, c.Past(), c.outgoing.data, from)
  {
    hide Server.ListApart, Conn.Valid, Split;
    sv.TableHas();
    assert c in Elems(sv.conns);
    c.Executed();
    assert Cmds([]) == [];
  }

  // The most commands that n turns can execute.
  function MostCommands(n: nat): nat {
    if n == 0 then 0 else MostCommands(n - 1) + TURN
  }

  lemma NoCommands()
    ensures MostCommands(0) == 0
  {
  }

  lemma {:induction false} MostCommandsGrow(i: nat, n: nat)
    requires i < n
    ensures MostCommands(i + 1) == MostCommands(i) + TURN <= MostCommands(n)
  {
    if i + 1 < n {
      MostCommandsGrow(i, n - 1);
    }
  }

  // The events and the replies of these turns, in order.
  ghost function EventsOf(parts: seq<Run>): seq<Event> {
    if parts == [] then [] else EventsOf(parts[..|parts| - 1]) + parts[|parts| - 1].events
  }

  ghost function RepliesOf(parts: seq<Run>): seq<Option<Wire.Value>> {
    if parts == [] then [] else RepliesOf(parts[..|parts| - 1]) + parts[|parts| - 1].replies
  }

  lemma NoParts()
    ensures EventsOf([]) == [] && RepliesOf([]) == []
  {
  }

  lemma OnePart(parts: seq<Run>, y: Run)
    ensures EventsOf(parts + [y]) == EventsOf(parts) + y.events
    ensures RepliesOf(parts + [y]) == RepliesOf(parts) + y.replies
  {
    assert (parts + [y])[..|parts|] == parts;
  }

  // The loop over the polled sockets.  What poll() reported at its beginning is
  // still right when a socket's turn comes, so the readiness asserts hold.  Each
  // connection is served, and closed if it has to be.  poll() returned at the
  // time back.
  method Turns(sv: Server, polled: seq<Polled>, ghost cs: seq<Conn>, num: Numbers, back: nat, ghost k: nat)
    returns (now: nat, ghost x: Run, ghost parts: seq<Run>)
    requires sv.Sound() && sv.st.Valid() && sv.ActiveBy(back)
    requires |cs| == |polled| && EachOnce(polled, cs) && AllPolled(sv, polled, cs, 0)
    requires forall c :: c in cs ==> c !in sv.st.Repr()
    requires Able(sv.st.Model(), k) && MostCommands(|polled|) <= k
    modifies sv`fd2conn, sv`conns, sv`nodes, Parts(sv)
    ensures sv.Sound() && sv.st.Valid() && sv.ActiveBy(now) && Renewed(sv)
    ensures |x.events| <= MostCommands(|polled|)
    ensures SoFar(x, old(sv.st.Model()), sv.st.Model(), num, back, now, k - |x.events|)
    ensures |parts| == |polled| && x.events == EventsOf(parts) && x.replies == RepliesOf(parts)
    ensures forall j {:trigger cs[j]} :: 0 <= j < |cs| ==>
      Served(cs[j], polled[j], parts[j], old(cs[j].Past()), old(cs[j].outgoing.data), back) &&
      (cs[j] in sv.conns <==> Kept(polled[j], cs[j], parts[j], old(cs[j].outgoing.data))) && cs[j] !in sv.st.Repr()
    ensures forall d :: d in old(sv.conns) && d !in cs ==> d in sv.conns && Steady(d)
    ensures forall d :: d in sv.conns ==> d in old(sv.conns)
  {
    hide Server.Sound, Server.ActiveBy, Store.Valid, Store.Model, SoFar, AsPolled, EachOnce,
      Able, Parts, MostCommands, Served, Kept, EventsOf, RepliesOf;
    ghost var m := sv.st.Model();
    now, x, parts := back, Still(m), [];
    FarStill(m, num, back, k);
    NoCommands();
    NoParts();
    var i := 0;
    while i < |polled|
      invariant i <= |polled| && sv.Sound() && sv.st.Valid() && sv.ActiveBy(now) && Renewed(sv)
      invariant AllPolled(sv, polled, cs, i) && forall c :: c in cs ==> c !in sv.st.Repr()
      invariant |x.events| <= MostCommands(i) && SoFar(x, m, sv.st.Model(), num, back, now, k - |x.events|)
      invariant |parts| == i && x.events == EventsOf(parts) && x.replies == RepliesOf(parts)
      invariant forall j {:trigger cs[j]} :: 0 <= j < i ==>
        Served(cs[j], polled[j], parts[j], old(cs[j].Past()), old(cs[j].outgoing.data), back) &&
        (cs[j] in sv.conns <==> Kept(polled[j], cs[j], parts[j], old(cs[j].outgoing.data)))
      invariant Waiting(cs, i) && forall j {:trigger cs[j]} :: i <= j < |cs| ==> Skipped(sv, cs[j])
      invariant forall d :: d in old(sv.conns) && d !in cs ==> d in sv.conns && Steady(d)
      invariant forall d :: d in sv.conns ==> d in old(sv.conns)
    {
      MostCommandsGrow(i, |polled|);
      ghost var y;
      now, y, x := TurnOn(sv, polled, cs, i, num, back, now, k, x, m);
      OnePart(parts, y);
      parts := parts + [y];
      i := i + 1;
    }
  }

  // "handle the listening socket": a new connection, if accept() returns one.
  method Admit(sv: Server, accepted: Option<nat>, polled: seq<Polled>, ghost cs: seq<Conn>, last: nat)
    returns (now: nat, c: Conn?)
    requires sv.Sound() && sv.st.Valid() && sv.ActiveBy(last) && |cs| == |polled| && AllPolled(sv, polled, cs, 0)
    requires accepted.Some? ==> forall c :: c in sv.conns ==> c.fd != accepted.value
    modifies sv`fd2conn, sv`conns, sv`nodes, sv.idle, Elems(sv.nodes)
    ensures sv.Sound() && sv.st.Valid() && sv.ActiveBy(now) && now >= last
    ensures sv.st.Model() == old(sv.st.Model()) && sv.st.Repr() == old(sv.st.Repr())
    ensures AllPolled(sv, polled, cs, 0)
    ensures accepted.None? <==> c == null
    ensures c == null ==> sv.conns == old(sv.conns) && sv.nodes == old(sv.nodes)
    ensures c != null ==>
      (c.fd == accepted.value && c.Past() == History([], [], [], [], now) &&
      fresh(c) && fresh(c.incoming) && fresh(c.outgoing) &&
      c.idleNode != null && fresh(c.idleNode) &&
      sv.conns == old(sv.conns) + [c] && sv.nodes == old(sv.nodes) + [c.idleNode])
  {
    hide Server.Valid, Conn.Valid, AllOpen, Store.Valid, Store.Model;
    now, c := last, null;
    if accepted.Some? {
      sv.TableHas();
      now := Clock(last);
      c := sv.Accept(accepted.value, now);
    }
  }

  method AdmitOne(sv: Server, accepted: Option<nat>, polled: seq<Polled>, ghost cs: seq<Conn>, last: nat)
    returns (now: nat, ghost c: Conn?)
    requires sv.Sound() && sv.st.Valid() && sv.ActiveBy(last) && |cs| == |polled| && AllPolled(sv, polled, cs, 0)
    requires forall c :: c in cs ==> c !in sv.st.Repr()
    requires accepted.Some? ==> forall c :: c in sv.conns ==> c.fd != accepted.value
    modifies sv`fd2conn, sv`conns, sv`nodes, Parts(sv)
    ensures sv.Sound() && sv.st.Valid() && sv.ActiveBy(now) && Renewed(sv)
    ensures now >= last && sv.st.Model() == old(sv.st.Model())
    ensures AllPolled(sv, polled, cs, 0) && forall c :: c in cs ==> Steady(c) && c !in sv.st.Repr()
    ensures Waiting(cs, 0) && forall d :: d in old(sv.conns) ==> Steady(d)
    ensures Newcomer(accepted, c, last) && sv.conns == old(sv.conns) + if c == null then [] else [c]
  {
    hide Server.Sound, Server.ActiveBy, Store.Valid, Store.Model, AsPolled, Parts, Store.Repr;
    PartsHave(sv);
    var conn;
    now, conn := Admit(sv, accepted, polled, cs, last);
    c := conn;
    PartsHave(sv);
  }

  // The connection that is new is the one for the accepted socket.
  // It has been active since the time from.
  twostate predicate Newcomer(accepted: Option<nat>, new c: Conn?, from: nat)
    reads if c == null then {} else {c}
  {
    (accepted.None? <==> c == null) &&
    (c != null ==>
      (fresh(c) && c.fd == accepted.value && from <= c.lastActive && c.Past() == History([], [], [], [], c.lastActive)))
  }

  // The sockets, from the connections that were open and the new one.
  method HandleSockets(sv: Server, accepted: Option<nat>, polled: seq<Polled>, ghost cs: seq<Conn>, num: Numbers,
      back: nat, ghost k: nat) returns (now: nat, ghost x: Run, ghost parts: seq<Run>, ghost c: Conn?)
    requires sv.Sound() && sv.st.Valid() && sv.ActiveBy(back)
    requires |cs| == |polled| && EachOnce(polled, cs) && AllPolled(sv, polled, cs, 0)
    requires forall c :: c in cs ==> c !in sv.st.Repr()
    requires accepted.Some? ==> forall c :: c in sv.conns ==> c.fd != accepted.value
    requires Able(sv.st.Model(), k) && MostCommands(|polled|) <= k
    modifies sv`fd2conn, sv`conns, sv`nodes, Parts(sv)
    ensures sv.Sound() && sv.st.Valid() && sv.ActiveBy(now) && Renewed(sv)
    ensures |x.events| <= MostCommands(|polled|)
    ensures SoFar(x, old(sv.st.Model()), sv.st.Model(), num, back, now, k - |x.events|)
    ensures |parts| == |polled| && x.events == EventsOf(parts) && x.replies == RepliesOf(parts)
    ensures forall j {:trigger cs[j]} :: 0 <= j < |cs| ==>
      Served(cs[j], polled[j], parts[j], old(cs[j].Past()), old(cs[j].outgoing.data), back) &&
      (cs[j] in sv.conns <==> Kept(polled[j], cs[j], parts[j], old(cs[j].outgoing.data))) && cs[j] !in sv.st.Repr()
    ensures forall d :: d in old(sv.conns) && d !in cs ==> d in sv.conns && Steady(d)
    ensures Newcomer(accepted, c, back) && (c != null ==> c in sv.conns)
    ensures forall d :: d in sv.conns ==> d in old(sv.conns) || d == c
  {
    hide Server.Sound, Server.ActiveBy, Store.Valid, Store.Model, SoFar, AsPolled, EachOnce,
      Able, Parts, MostCommands, Served, Kept, EventsOf, RepliesOf, AllPolled;
    var start;
    start, c := AdmitOne(sv, accepted, polled, cs, back);
    assert forall j {:trigger cs[j]} :: 0 <= j < |cs| ==> cs[j] in cs && Steady(cs[j]);
    assert c !in cs && (c != null ==> c in sv.conns);
    now, x, parts := Turns(sv, polled, cs, num, start, k);
    forall j {:trigger cs[j]} | 0 <= j < |cs|
      ensures Served(cs[j], polled[j], parts[j], old(cs[j].Past()), old(cs[j].outgoing.data), back)
    {
      ServedEarlier(cs[j], polled[j], parts[j], old(cs[j].Past()), old(cs[j].outgoing.data), back, start);
    }
    FarEarlier(x, old(sv.st.Model()), sv.st.Model(), num, back, start, now, k - |x.events|);
  }

  // "handle timers", after x.
  method Tidy(sv: Server, num: Numbers, last: nat, ghost k: nat, ghost start: nat, ghost x: Run, ghost m: Db)
    returns (now: nat, ghost z: Run)
    requires sv.Sound() && sv.st.Valid() && sv.ActiveBy(last) && k > 0
    requires SoFar(x, m, sv.st.Model(), num, start, last, k)
    modifies sv`fd2conn, sv`conns, sv`nodes, sv.idle, Elems(sv.nodes), sv.st.Repr()
    ensures sv.Sound() && sv.st.Valid() && sv.ActiveBy(now) && Grown(sv.st)
    ensures Elems(sv.conns) <= old(Elems(sv.conns)) && Elems(sv.nodes) <= old(Elems(sv.nodes))
    ensures z.events == x.events + [Event.Tick(now)] && z.replies == x.replies + [None]
    ensures SoFar(z, m, sv.st.Model(), num, start, now, k - 1)
    ensures forall c :: c in sv.conns <==> c in old(sv.conns) && !Idle(c, now)
  {
    hide Server.Valid, AllOpen, Store.Valid, Store.Model, Leads, Able;
    ghost var u := sv.st.Model();
    now := Clock(last);
    ghost var closed, y := sv.ProcessTimers(now, num, k);
    AbleCounted(sv.st.Model(), k);
    FarOn(x, y, m, u, sv.st.Model(), num, start, last, now, k - 1);
    z := Join(x, y);
  }

  method TidyUp(sv: Server, ghost cs: seq<Conn>, num: Numbers, last: nat, ghost k: nat, ghost start: nat,
      ghost x: Run, ghost m: Db) returns (now: nat, ghost z: Run)
    requires sv.Sound() && sv.st.Valid() && sv.ActiveBy(last) && k > 0
    requires SoFar(x, m, sv.st.Model(), num, start, last, k)
    requires forall c :: c in cs ==> c !in sv.st.Repr()
    modifies sv`fd2conn, sv`conns, sv`nodes, Parts(sv)
    ensures sv.Sound() && sv.st.Valid() && sv.ActiveBy(now) && Renewed(sv)
    ensures z.events == x.events + [Event.Tick(now)] && z.replies == x.replies + [None]
    ensures SoFar(z, m, sv.st.Model(), num, start, now, k - 1)
    ensures (forall c :: c in cs ==> Steady(c)) && forall d :: d in old(sv.conns) ==> Steady(d)
    ensures forall c :: c in sv.conns <==> c in old(sv.conns) && !Idle(c, now)
  {
    hide Server.Sound, Server.ActiveBy, Store.Valid, Store.Model, SoFar, Parts, BuffersOf, Store.Repr, Idle;
    PartsHave(sv);
    ConnsApart(sv);
    now, z := Tidy(sv, num, last, k, start, x, m);
    BuffersIn(sv.conns, old(sv.conns));
    PartsHave(sv);
  }

  lemma ConnsApart(sv: Server)
    requires sv.Sound()
    ensures forall c :: c in sv.conns ==> c !in sv.st.Repr()
  {
    hide Server.Valid, Conn.Valid, Store.Valid;
  }

  // One round of the event loop after poll() has returned: the only assumption
  // about readiness is what poll() reported then.  Its requests and the tick at
  // its end are a run of the plain map; each connection gets its input and its
  // replies, and those stay that are neither to be closed nor idle.
  method Round(sv: Server, accepted: Option<nat>, polled: seq<Polled>, ghost cs: seq<Conn>, num: Numbers, back: nat,
      ghost k: nat) returns (now: nat, ghost x: Run, ghost parts: seq<Run>, ghost c: Conn?)
    requires sv.Sound() && sv.st.Valid() && sv.ActiveBy(back)
    requires |cs| == |polled| && EachOnce(polled, cs) && AllPolled(sv, polled, cs, 0)
    requires accepted.Some? ==> forall c :: c in sv.conns ==> c.fd != accepted.value
    requires Able(sv.st.Model(), k) && MostCommands(|polled|) + 1 <= k
    modifies sv`fd2conn, sv`conns, sv`nodes, Parts(sv)
    ensures sv.Sound() && sv.st.Valid() && sv.ActiveBy(now) && Renewed(sv)
    ensures SoFar(x, old(sv.st.Model()), sv.st.Model(), num, back, now, k - |x.events|)
    ensures |x.events| <= MostCommands(|polled|) + 1 && |parts| == |polled|
    ensures x.events == EventsOf(parts) + [Event.Tick(now)] && x.replies == RepliesOf(parts) + [None]
    ensures forall j {:trigger cs[j]} :: 0 <= j < |cs| ==>
      Served(cs[j], polled[j], parts[j], old(cs[j].Past()), old(cs[j].outgoing.data), back) &&
      (cs[j] in sv.conns <==> Kept(polled[j], cs[j], parts[j], old(cs[j].outgoing.data)) && !Idle(cs[j], now)) &&
      (polled[j].ready && now <= back + K_IDLE_TIMEOUT_MS ==> !Idle(cs[j], now))
    ensures forall d :: d in old(sv.conns) && d !in cs ==> Steady(d) && (d in sv.conns <==> !Idle(d, now))
    ensures Newcomer(accepted, c, back) && (c != null ==> (c in sv.conns <==> !Idle(c, now)))
    ensures forall d :: d in sv.conns ==> d in old(sv.conns) || d == c
  {
    hide Server.Sound, Server.ActiveBy, Store.Valid, Store.Model, SoFar, AsPolled, EachOnce,
      Able, Leads, Parts, MostCommands, EventsOf, RepliesOf;
    ghost var m := sv.st.Model();
    InTable(sv, polled, cs);
    var mid;
    ghost var y;
    mid, y, parts, c := HandleSockets(sv, accepted, polled, cs, num, back, k);
    assert forall j {:trigger cs[j]} :: 0 <= j < |cs| ==> cs[j] in cs;
    now, x := TidyUp(sv, cs, num, mid, k - |y.events|, back, y, m);
  }

  lemma InTable(sv: Server, polled: seq<Polled>, cs: seq<Conn>)
    requires sv.Sound() && |cs| == |polled| && AllPolled(sv, polled, cs, 0)
    ensures forall c :: c in cs ==> c in sv.conns && c !in sv.st.Repr()
  {
    hide Conn.Valid;
    sv.TableHas();
  }

  // The descriptor that accept() returns is not that of an open connection.
  predicate Unused(sv: Server, accepted: Option<nat>)
    reads sv`fd2conn
  {
    accepted.Some? ==> forall f :: 0 <= f < |sv.fd2conn| && sv.fd2conn[f] != null ==> sv.fd2conn[f].fd != accepted.value
  }

  // poll(), and what the calls that follow return: anything that is possible.
  method Poll(sv: Server) returns (accepted: Option<nat>, polled: seq<Polled>, cs: seq<Conn>)
    ensures |cs| == |polled| && EachOnce(polled, cs) && AllPolled(sv, polled, cs, 0) && Unused(sv, accepted)
  {
    var none: seq<Polled>, nobody: seq<Conn> := [], [];
    assert |nobody| == |none| && EachOnce(none, nobody) && AllPolled(sv, none, nobody, 0) && Unused(sv, None);
    accepted, polled, cs :|
      |cs| == |polled| && EachOnce(polled, cs) && AllPolled(sv, polled, cs, 0) && Unused(sv, accepted);
  }

  // There are no more sockets than places in the table.
  lemma PolledOnce(sv: Server, polled: seq<Polled>, cs: seq<Conn>)
    requires |cs| == |polled| && EachOnce(polled, cs) && AllPolled(sv, polled, cs, 0)
    ensures |polled| <= |sv.fd2conn|
  {
    var fds := seq(|polled|, i requires 0 <= i < |polled| => polled[i].fd);
    NoDupSize(fds);
    Below(|sv.fd2conn|);
    forall fd | fd in Elems(fds) ensures fd in FirstOnes(|sv.fd2conn|) {
      var i :| 0 <= i < |fds| && fds[i] == fd;
      assert AsPolled(sv, polled[i], cs[i]);
    }
    SubsetSize(Elems(fds), FirstOnes(|sv.fd2conn|));
  }

  ghost function FirstOnes(n: nat): set<nat> {
    if n == 0 then {} else FirstOnes(n - 1) + {n - 1}
  }

  lemma {:induction false} Below(n: nat)
    ensures |FirstOnes(n)| == n && forall f: nat :: f in FirstOnes(n) <==> f < n
  {
    if n > 0 { Below(n - 1); }
  }

  lemma UnusedMeans(sv: Server, accepted: Option<nat>)
    requires sv.Valid() && Unused(sv, accepted)
    ensures accepted.Some? ==> forall c :: c in sv.conns ==> c.fd != accepted.value
  {
    forall c | c in sv.conns ensures c.fd < |sv.fd2conn| && sv.fd2conn[c.fd] == c {
      sv.FdOf(c);
    }
  }

  lemma {:induction false} FewerCommands(i: nat, n: nat)
    requires i <= n
    ensures MostCommands(i) <= MostCommands(n)
  {
    if i < n {
      FewerCommands(i, n - 1);
    }
  }

  // What one round can execute, and its tick.
  function RoundNeeds(sv: Server): nat
    reads sv`fd2conn
  {
    MostCommands(|sv.fd2conn|) + 1
  }

  // x is what has happened in the store since it was m.
  ghost predicate Since(x: Run, m: Db, t: Db, num: Numbers, start: nat, now: nat) {
    Leads(x, m, t, num) && Timely(x.events, start, now) && ShortDb(t)
  }

  lemma SinceOn(x: Run, y: Run, m: Db, u: Db, t: Db, num: Numbers, start: nat, mid: nat, now: nat, k: int)
    requires Since(x, m, u, num, start, mid) && SoFar(y, u, t, num, mid, now, k)
    ensures |y.maps| > 0 && Since(Join(x, y), m, t, num, start, now)
  {
    hide Leads, Timely, Room, ShortDb;
    LeadsOn(x, y, m, u, t, num);
    TimelyConcat(x.events, y.events, start, mid, now);
  }

  lemma ActiveLater(sv: Server, last: nat, back: nat)
    requires sv.ActiveBy(last) && last <= back
    ensures sv.ActiveBy(back)
  {
  }

  // One round more, after x.
  method RoundOn(sv: Server, num: Numbers, start: nat, last: nat, ghost x: Run, ghost m: Db)
    returns (now: nat, ghost z: Run)
    requires sv.Sound() && sv.st.Valid() && sv.ActiveBy(last) && Room(sv.st.Model(), RoundNeeds(sv))
    requires Since(x, m, sv.st.Model(), num, start, last)
    modifies sv`fd2conn, sv`conns, sv`nodes, Parts(sv)
    ensures sv.Sound() && sv.st.Valid() && sv.ActiveBy(now) && Renewed(sv)
    ensures Since(z, m, sv.st.Model(), num, start, now)
    ensures forall c :: c in sv.conns ==> !Idle(c, now)
  {
    hide Server.Sound, Server.ActiveBy, Store.Valid, Store.Model, Leads, Timely, AllPolled, EachOnce, Room, ShortDb,
      Parts, Served, EventsOf, RepliesOf, MostCommands, Unused, Idle, SoFar;
    var back := Clock(last);
    ActiveLater(sv, last, back);
    var accepted, polled, cs := Poll(sv);
    assert accepted.Some? ==> forall c :: c in sv.conns ==> c.fd != accepted.value by {
      SoundParts(sv);
      UnusedMeans(sv, accepted);
    }
    PolledOnce(sv, polled, cs);
    FewerCommands(|polled|, |sv.fd2conn|);
    ghost var u, k := sv.st.Model(), RoundNeeds(sv);
    ghost var y, parts, c;
    now, y, parts, c := Round(sv, accepted, polled, cs, num, back, k);
    FarEarlier(y, u, sv.st.Model(), num, last, back, now, k - |y.events|);
    SinceOn(x, y, m, u, sv.st.Model(), num, start, last, now, k - |y.events|);
    z := Join(x, y);
  }

  // Any number of rounds: whatever poll(), accept(), read() and write() return,
  // the server stays right, and its store has done one run of the plain map.
  // They end early only when some sorted set is so large that its counters may
  // not last for one more round.
  method Rounds(sv: Server, n: nat, num: Numbers, last: nat) returns (done: nat, now: nat, ghost x: Run)
    requires sv.Sound() && sv.st.Valid() && sv.ActiveBy(last) && ShortDb(sv.st.Model())
    modifies sv`fd2conn, sv`conns, sv`nodes, Parts(sv)
    ensures sv.Sound() && sv.st.Valid() && sv.ActiveBy(now) && Renewed(sv)
    ensures Since(x, old(sv.st.Model()), sv.st.Model(), num, last, now)
    ensures done <= n && (done < n ==> !Room(sv.st.Model(), RoundNeeds(sv)))
    ensures done > 0 ==> forall c :: c in sv.conns ==> !Idle(c, now)
  {
    hide Server.Sound, Server.ActiveBy, Store.Valid, Store.Model, Leads, Room, ShortDb, Parts, MostCommands, Idle;
    ghost var m := sv.st.Model();
    done, now, x := 0, last, Still(m);
    StillLeads(m, num);
    while done < n
      invariant done <= n && sv.Sound() && sv.st.Valid() && sv.ActiveBy(now) && Renewed(sv)
      invariant Since(x, m, sv.st.Model(), num, last, now)
      invariant done > 0 ==> forall c :: c in sv.conns ==> !Idle(c, now)
    {
      var fits := Fits(sv.st, RoundNeeds(sv));
      if !fits {
        break;
      }
      now, x := RoundOn(sv, num, last, now, x, m);
      done := done + 1;
    }
  }

  // The beginning of main: no connection, and an empty store with room for any
  // number of commands whose counts fit.
  method Start(ghost k: nat) returns (sv: Server)
    requires k < Wire.U32_MOD
    ensures fresh(sv) && fresh(sv.idle) && fresh(sv.st.Repr()) && sv.conns == [] && sv.nodes == []
    ensures sv.Sound() && sv.st.Valid() && sv.ActiveBy(0)
    ensures sv.st.Model() == map[] && Able(sv.st.Model(), k)
  {
    hide Server.Valid, Store.Valid, Store.Model;
    var st := new Store();
    sv := new Server(st);
  }

  lemma StartParts(sv: Server)
    requires sv.conns == [] && sv.nodes == []
    ensures Parts(sv) == {sv.idle} + sv.st.Repr()
  {
  }

  // The server from its start: all that its clients and the timers have done to
  // the store is one run from the empty map.
  method Live(n: nat, num: Numbers) returns (sv: Server, done: nat, now: nat, ghost x: Run)
    ensures fresh(sv) && sv.Sound() && sv.st.Valid()
    ensures Leads(x, map[], sv.st.Model(), num) && Timely(x.events, 0, now)
    ensures forall v :: v in x.replies && v.Some? ==> Wire.Exact(v.value) && Deliverable(v.value)
    ensures done <= n && (done < n ==> !Room(sv.st.Model(), RoundNeeds(sv)))
  {
    hide Server.Sound, Server.ActiveBy, Store.Valid, Store.Model, Parts, Leads, Timely, MostCommands, Wire.Exact,
      Deliverable;
    sv := Start(0);
    StartParts(sv);
    done, now, x := Rounds(sv, n, num, 0);
    FromEmpty(x, sv.st.Model(), num, now);
  }

  lemma FromEmpty(x: Run, t: Db, num: Numbers, now: nat)
    requires Leads(x, map[], t, num) && Timely(x.events, 0, now)
    ensures forall v :: v in x.replies && v.Some? ==> Wire.Exact(v.value) && Deliverable(v.value)
  {
    hide Wire.Exact, Deliverable, Does;
    RepliesExact(x, num, 0, now, |x.events|);
  }

  // A deadline 2^31 milliseconds ahead: the timeout becomes negative, which
  // poll() takes for none.
  method DistantDeadline() returns (ms: int)
    ensures ms == -0x8000_0000
  {
    hide Server.Valid, AllOpen, Store.Valid, Store.Model;
    var sv := Start(2);
    var ok := KeyValue.PutString(sv.st, [], []);
    var found := KeyValue.Expire(sv.st, [], 0x8000_0000, 0);
    assert sv.st.Model() == map[[] := Item(Plain([]), Some(0x8000_0000))];
    OnlyTimer(sv, [], 0x8000_0000);
    ms := sv.NextTimerMs(0);
    assert sv.FirstTimer(0x8000_0000) && ms == Wire.Int32(0x8000_0000);
  }

  lemma OnlyTimer(sv: Server, key: Bytes, t: nat)
    requires sv.st.Valid() && sv.conns == [] && key in sv.st.Model() && sv.st.Model()[key].expire == Some(t)
    requires forall k :: k in sv.st.Model() ==> k == key
    ensures sv.FirstTimer(t) && forall u :: sv.Timer(u) ==> u == t
  {
    hide Store.Valid, Store.Model;
  }
}
