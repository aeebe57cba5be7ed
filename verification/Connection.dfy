// The life of one connection: lib/server/conn.cpp and its dispatch in
// server.cpp.  The results of read() and write() are parameters, and so are
// the times, which never decrease.

module Connection {
  import opened Basics
  import opened Wire
  import opened Request
  import opened Buffers
  import opened Framing
  import opened List
  import opened Commands
  import opened Stores
  import opened Timers
  import opened Runs
  import KeyValue

  // The size of handle_read's buffer, and a bound on the requests that become
  // complete with one read.
  const READ_SIZE: nat := 64 * 1024
  const TURN: nat := (4 + K_MAX_MSG + READ_SIZE) / 8

  datatype ReadResult = ReadAgain | ReadFailed | Eof | Got(bytes: Bytes)

  // The socket takes up to most bytes.
  datatype WriteResult = WriteAgain | WriteFailed | Takes(most: nat)

  // What read() can return.
  predicate Possible(r: ReadResult) {
    r.Got? ==> 0 < |r.bytes| <= READ_SIZE
  }

  // One entry of poll()'s answer, and what the calls that follow return: ready
  // means that revents is not 0, failed that it has POLLERR.
  datatype Polled = Polled(fd: nat, ready: bool, readable: bool, writable: bool, failed: bool,
    r: ReadResult, w: WriteResult)
  {
    // The bytes that are read in the turn of the socket.
    function Input(): Bytes {
      if readable && r.Got? then r.bytes else []
    }

    // What there is to write in it: the frames of the replies to what was read,
    // or what was held, if the socket takes it.
    function Due(held: Bytes, replies: seq<Option<Value>>): Bytes {
      if readable then Frames(replies) else if writable then held else []
    }

    // Why the connection is given up: the stream has failed, ended or cannot be
    // read on, or a write that was due has failed.
    ghost predicate GivesUp(received: Bytes, held: Bytes, replies: seq<Option<Value>>) {
      (readable && (r.ReadFailed? || r.Eof?)) || Split(received).closed ||
      (Due(held, replies) != [] && w.WriteFailed?)
    }
  }

  // What a connection has gone through, and when it was last active.
  datatype History = History(received: Bytes, executed: seq<Cmd>, replies: seq<Option<Value>>, sent: Bytes,
    lastActive: nat)

  // How many bytes a write of these bytes takes.
  function Taken(w: WriteResult, due: Bytes): nat {
    if w.Takes? then Min(w.most, |due|) else 0
  }

  class Conn {
    const fd: nat
    var wantRead: bool
    var wantWrite: bool
    var wantClose: bool
    const incoming: Buffer
    const outgoing: Buffer
    var lastActive: nat
    // The connection's node in the list of idle timers.
    var idleNode: DList?<Conn>
    // History: the bytes read, the commands executed, their replies, and the
    // bytes written.
    ghost var received: Bytes
    ghost var executed: seq<Cmd>
    ghost var replies: seq<Option<Value>>
    ghost var sent: Bytes

    ghost function Past(): History
      reads this`received, this`executed, this`replies, this`sent, this`lastActive
    {
      History(received, executed, replies, sent, lastActive)
    }

    // Between events, a connection that stays open wants to write exactly if
    // it has something to write, and to read otherwise.
    ghost predicate Valid()
      reads this`wantRead, this`wantWrite, this`wantClose, this`received, this`executed, this`replies, this`sent
      reads incoming, outgoing
    {
      incoming != outgoing && InputRight() && OutputRight() &&
      (!wantClose ==> wantWrite == (outgoing.data != []) && wantRead == !wantWrite)
    }

    // It has executed the complete requests it has received, and holds the
    // rest of the stream.
    ghost predicate InputRight()
      reads this`wantClose, this`received, this`executed, incoming
    {
      var p := Split(received);
      p.cmds == executed && p.rest == incoming.data && (p.closed ==> wantClose)
    }

    // Each command has one reply, and what was written and what is still to be
    // written are the frames of the replies.
    ghost predicate OutputRight()
      reads this`executed, this`replies, this`sent, outgoing
    {
      |replies| == |executed| && (forall v :: v in replies ==> v.Some?) && Appended() == Frames(replies)
    }

    // Everything appended to outgoing so far.
    ghost function Appended(): Bytes
      reads this`sent, outgoing
    {
      sent + outgoing.data
    }

    // The store has no part in the connection.
    ghost predicate Clear(st: Store)
      reads st`Cells, st`Lent, st.db
    {
      incoming != outgoing && this !in st.World() && incoming !in st.World() && outgoing !in st.World()
    }

    // handle_accept's new connection.
    constructor (fd: nat, now: nat)
      ensures Valid() && fresh(this) && fresh(incoming) && fresh(outgoing) && this.fd == fd && lastActive == now
      ensures wantRead && !wantClose && Past() == History([], [], [], [], now) && outgoing.data == []
      ensures idleNode != null && fresh(idleNode) && idleNode.owner == Some(this)
    {
      this.fd := fd;
      wantRead, wantWrite, wantClose := true, false, false;
      incoming := new Buffer();
      outgoing := new Buffer();
      lastActive := now;
      received, executed, replies, sent := [], [], [], [];
      idleNode := null;
      new;
      idleNode := new DList(Some(this));
    }

    // try_one_request.  x is what happens in the store, at the time now.
    method TryOneRequest(st: Store, num: Numbers, last: nat, ghost k: nat)
      returns (more: bool, now: nat, ghost x: Run)
      requires Clear(st) && st.Valid() && Able(st.Model(), k)
      requires FirstRequest(incoming.data).Ready? ==> k > 0
      modifies this`wantClose, incoming, outgoing, st.Repr()
      ensures st.Valid() && st.Onward() && now >= last
      ensures Leads(x, old(st.Model()), st.Model(), num) && outgoing.data == old(outgoing.data) + Frames(x.replies)
      ensures !more ==> st.Model() == old(st.Model())
      ensures match FirstRequest(old(incoming.data))
        case Wait => !more && wantClose == old(wantClose) && incoming.data == old(incoming.data) && Nothing(x)
        case Bad => !more && wantClose && incoming.data == old(incoming.data) && Nothing(x)
        case Ready(cmd, size) =>
          more && wantClose == old(wantClose) && incoming.data == old(incoming.data)[size..] &&
          x.events == [Event.Request(cmd, now)] && |x.replies| == 1 && x.replies[0].Some? && Able(st.Model(), k - 1)
    {
      hide Parse, Leads, Able, Store.Valid, Store.Model, Frames;
      now, more, x := last, false, Still(st.Model());
      NoReply(st.Model(), num);
      if |incoming.data| >= 4 {
        var len := FromU32(incoming.data[..4]);
        if len > K_MAX_MSG {
          wantClose := true;
        } else if 4 + len <= |incoming.data| {
          var parsed := ParseReq(incoming.data[4..4 + len]);
          if parsed.None? {
            wantClose := true;
          } else {
            KeyValue.ParsedIsShort(incoming.data[4..4 + len], parsed.value);
            now, x := Answer(st, parsed.value, 4 + len, num, last, k - 1);
            more := true;
          }
        }
      }
    }

    // The request is complete: answer it and drop its bytes.
    method Answer(st: Store, cmd: Cmd, size: nat, num: Numbers, last: nat, ghost k: nat)
      returns (now: nat, ghost x: Run)
      requires Clear(st) && st.Valid() && Able(st.Model(), k + 1) && ShortOp(OpOf(cmd)) && size <= |incoming.data|
      modifies incoming, outgoing, st.Repr()
      ensures st.Valid() && st.Onward() && Able(st.Model(), k) && now >= last
      ensures Leads(x, old(st.Model()), st.Model(), num) && outgoing.data == old(outgoing.data) + Frames(x.replies)
      ensures x.events == [Event.Request(cmd, now)] && |x.replies| == 1 && x.replies[0].Some?
      ensures incoming.data == old(incoming.data)[size..]
    {
      hide Leads, Able, Store.Valid, Store.Model, Frames, OpOf, ShortOp, ShortDb, Counted;
      now := Clock(last);
      ghost var m := st.Model();
      AbleCounted(m, k + 1);
      x := PlayRequest(st, cmd, now, num, outgoing);
      LeadsAble(x, m, st.Model(), num, k);
      ghost var was := incoming.data;
      incoming.Consume(size);
      assert was[size..] == incoming.data;
    }

    // The pipelining loop of handle_read.
    method RunRequests(st: Store, num: Numbers, last: nat, ghost k: nat) returns (now: nat, ghost x: Run)
      requires Clear(st) && st.Valid() && Able(st.Model(), k) && !wantClose
      requires |Split(incoming.data).cmds| <= k
      modifies this`wantClose, incoming, outgoing, st.Repr()
      ensures st.Valid() && st.Onward() && Timely(x.events, last, now)
      ensures Leads(x, old(st.Model()), st.Model(), num) && outgoing.data == old(outgoing.data) + Frames(x.replies)
      ensures AllAnswered(x) && |x.events| <= k && Able(st.Model(), k - |x.events|)
      ensures var p := Split(old(incoming.data));
        Cmds(x.events) == p.cmds && |x.events| == |p.cmds| && incoming.data == p.rest && wantClose == p.closed
    {
      hide FirstRequest, Split, Leads, Able, Store.Valid, Store.Model, Frames, Cmds, Timely, AllAnswered, Join;
      ghost var m, all := st.Model(), Split(incoming.data);
      now, x := last, Still(m);
      NoReply(m, num);
      var more := true;
      assert [] + all.cmds == all.cmds;
      while more
        invariant st.Valid() && st.Onward() && Clear(st)
        invariant Leads(x, m, st.Model(), num) && AllAnswered(x) && Timely(x.events, last, now)
        invariant outgoing.data == old(outgoing.data) + Frames(x.replies)
        invariant |Cmds(x.events)| == |x.events| <= |all.cmds| && Able(st.Model(), k - |x.events|)
        invariant var p := Split(incoming.data);
          more ==> !wantClose && all == Parsed(Cmds(x.events) + p.cmds, p.rest, p.closed)
        invariant !more ==> Cmds(x.events) == all.cmds && incoming.data == all.rest && wantClose == all.closed
        decreases more, |incoming.data|
      {
        ghost var u, first, done := st.Model(), FirstRequest(incoming.data), Cmds(x.events);
        ghost var split := Split(incoming.data);
        SplitOnce(incoming.data);
        ghost var y;
        ghost var before := now;
        more, now, y := TryOneRequest(st, num, now, k - |x.events|);
        TimelyLater(x.events, last, before, now);
        if more {
          OneMore(x, y, m, u, st.Model(), num, last, now);
          x := Join(x, y);
          assert split.cmds == [first.cmd] + Split(incoming.data).cmds;
          assert done + split.cmds == (done + [first.cmd]) + Split(incoming.data).cmds;
        } else {
          assert done + [] == done && Frames([]) == [] by { NoReply(m, num); }
        }
      }
    }

    // buf_append, then the loop.
    method Receive(st: Store, bytes: Bytes, num: Numbers, last: nat, ghost k: nat) returns (now: nat, ghost x: Run)
      requires Valid() && wantRead && !wantClose && |bytes| <= READ_SIZE
      requires Clear(st) && st.Valid() && Able(st.Model(), k) && TURN <= k
      modifies this`wantClose, this`received, this`executed, this`replies, incoming, outgoing, st.Repr()
      ensures incoming != outgoing && InputRight() && OutputRight()
      ensures st.Valid() && st.Onward() && Timely(x.events, last, now)
      ensures Leads(x, old(st.Model()), st.Model(), num) && |x.events| <= TURN && Able(st.Model(), k - |x.events|)
      ensures received == old(received) + bytes && executed == old(executed) + Cmds(x.events)
      ensures replies == old(replies) + x.replies
      ensures Cmds(x.events) == Split(old(incoming.data) + bytes).cmds
      ensures wantClose == Split(received).closed && outgoing.data == old(outgoing.data) + Frames(x.replies)
    {
      hide FirstRequest, Split, Leads, Able, Store.Valid, Store.Model, Frames, Cmds, Timely;
      BetweenEvents();
      FewComplete(incoming.data, bytes);
      SplitConcat(received, bytes);
      incoming.Append(bytes);
      now, x := RunRequests(st, num, last, k);
      received := received + bytes;
      executed := executed + Cmds(x.events);
      FramesConcat(replies, x.replies);
      Assoc(sent, old(outgoing.data), Frames(x.replies));
      replies := replies + x.replies;
    }

    // handle_write
    method HandleWrite(w: WriteResult)
      requires Valid() && wantWrite && outgoing.data != []
      modifies this`wantRead, this`wantWrite, this`wantClose, this`sent, outgoing
      ensures Valid() && Appended() == old(Appended()) && old(sent) <= sent
      ensures wantClose == (old(wantClose) || w.WriteFailed?)
      ensures |sent| == |old(sent)| + Taken(w, old(outgoing.data))
    {
      hide Split, Frames;
      match w
      case WriteAgain =>
      case WriteFailed => wantClose := true;
      case Takes(most) =>
        var n := if most < |outgoing.data| then most else |outgoing.data|;
        ghost var was := outgoing.data;
        outgoing.Consume(n);
        sent := sent + was[..n];
        assert was == was[..n] + outgoing.data;
        if |outgoing.data| == 0 {
          wantRead, wantWrite := true, false;
        }
    }

    // handle_read: the first attempt to write follows at once.
    method HandleRead(st: Store, num: Numbers, r: ReadResult, w: WriteResult, last: nat, ghost k: nat)
      returns (now: nat, ghost x: Run)
      requires Valid() && wantRead && !wantClose && Possible(r)
      requires Clear(st) && st.Valid() && Able(st.Model(), k) && TURN <= k
      modifies this`wantRead, this`wantWrite, this`wantClose, this`sent, this`received, this`executed, this`replies
      modifies incoming, outgoing, st.Repr()
      ensures Valid() && st.Valid() && st.Onward() && Timely(x.events, last, now)
      ensures Leads(x, old(st.Model()), st.Model(), num) && |x.events| <= TURN && Able(st.Model(), k - |x.events|)
      ensures received == old(received) + (if r.Got? then r.bytes else [])
      ensures executed == old(executed) + Cmds(x.events) && replies == old(replies) + x.replies
      ensures Cmds(x.events) == if r.Got? then Split(old(incoming.data) + r.bytes).cmds else []
      ensures wantClose <==>
        r.ReadFailed? || r.Eof? || Split(received).closed || (Frames(x.replies) != [] && w.WriteFailed?)
      ensures |sent| == |old(sent)| + Taken(w, Frames(x.replies))
    {
      hide Split, FirstRequest, Leads, Able, Store.Valid, Store.Model, Frames, Cmds, Timely;
      now, x := last, Still(st.Model());
      NoReply(st.Model(), num);
      match r
      case ReadAgain =>
      case ReadFailed => wantClose := true;
      case Eof => wantClose := true;
      case Got(bytes) =>
        now, x := Receive(st, bytes, num, last, k);
        if |outgoing.data| > 0 {
          wantRead, wantWrite := false, true;
          HandleWrite(w);
        }
    }

    // The IO of one connection's turn in the event loop, for what poll()
    // reported of what was asked for.
    method Dispatch(st: Store, num: Numbers, e: Polled, last: nat, ghost k: nat) returns (now: nat, ghost x: Run)
      requires Valid() && !wantClose && Possible(e.r)
      requires (e.readable ==> wantRead) && (e.writable ==> wantWrite)
      requires Clear(st) && st.Valid() && Able(st.Model(), k) && TURN <= k
      modifies this`wantRead, this`wantWrite, this`wantClose, this`sent, this`received, this`executed, this`replies
      modifies incoming, outgoing, st.Repr()
      ensures Valid() && st.Valid() && st.Onward() && Timely(x.events, last, now)
      ensures Leads(x, old(st.Model()), st.Model(), num) && |x.events| <= TURN && Able(st.Model(), k - |x.events|)
      ensures received == old(received) + e.Input()
      ensures executed == old(executed) + Cmds(x.events) && replies == old(replies) + x.replies
      ensures Cmds(x.events) == if e.readable && e.r.Got? then Split(old(incoming.data) + e.r.bytes).cmds else []
      ensures wantClose <==> e.GivesUp(received, old(outgoing.data), x.replies)
      ensures |sent| == |old(sent)| + Taken(e.w, e.Due(old(outgoing.data), x.replies))
    {
      hide Split, FirstRequest, Leads, Able, Store.Valid, Store.Model, Frames, Cmds, Timely;
      now, x := last, Still(st.Model());
      NoReply(st.Model(), num);
      if e.readable {
        assert wantRead;
        now, x := HandleRead(st, num, e.r, e.w, last, k);
      }
      if e.writable {
        assert wantWrite;
        HandleWrite(e.w);
      }
    }

    // A connection that stays open holds no complete request, and is waiting
    // for exactly one of reading and writing.
    lemma BetweenEvents()
      requires Valid() && !wantClose
      ensures FirstRequest(incoming.data).Wait?
      ensures wantWrite == (outgoing.data != []) && wantRead == (outgoing.data == [])
    {
      SplitRests(received);
    }

    lemma Executed()
      requires Valid()
      ensures executed == Split(received).cmds && |replies| == |executed| && sent <= Frames(replies)
    {
    }

    // The bytes received are the messages of the commands executed, and what
    // is held; the bytes sent and still held are the frames of their replies,
    // one for each.
    lemma InAndOut()
      requires Valid()
      ensures received == RequestFrames(executed) + incoming.data
      ensures sent + outgoing.data == Frames(replies) && |replies| == |executed| && forall v :: v in replies ==> v.Some?
    {
      hide Split, Frames;
      SplitIs(received);
    }
  }

  // How many requests one read can complete.
  lemma FewComplete(rest: Bytes, bytes: Bytes)
    requires FirstRequest(rest).Wait? && |bytes| <= READ_SIZE
    ensures |Split(rest + bytes).cmds| <= TURN
  {
    hide FirstRequest, Split, RequestFrames;
    WaitIsShort(rest);
    SplitIs(rest + bytes);
  }

  // Every event of the run has a reply.
  ghost predicate AllAnswered(x: Run) {
    |x.replies| == |x.events| && forall v :: v in x.replies ==> v.Some?
  }

  // The run goes on with one more request, at the time now.
  lemma OneMore(x: Run, y: Run, m: Db, u: Db, t: Db, num: Numbers, last: nat, now: nat)
    requires Leads(x, m, u, num) && AllAnswered(x) && Timely(x.events, last, now)
    requires Leads(y, u, t, num) && |y.events| == 1 && y.events[0].Request? && y.events[0].now == now
    requires |y.replies| == 1 && y.replies[0].Some?
    ensures |y.maps| > 0 && Leads(Join(x, y), m, t, num) && AllAnswered(Join(x, y))
    ensures Timely(Join(x, y).events, last, now) && |Join(x, y).events| == |x.events| + 1
    ensures Frames(Join(x, y).replies) == Frames(x.replies) + Frames(y.replies)
    ensures Cmds(Join(x, y).events) == Cmds(x.events) + [y.events[0].cmd]
  {
    hide Leads, Frames, Cmds;
    assert y.events == [y.events[0]];
    OneCmd(y.events[0]);
    LeadsOn(x, y, m, u, t, num);
    TimelyConcat(x.events, y.events, last, now, now);
  }

  lemma OneCmd(e: Event)
    ensures Cmds([e]) == if e.Request? then [e.cmd] else []
  {
    assert [e][..0] == [];
  }

  // A run in which nothing happens.
  ghost predicate Nothing(x: Run) {
    x.events == [] && x.replies == []
  }

  lemma NoReply(m: Db, num: Numbers)
    ensures Leads(Still(m), m, m, num) && Frames([]) == [] && Cmds([]) == []
    ensures AllAnswered(Still(m)) && forall t: nat {:trigger Timely([], t, t)} :: Timely([], t, t)
  {
    StillLeads(m, num);
  }
}
