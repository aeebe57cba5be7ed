// What a byte stream asks for, whatever pieces it arrives in: the meaning of
// the request loop in lib/server/conn.cpp.

module Framing {
  import opened Basics
  import opened Wire
  import opened Request
  import opened Buffers

  type Cmd = seq<Bytes>

  // The commands of the complete requests at the front, what is left, and
  // whether the connection must be closed because of it.
  datatype Parsed = Parsed(cmds: seq<Cmd>, rest: Bytes, closed: bool)

  datatype Head = Wait | Bad | Ready(cmd: Cmd, size: nat)

  // try_one_request, up to the execution.
  function FirstRequest(d: Bytes): (h: Head)
    ensures h.Ready? ==> 4 <= h.size <= |d|
  {
    if |d| < 4 then Wait
    else
      var len := FromU32(d[..4]);
      if len > K_MAX_MSG then Bad
      else if 4 + len > |d| then Wait
      else match Parse(d[4..4 + len])
        case None => Bad
        case Some(cmd) => Ready(cmd, 4 + len)
  }

  function Split(d: Bytes): Parsed
    decreases |d|
  {
    match FirstRequest(d)
    case Wait => Parsed([], d, false)
    case Bad => Parsed([], d, true)
    case Ready(cmd, size) =>
      var p := Split(d[size..]);
      p.(cmds := [cmd] + p.cmds)
  }

  // The frame that carries a reply.
  function Frame(v: Value): Bytes {
    U32(|Body(Encode(v))|) + Body(Encode(v))
  }

  // Executing commands in order: the state they leave, and the bytes appended.
  function RunAll<S>(exec: (S, Cmd) -> (S, Value), s: S, cmds: seq<Cmd>): (S, Bytes)
    decreases cmds
  {
    if cmds == [] then (s, [])
    else
      var (t, v) := exec(s, cmds[0]);
      var (u, out) := RunAll(exec, t, cmds[1..]);
      (u, Frame(v) + out)
  }

  // What is left of a stream that stays open is no complete request.
  lemma {:induction false} SplitRests(d: Bytes)
    ensures !Split(d).closed ==> FirstRequest(Split(d).rest).Wait?
    decreases |d|
  {
    hide FirstRequest;
    match FirstRequest(d)
    case Wait =>
    case Bad =>
    case Ready(cmd, size) => SplitRests(d[size..]);
  }

  // ----- What a stream holds: the frames that clients send -----

  // The message that send_req writes for a command it does not refuse.
  function RequestFrame(c: Cmd): Bytes {
    U32(|EncodeReq(c)|) + EncodeReq(c)
  }

  predicate Sendable(c: Cmd) {
    |EncodeReq(c)| <= K_MAX_MSG
  }

  function RequestFrames(cs: seq<Cmd>): Bytes {
    if cs == [] then [] else RequestFrame(cs[0]) + RequestFrames(cs[1..])
  }

  // One round of the loop, on the whole stream.
  lemma {:induction false} SplitOnce(d: Bytes)
    ensures match FirstRequest(d)
      case Wait => Split(d) == Parsed([], d, false)
      case Bad => Split(d) == Parsed([], d, true)
      case Ready(cmd, size) =>
        var p := Split(d[size..]);
        Split(d) == Parsed([cmd] + p.cmds, p.rest, p.closed)
  {
    hide FirstRequest;
  }

  // A command is recognised if and only if its message is what comes first.
  lemma FirstRequestIs(d: Bytes, c: Cmd, n: nat)
    ensures FirstRequest(d) == Ready(c, n) <==> Sendable(c) && n == |RequestFrame(c)| && RequestFrame(c) <= d
  {
    hide U32, FromU32, Parse, EncodeReq;
    if FirstRequest(d) == Ready(c, n) {
      var len := FromU32(d[..4]);
      FromU32RoundTrip(d[..4]);
      ParseIsInverse(d[4..4 + len], c);
      assert d[..n] == d[..4] + d[4..n];
    }
    if Sendable(c) && n == |RequestFrame(c)| && RequestFrame(c) <= d {
      var body := EncodeReq(c);
      assert d[..n] == RequestFrame(c);
      assert d[..4] == U32(|body|) && d[4..n] == body;
      U32RoundTrip(|body|);
      SentIsParsed(c);
    }
  }

  // A connection is closed only when no more bytes could make a request of
  // what it holds.
  lemma BadIsHopeless(d: Bytes, more: Bytes, c: Cmd)
    requires FirstRequest(d).Bad? && Sendable(c)
    ensures !(RequestFrame(c) <= d + more)
  {
    hide FirstRequest;
    FirstRequestStable(d, more);
    FirstRequestIs(d + more, c, |RequestFrame(c)|);
  }

  // A request that is waited for is shorter than the longest message.
  lemma WaitIsShort(d: Bytes)
    requires FirstRequest(d).Wait?
    ensures |d| < 4 + K_MAX_MSG
  {
  }

  // The stream is the messages of the commands, and what is left.
  lemma {:induction false} SplitIs(d: Bytes)
    ensures d == RequestFrames(Split(d).cmds) + Split(d).rest
    ensures forall c :: c in Split(d).cmds ==> Sendable(c)
    ensures 8 * |Split(d).cmds| <= |d|
    decreases |d|
  {
    hide FirstRequest, RequestFrame, RequestFrames, Split, Sendable;
    SplitOnce(d);
    NoFrame();
    match FirstRequest(d)
    case Wait =>
    case Bad =>
    case Ready(cmd, size) =>
      var p := Split(d[size..]);
      FirstRequestIs(d, cmd, size);
      FrameIsLong(cmd);
      SplitIs(d[size..]);
      OneFrame(cmd, p.cmds);
      assert d == RequestFrame(cmd) + d[size..];
      Assoc(RequestFrame(cmd), RequestFrames(p.cmds), p.rest);
  }

  lemma NoFrame()
    ensures RequestFrames([]) == []
  {
  }

  lemma OneFrame(c: Cmd, cs: seq<Cmd>)
    ensures RequestFrames([c] + cs) == RequestFrame(c) + RequestFrames(cs)
  {
    assert ([c] + cs)[1..] == cs;
  }

  lemma FrameIsLong(c: Cmd)
    ensures |RequestFrame(c)| >= 8
  {
  }

  // Whatever follows, the commands that were sent come out as they went in.
  lemma {:induction false} SplitSent(cs: seq<Cmd>, rest: Bytes)
    requires forall c :: c in cs ==> Sendable(c)
    ensures var p := Split(rest);
      Split(RequestFrames(cs) + rest) == Parsed(cs + p.cmds, p.rest, p.closed)
  {
    hide FirstRequest, RequestFrame, Sendable, Split;
    if cs == [] {
      assert [] + rest == rest && cs + Split(rest).cmds == Split(rest).cmds;
    } else {
      var f, fs := RequestFrame(cs[0]), RequestFrames(cs[1..]);
      SplitSent(cs[1..], rest);
      FirstSent(cs[0], fs + rest);
      Assoc(f, fs, rest);
      assert [cs[0]] + (cs[1..] + Split(rest).cmds) == cs + Split(rest).cmds;
    }
  }

  lemma FirstSent(c: Cmd, more: Bytes)
    requires Sendable(c)
    ensures var p := Split(more); Split(RequestFrame(c) + more) == Parsed([c] + p.cmds, p.rest, p.closed)
  {
    hide FirstRequest, RequestFrame, Split;
    var d, f := RequestFrame(c) + more, RequestFrame(c);
    FirstRequestIs(d, c, |f|);
    SplitOnce(d);
    assert d[|f|..] == more;
  }

  // ----- The split into reads does not matter -----

  // More bytes do not change what was already complete.
  lemma FirstRequestStable(a: Bytes, b: Bytes)
    ensures !FirstRequest(a).Wait? ==> FirstRequest(a + b) == FirstRequest(a)
  {
    if |a| >= 4 {
      assert (a + b)[..4] == a[..4];
      var len := FromU32(a[..4]);
      if 4 + len <= |a| {
        assert (a + b)[4..4 + len] == a[4..4 + len];
      }
    }
  }

  // Reading a, and then b behind what was left of a, is reading a + b.
  lemma {:induction false} SplitConcat(a: Bytes, b: Bytes)
    ensures var p, q := Split(a), Split(a + b);
      if p.closed then q.closed && q.cmds == p.cmds
      else var r := Split(p.rest + b);
        q == Parsed(p.cmds + r.cmds, r.rest, r.closed)
    decreases |a|
  {
    hide FirstRequest;
    FirstRequestStable(a, b);
    match FirstRequest(a)
    case Wait =>
      assert [] + Split(a + b).cmds == Split(a + b).cmds;
    case Bad =>
    case Ready(cmd, size) =>
      SplitConcat(a[size..], b);
      assert (a + b)[size..] == a[size..] + b;
      if !Split(a).closed {
        var r := Split(Split(a).rest + b);
        assert [cmd] + (Split(a[size..]).cmds + r.cmds) == [cmd] + Split(a[size..]).cmds + r.cmds;
      }
  }

  lemma {:induction false} RunAllConcat<S>(exec: (S, Cmd) -> (S, Value), s: S, a: seq<Cmd>, b: seq<Cmd>)
    ensures var (t, x) := RunAll(exec, s, a);
      var (u, y) := RunAll(exec, t, b);
      RunAll(exec, s, a + b) == (u, x + y)
    decreases a
  {
    hide Frame;
    if a == [] {
      assert a + b == b;
      assert [] + RunAll(exec, s, b).1 == RunAll(exec, s, b).1;
    } else {
      var (t, v) := exec(s, a[0]);
      RunAllConcat(exec, t, a[1..], b);
      assert (a + b)[0] == a[0] && (a + b)[1..] == a[1..] + b;
      var (u, x) := RunAll(exec, t, a[1..]);
      Assoc(Frame(v), x, RunAll(exec, u, b).1);
    }
  }

  // A connection fed with one read after the other; a closed one reads no more.
  datatype Session<S> = Session(s: S, cmds: seq<Cmd>, out: Bytes, rest: Bytes, closed: bool)

  function Feed<S>(exec: (S, Cmd) -> (S, Value), x: Session<S>, chunk: Bytes): Session<S> {
    if x.closed then x
    else
      var p := Split(x.rest + chunk);
      var (t, out) := RunAll(exec, x.s, p.cmds);
      Session(t, x.cmds + p.cmds, x.out + out, p.rest, p.closed)
  }

  function FeedAll<S>(exec: (S, Cmd) -> (S, Value), x: Session<S>, chunks: seq<Bytes>): Session<S> {
    if chunks == [] then x
    else Feed(exec, FeedAll(exec, x, chunks[..|chunks| - 1]), chunks[|chunks| - 1])
  }

  function Flat(chunks: seq<Bytes>): Bytes {
    if chunks == [] then [] else Flat(chunks[..|chunks| - 1]) + chunks[|chunks| - 1]
  }

  // Whatever the reads, the same commands are executed, the same bytes are
  // appended, and the connection is closed for the same streams.
  lemma {:induction false} ChunkIndependence<S>(exec: (S, Cmd) -> (S, Value), s: S, chunks: seq<Bytes>)
    ensures var x := FeedAll(exec, Session(s, [], [], [], false), chunks);
      var p := Split(Flat(chunks));
      x.cmds == p.cmds && x.closed == p.closed && (x.s, x.out) == RunAll(exec, s, p.cmds) &&
      (!x.closed ==> x.rest == p.rest)
  {
    hide FirstRequest;
    var init := Session(s, [], [], [], false);
    if chunks == [] {
      assert FirstRequest([]) == Wait by { NothingToRead(); }
    } else {
      var front, last := chunks[..|chunks| - 1], chunks[|chunks| - 1];
      ChunkIndependence(exec, s, front);
      var x, p := FeedAll(exec, init, front), Split(Flat(front));
      SplitConcat(Flat(front), last);
      if !x.closed {
        RunAllConcat(exec, s, p.cmds, Split(p.rest + last).cmds);
      }
    }
  }

  // The state, and how many commands have been executed.
  datatype Clocked<S> = Clocked(s: S, k: nat)

  // Executing the k-th command at the time clock(k).
  function ExecAt<S>(exec: (S, Cmd, nat) -> (S, Value), clock: nat -> nat, x: Clocked<S>, cmd: Cmd)
    : (Clocked<S>, Value)
  {
    var r := exec(x.s, cmd, clock(x.k));
    (Clocked(r.0, x.k + 1), r.1)
  }

  // Replies that depend on the time depend on the reads only through the times
  // at which the commands are executed.
  lemma TimedIndependence<S>(exec: (S, Cmd, nat) -> (S, Value), clock: nat -> nat, s: S,
      a: seq<Bytes>, b: seq<Bytes>)
    requires Flat(a) == Flat(b)
    ensures var step := (x: Clocked<S>, cmd: Cmd) => ExecAt(exec, clock, x, cmd);
      var x := FeedAll(step, Session(Clocked(s, 0), [], [], [], false), a);
      var y := FeedAll(step, Session(Clocked(s, 0), [], [], [], false), b);
      x.cmds == y.cmds && x.out == y.out && x.s == y.s && x.closed == y.closed && (!x.closed ==> x.rest == y.rest)
  {
    var step := (x: Clocked<S>, cmd: Cmd) => ExecAt(exec, clock, x, cmd);
    ChunkIndependence(step, Clocked(s, 0), a);
    ChunkIndependence(step, Clocked(s, 0), b);
  }

  lemma NothingToRead()
    ensures FirstRequest([]) == Wait
  {
  }

  // What clients send is what the server executes, however it arrives: for
  // every list of commands and every split of their messages into reads.
  lemma SentIsExecuted<S>(exec: (S, Cmd) -> (S, Value), s: S, cs: seq<Cmd>, chunks: seq<Bytes>)
    requires Flat(chunks) == RequestFrames(cs) && forall c :: c in cs ==> Sendable(c)
    ensures var x := FeedAll(exec, Session(s, [], [], [], false), chunks);
      x.cmds == cs && x.rest == [] && !x.closed && (x.s, x.out) == RunAll(exec, s, cs)
  {
    hide FirstRequest, RequestFrames, RunAll, FeedAll, Sendable;
    ChunkIndependence(exec, s, chunks);
    SplitSent(cs, []);
    NothingToRead();
    assert RequestFrames(cs) + [] == RequestFrames(cs) && cs + [] == cs;
  }
}
