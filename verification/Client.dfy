// The client's side of the responses: read_res in lib/client/query.cpp.

module Client {
  import opened Basics
  import opened Wire
  import opened Buffers
  import opened Framing
  import opened Runs

  // What read_res shows, and what it leaves of the bytes that arrive.
  function ReadFrame(d: Bytes): Option<(Value, Bytes)> {
    if |d| < 4 then None
    else
      var len := FromU32(d[..4]);
      if len > K_MAX_MSG || |d| < 4 + len then None
      else
        var body := d[4..4 + len];
        if Consume(body) == |body| && NoWrap(body) then Some((Shown(body), d[4 + len..])) else None
  }

  // read_res, on the bytes that arrive before the end of the stream.
  method ReadRes(d: Bytes) returns (r: int, shown: Value, rest: Bytes)
    ensures ReadFrame(d).Some? ==> r > 0 && (shown, rest) == ReadFrame(d).value
    ensures r > 0 ==> |d| >= 4 && r == FromU32(d[..4]) <= K_MAX_MSG && 4 + r <= |d| && Consume(d[4..4 + r]) == r
  {
    shown, rest := Nil, [];
    if |d| < 4 {
      return -1, Nil, [];
    }
    var len := FromU32(d[..4]);
    if len > K_MAX_MSG {
      return -1, Nil, [];
    }
    if |d| < 4 + len {
      return -1, Nil, [];
    }
    r, shown := PrintResponse(d[4..4 + len]);
    rest := d[4 + len..];
    if r > 0 && r != len {
      r := -1;
    }
  }

  // A reply is read as it was meant, whatever follows.
  lemma FrameIsRead(v: Value, more: Bytes)
    requires Deliverable(v) && Exact(v)
    ensures ReadFrame(Frame(v) + more) == Some((Delivered(v), more))
  {
    hide Encode, Consume, NoWrap, Shown, FromU32, U32;
    BodyReadable(v);
    var b := Body(Encode(v));
    var d := Frame(v) + more;
    assert d[..4] == U32(|b|) && d[4..4 + |b|] == b && d[4 + |b|..] == more;
    U32RoundTrip(|b|);
  }

  // The replies in the bytes that arrive, n of them.
  function ReadFrames(d: Bytes, n: nat): Option<seq<Value>> {
    if n == 0 then Some([])
    else
      var f := ReadFrame(d);
      if f.None? then None
      else
        var rest := ReadFrames(f.value.1, n - 1);
        if rest.None? then None else Some([f.value.0] + rest.value)
  }

  ghost function AllDelivered(vs: seq<Option<Value>>): (r: seq<Value>)
    requires forall v :: v in vs ==> v.Some?
    ensures |r| == |vs|
  {
    seq(|vs|, i requires 0 <= i < |vs| => Delivered(vs[i].value))
  }

  // What a connection sends is read by its client as exactly the replies, in
  // order.
  lemma {:induction false} RepliesAreRead(vs: seq<Option<Value>>, more: Bytes)
    requires forall v :: v in vs ==> v.Some? && Exact(v.value) && Deliverable(v.value)
    ensures ReadFrames(Frames(vs) + more, |vs|) == Some(AllDelivered(vs))
  {
    hide Frame, ReadFrame, Delivered, Exact, Deliverable;
    if vs != [] {
      var v, rest := vs[0], vs[1..];
      assert vs == [v] + rest;
      FramesConcat([v], rest);
      assert Frames([v]) == Frames([]) + Frame(v.value) == Frame(v.value);
      Assoc(Frame(v.value), Frames(rest), more);
      FrameIsRead(v.value, Frames(rest) + more);
      RepliesAreRead(rest, more);
      assert AllDelivered(vs) == [Delivered(v.value)] + AllDelivered(rest);
    }
  }
}
