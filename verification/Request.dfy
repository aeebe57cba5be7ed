// The request format: send_req in lib/client/query.cpp writes it, parse_req in
// lib/server/response.cpp reads it with the readers of lib/utils.cpp.

module Request {
  import opened Basics
  import opened Wire

  const K_MAX_ARGS: nat := 200_000

  // The strings one after the other, each behind its length.
  function EncodeStrs(c: seq<Bytes>): Bytes {
    if c == [] then [] else U32(|c[0]|) + c[0] + EncodeStrs(c[1..])
  }

  // The body of a request.
  function EncodeReq(c: seq<Bytes>): Bytes {
    U32(|c|) + EncodeStrs(c)
  }

  predicate ShortStrs(c: seq<Bytes>) {
    forall i :: 0 <= i < |c| ==> |c[i]| < U32_MOD
  }

  // The command lists that the format can carry and the server accepts.
  predicate Fits(c: seq<Bytes>) {
    |c| <= K_MAX_ARGS && ShortStrs(c)
  }

  // ----- Reading -----

  // read_u32: the cursor moves on only if there are four bytes.
  method ReadU32(data: Bytes, cur: nat) returns (ok: bool, n: nat, next: nat)
    requires cur <= |data|
    ensures ok == (cur + 4 <= |data|)
    ensures if ok then next == cur + 4 && n == FromU32(data[cur..cur + 4]) else next == cur
  {
    ok, n, next := cur + 4 <= |data|, 0, cur;
    if ok {
      n, next := FromU32(data[cur..cur + 4]), cur + 4;
    }
  }

  // read_str
  method ReadStr(data: Bytes, cur: nat, n: nat) returns (ok: bool, s: Bytes, next: nat)
    requires cur <= |data|
    ensures ok == (cur + n <= |data|)
    ensures if ok then next == cur + n && s == data[cur..next] else next == cur
  {
    ok, s, next := cur + n <= |data|, [], cur;
    if ok {
      s, next := data[cur..cur + n], cur + n;
    }
  }

  // The parse loop: k more strings are due in d, out has been read.
  function ParseStrs(d: Bytes, k: nat, out: seq<Bytes>): Option<seq<Bytes>>
    decreases k
  {
    if k == 0 then (if d == [] then Some(out) else None)
    else if |d| < 4 || |d| < 4 + FromU32(d[..4]) then None
    else
      var len := FromU32(d[..4]);
      ParseStrs(d[4 + len..], k - 1, out + [d[4..4 + len]])
  }

  function Parse(data: Bytes): Option<seq<Bytes>> {
    if |data| < 4 || FromU32(data[..4]) > K_MAX_ARGS then None
    else ParseStrs(data[4..], FromU32(data[..4]), [])
  }

  // parse_req
  method ParseReq(data: Bytes) returns (r: Option<seq<Bytes>>)
    ensures r == Parse(data)
  {
    var ok, n, cur := ReadU32(data, 0);
    if !ok || n > K_MAX_ARGS {
      return None;
    }
    var out: seq<Bytes> := [];
    while |out| < n
      invariant |out| <= n && 0 <= cur <= |data|
      invariant ParseStrs(data[cur..], n - |out|, out) == Parse(data)
      decreases n - |out|
    {
      var len, s;
      ghost var d := data[cur..];
      assert |d| >= 4 ==> d[..4] == data[cur..cur + 4];
      ok, len, cur := ReadU32(data, cur);
      if !ok {
        return None;
      }
      ghost var start := cur;
      ok, s, cur := ReadStr(data, cur, len);
      if !ok {
        return None;
      }
      assert d[4..4 + len] == s && d[4 + len..] == data[cur..];
      out := out + [s];
    }
    r := if cur != |data| then None else Some(out);
  }

  // ----- Reading undoes writing -----

  lemma {:induction false} ParseEncodeStrs(c: seq<Bytes>, out: seq<Bytes>)
    requires ShortStrs(c)
    ensures ParseStrs(EncodeStrs(c), |c|, out) == Some(out + c)
    decreases c
  {
    hide U32, FromU32;
    if c == [] {
      assert out + c == out;
    } else {
      var s, d, e := c[0], EncodeStrs(c), EncodeStrs(c[1..]);
      U32RoundTrip(|s|);
      SplitHead(U32(|s|), s, e);
      ParseEncodeStrs(c[1..], out + [s]);
      assert out + [s] + c[1..] == out + c;
    }
  }

  lemma SplitHead(n: Bytes, s: Bytes, e: Bytes)
    requires |n| == 4
    ensures var d := n + s + e; d[..4] == n && d[4..4 + |s|] == s && d[4 + |s|..] == e
  {
  }

  lemma {:induction false} ParsedIsEncoding(d: Bytes, k: nat, out: seq<Bytes>)
    requires ParseStrs(d, k, out).Some?
    ensures var c := ParseStrs(d, k, out).value;
      |c| == |out| + k && c[..|out|] == out && ShortStrs(c[|out|..]) && d == EncodeStrs(c[|out|..])
    decreases k
  {
    hide U32, FromU32, ShortStrs, EncodeStrs;
    var c := ParseStrs(d, k, out).value;
    if k == 0 {
      assert c[|out|..] == [];
      NoStrs();
    } else {
      var len := FromU32(d[..4]);
      var s, rest := d[4..4 + len], d[4 + len..];
      FromU32RoundTrip(d[..4]);
      ParsedIsEncoding(rest, k - 1, out + [s]);
      assert c[..|out| + 1][|out|] == s && c[..|out|] == c[..|out| + 1][..|out|];
      assert c[|out|..] == [s] + c[|out| + 1..];
      OneStr(s, c[|out| + 1..]);
      assert d == d[..4] + s + rest;
    }
  }

  lemma NoStrs()
    ensures EncodeStrs([]) == [] && ShortStrs([])
  {
  }

  lemma OneStr(s: Bytes, c: seq<Bytes>)
    requires |s| < U32_MOD && ShortStrs(c)
    ensures ShortStrs([s] + c) && EncodeStrs([s] + c) == U32(|s|) + s + EncodeStrs(c)
  {
    assert ([s] + c)[1..] == c;
  }

  // parse_req accepts exactly the encodings of the lists that fit, and returns
  // the list that was encoded.
  lemma ParseIsInverse(data: Bytes, c: seq<Bytes>)
    ensures Parse(data) == Some(c) <==> Fits(c) && data == EncodeReq(c)
  {
    hide U32, FromU32, EncodeStrs, ParseStrs;
    if Parse(data) == Some(c) {
      ParsedIsEncoding(data[4..], FromU32(data[..4]), []);
      FromU32RoundTrip(data[..4]);
      assert c[0..] == c && data == data[..4] + data[4..];
    }
    if Fits(c) && data == EncodeReq(c) {
      assert data[..4] == U32(|c|) && data[4..] == EncodeStrs(c);
      U32RoundTrip(|c|);
      ParseEncodeStrs(c, []);
      assert [] + c == c;
    }
  }

  // ----- Writing -----

  lemma {:induction false} EncodeStrsSnoc(c: seq<Bytes>, s: Bytes)
    ensures EncodeStrs(c + [s]) == EncodeStrs(c) + U32(|s|) + s
  {
    hide U32;
    if c == [] {
      assert [] + [s] == [s] && [s][1..] == [];
      assert EncodeStrs([s]) == U32(|s|) + s + [];
      assert U32(|s|) + s + [] == [] + U32(|s|) + s;
    } else {
      EncodeStrsSnoc(c[1..], s);
      assert (c + [s])[0] == c[0] && (c + [s])[1..] == c[1..] + [s];
      Regroup(U32(|c[0]|) + c[0], EncodeStrs(c[1..]), U32(|s|), s);
    }
  }

  lemma Regroup(h: Bytes, e: Bytes, n: Bytes, s: Bytes)
    ensures h + (e + n + s) == h + e + n + s
  {
  }

  // memcpy(&a[pos], b, |b|)
  method CopyAt(a: array<byte>, pos: nat, b: Bytes)
    requires pos + |b| <= a.Length
    modifies a
    ensures a[..pos] == old(a[..pos]) && a[pos..pos + |b|] == b
  {
    forall i | 0 <= i < |b| {
      a[pos + i] := b[i];
    }
  }

  // send_req, up to the bytes it hands to write_all.  The length fields are 32
  // bits wide and are taken not to overflow.
  method SendReq(cmd: seq<Bytes>) returns (r: Option<Bytes>)
    requires |EncodeReq(cmd)| < U32_MOD
    ensures r == if |EncodeReq(cmd)| > K_MAX_MSG then None else Some(U32(|EncodeReq(cmd)|) + EncodeReq(cmd))
  {
    hide U32;
    var len := 4;
    for i := 0 to |cmd|
      invariant len == 4 + |EncodeStrs(cmd[..i])|
    {
      EncodeStrsSnoc(cmd[..i], cmd[i]);
      assert cmd[..i + 1] == cmd[..i] + [cmd[i]];
      len := len + 4 + |cmd[i]|;
    }
    assert cmd[..|cmd|] == cmd;
    if len > K_MAX_MSG {
      return None;
    }
    var wbuf := FillFrame(cmd, len);
    r := Some(wbuf[..4 + len]);
  }

  method PutStr(a: array<byte>, pos: nat, s: Bytes)
    requires pos + 4 + |s| <= a.Length
    modifies a
    ensures a[..pos + 4 + |s|] == old(a[..pos]) + U32(|s|) + s
  {
    hide U32;
    CopyAt(a, pos, U32(|s|));
    CopyAt(a, pos + 4, s);
    var next := pos + 4 + |s|;
    assert a[..next] == a[..pos + 4] + a[pos + 4..next];
    assert a[..pos + 4] == a[..pos] + a[pos..pos + 4];
  }

  method FillFrame(cmd: seq<Bytes>, len: nat) returns (wbuf: array<byte>)
    requires len == |EncodeReq(cmd)| <= K_MAX_MSG
    ensures wbuf.Length >= 4 + len && wbuf[..4 + len] == U32(len) + EncodeReq(cmd)
  {
    hide U32;
    wbuf := new byte[4 + K_MAX_MSG];
    CopyAt(wbuf, 0, U32(len));
    CopyAt(wbuf, 4, U32(|cmd|));
    ghost var head := U32(len) + U32(|cmd|);
    assert wbuf[..8] == wbuf[..4] + wbuf[4..8] == head;
    var cur := 8;
    for i := 0 to |cmd|
      invariant cur == 8 + |EncodeStrs(cmd[..i])| <= 4 + len
      invariant wbuf[..cur] == head + EncodeStrs(cmd[..i])
    {
      PrefixFits(cmd, i);
      PutStr(wbuf, cur, cmd[i]);
      Regroup(head, EncodeStrs(cmd[..i]), U32(|cmd[i]|), cmd[i]);
      cur := cur + 4 + |cmd[i]|;
    }
    assert cmd[..|cmd|] == cmd;
    assert head + EncodeStrs(cmd) == U32(len) + (U32(|cmd|) + EncodeStrs(cmd));
  }

  lemma PrefixFits(cmd: seq<Bytes>, i: nat)
    requires i < |cmd|
    ensures EncodeStrs(cmd[..i + 1]) == EncodeStrs(cmd[..i]) + U32(|cmd[i]|) + cmd[i]
    ensures |EncodeStrs(cmd[..i + 1])| <= |EncodeStrs(cmd)|
  {
    EncodeStrsSnoc(cmd[..i], cmd[i]);
    assert cmd[..i + 1] == cmd[..i] + [cmd[i]];
    EncodeStrsLonger(cmd, i + 1);
  }

  lemma {:induction false} EncodeStrsLonger(c: seq<Bytes>, i: nat)
    requires i <= |c|
    ensures |EncodeStrs(c[..i])| <= |EncodeStrs(c)|
  {
    if i > 0 {
      EncodeStrsLonger(c[1..], i - 1);
      assert c[..i][1..] == c[1..][..i - 1];
    }
  }

  // What a client sends within the limit, the server reads back.
  lemma SentIsParsed(cmd: seq<Bytes>)
    requires |EncodeReq(cmd)| <= K_MAX_MSG
    ensures Parse(EncodeReq(cmd)) == Some(cmd)
  {
    CountBounded(cmd);
    ParseIsInverse(EncodeReq(cmd), cmd);
  }

  lemma {:induction false} CountBounded(c: seq<Bytes>)
    ensures 4 * |c| <= |EncodeStrs(c)|
    ensures forall i :: 0 <= i < |c| ==> |c[i]| <= |EncodeStrs(c)|
  {
    if c != [] {
      CountBounded(c[1..]);
      forall i | 0 <= i < |c| ensures |c[i]| <= |EncodeStrs(c)| {
        if i > 0 { assert c[i] == c[1..][i - 1]; }
      }
    }
  }
}
