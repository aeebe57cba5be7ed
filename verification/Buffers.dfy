// Byte buffers and response frames: lib/server/buffer.cpp, and
// response_begin/response_end of lib/server/response.cpp.

module Buffers {
  import opened Basics
  import opened Wire

  function Ascii(s: string): (r: Bytes)
    ensures |r| == |s| && forall i :: 0 <= i < |s| && s[i] as int < 128 ==> r[i] == s[i] as int
  {
    seq(|s|, i requires 0 <= i < |s| => (s[i] as int) % 256)
  }

  const ERR_UNKNOWN: nat := 1
  const ERR_TOO_BIG: nat := 2
  const ERR_BAD_TYP: nat := 3
  const ERR_BAD_ARG: nat := 4

  const TOO_BIG: Value := Err(ERR_TOO_BIG, Ascii("response is too big."))

  // What a response frame carries for a reply with this encoding.
  function Body(encoded: Bytes): Bytes {
    if |encoded| > K_MAX_MSG then Encode(TOO_BIG) else encoded
  }

  // The reply can be put on the wire: it fits the format, or is replaced since
  // it is too long.
  ghost predicate Deliverable(v: Value) {
    WellFormed(v) || |Encode(v)| > K_MAX_MSG
  }

  class Buffer {
    var data: Bytes

    constructor ()
      ensures data == []
    {
      data := [];
    }

    method Append(b: Bytes)
      modifies this
      ensures data == old(data) + b
    {
      data := data + b;
    }

    // buf_consume
    method Consume(n: nat)
      requires n <= |data|
      modifies this
      ensures old(data) == old(data)[..n] + data
    {
      data := data[n..];
    }

    method OutNil()
      modifies this
      ensures data == old(data) + Encode(Nil)
    {
      Append([TAG_NIL]);
    }

    // The length is cast to 32 bits.
    method OutStr(s: Bytes)
      modifies this
      ensures data == old(data) + [TAG_STR] + U32(|s| % U32_MOD) + s
      ensures |s| < U32_MOD ==> data == old(data) + Encode(Str(s))
    {
      hide Little, U32;
      ghost var was := data;
      Append([TAG_STR]);
      Append(U32(|s| % U32_MOD));
      Append(s);
      assert |s| < U32_MOD ==> data == was + ([TAG_STR] + U32(|s|) + s);
    }

    method OutInt(n: int)
      modifies this
      ensures data == old(data) + Encode(Int(n))
    {
      hide Little, I64;
      Append([TAG_INT]);
      Append(I64(n));
    }

    method OutDbl(bits: Bytes)
      requires |bits| == 8
      modifies this
      ensures data == old(data) + Encode(Dbl(bits))
    {
      Append([TAG_DBL]);
      Append(bits);
    }

    method OutErr(code: nat, msg: Bytes)
      requires code < U32_MOD && |msg| < U32_MOD
      modifies this
      ensures data == old(data) + Encode(Err(code, msg))
    {
      hide Little;
      Append([TAG_ERR]);
      Append(U32(code));
      Append(U32(|msg|));
      Append(msg);
    }

    // Only the header; the items follow.  The count is cast to 32 bits.
    method OutArr(n: nat)
      modifies this
      ensures data == old(data) + [TAG_ARR] + U32(n)
    {
      Append([TAG_ARR]);
      Append(U32(n));
    }

    // memcpy(&out[pos], &n, 4)
    method PatchU32(pos: nat, n: nat)
      requires pos + 4 <= |data|
      modifies this
      ensures data == old(data)[..pos] + U32(n) + old(data)[pos + 4..]
    {
      data := data[..pos] + U32(n) + data[pos + 4..];
    }

    method OutBeginArr() returns (ctx: nat)
      modifies this
      ensures ctx == |old(data)| + 1 && data == old(data) + [TAG_ARR] + U32(0)
    {
      Append([TAG_ARR]);
      Append(U32(0));
      ctx := |data| - 4;
    }

    // The count of an array begun at ctx becomes known.
    method OutEndArr(ctx: nat, n: nat, ghost before: Bytes, ghost items: seq<Value>)
      requires n == |items| && ctx == |before| + 1
      requires data == before + [TAG_ARR] + U32(0) + EncodeAll(items)
      modifies this
      ensures data == before + Encode(Arr(items))
    {
      assert data[ctx - 1] == TAG_ARR;
      ghost var was, e := data, EncodeAll(items);
      assert was[..ctx] == before + [TAG_ARR] && was[ctx + 4..] == e;
      PatchU32(ctx, n);
      Assoc4(before, [TAG_ARR], U32(n), e);
    }

    // response_begin: the frame's header, its length yet unknown.
    method ResponseBegin() returns (header: nat)
      modifies this
      ensures header == |old(data)| && data == old(data) + U32(0)
    {
      header := |data|;
      Append(U32(0));
    }

    // response_end: fill in the length; too long a reply is replaced.
    method ResponseEnd(header: nat, ghost before: Bytes, ghost reply: Bytes)
      requires header == |before| && data == before + U32(0) + reply
      modifies this
      ensures data == before + U32(|Body(reply)|) + Body(reply)
    {
      var size := |data| - header - 4;
      assert data[..header] == before && data[..header + 4] == before + U32(0) && data[header + 4..] == reply;
      if size > K_MAX_MSG {
        data := data[..header + 4];
        OutErr(ERR_TOO_BIG, Ascii("response is too big."));
        size := |data| - header - 4;
        assert data[..header] == before && data[header + 4..] == Encode(TOO_BIG);
      }
      PatchU32(header, size);
    }
  }

  lemma Assoc4(a: Bytes, b: Bytes, c: Bytes, d: Bytes)
    ensures a + b + c + d == a + (b + c + d)
  {
  }

  // What the client gets for a reply.
  function Delivered(v: Value): Value {
    if |Encode(v)| > K_MAX_MSG then TOO_BIG else v
  }

  // The body of a frame always fits, and the client reads exactly the body; what
  // it shows is the reply, or that it was too big.
  lemma BodyReadable(v: Value)
    requires Deliverable(v)
    ensures var b := Body(Encode(v));
      |b| <= K_MAX_MSG && NoWrap(b) && Consume(b) == |b| && b == Encode(Delivered(v)) && WellFormed(Delivered(v)) &&
      (Exact(v) ==> Shown(b) == Delivered(v))
  {
    hide Encode, Consume, NoWrap, Shown;
    var w := Delivered(v);
    TooBigIsShort();
    assert Body(Encode(v)) == Encode(w) && WellFormed(w);
    ConsumeEncode(w, []);
    assert Encode(w) + [] == Encode(w);
    ValueDoesNotWrap(w, Encode(w));
    if Exact(v) {
      ShownIsWritten(w, Encode(w));
    }
  }

  lemma TooBigIsShort()
    ensures WellFormed(TOO_BIG) && |Encode(TOO_BIG)| <= K_MAX_MSG
  {
  }
}
