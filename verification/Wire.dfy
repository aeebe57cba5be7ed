// The response format: lib/server/buffer.cpp writes it, print_response in
// lib/client/query.cpp reads it.

module Wire {
  import opened Basics

  const U32_MOD: nat := 0x1_0000_0000
  const I64_MOD: nat := 0x1_0000_0000_0000_0000
  const K_MAX_MSG: nat := 4096

  // ----- Fixed-size numbers, little endian -----

  function Little(n: nat, k: nat): (r: Bytes)
    ensures |r| == k
    decreases k
  {
    if k == 0 then [] else [n % 256] + Little(n / 256, k - 1)
  }

  function FromLittle(b: Bytes): nat {
    if b == [] then 0 else b[0] + 256 * FromLittle(b[1..])
  }

  function Pow256(k: nat): nat {
    if k == 0 then 1 else 256 * Pow256(k - 1)
  }

  lemma {:induction false} LittleRoundTrip(n: nat, k: nat)
    requires n < Pow256(k)
    ensures FromLittle(Little(n, k)) == n
    decreases k
  {
    if k > 0 {
      LittleRoundTrip(n / 256, k - 1);
      assert Little(n, k)[1..] == Little(n / 256, k - 1);
    }
  }

  lemma Digit(d: nat, m: nat)
    requires d < 256
    ensures (d + 256 * m) % 256 == d && (d + 256 * m) / 256 == m
  {
  }

  lemma {:induction false} FromLittleRoundTrip(b: Bytes)
    ensures FromLittle(b) < Pow256(|b|) && Little(FromLittle(b), |b|) == b
  {
    if b != [] {
      FromLittleRoundTrip(b[1..]);
      Digit(b[0], FromLittle(b[1..]));
      assert b == [b[0]] + b[1..];
    }
  }

  lemma Pow256Values()
    ensures Pow256(4) == U32_MOD && Pow256(8) == I64_MOD
  {
    assert Pow256(1) == 256 && Pow256(2) == 0x1_0000 && Pow256(3) == 0x100_0000 && Pow256(4) == U32_MOD;
    assert Pow256(5) == 256 * U32_MOD && Pow256(6) == 0x1_0000 * U32_MOD && Pow256(7) == 0x100_0000 * U32_MOD;
  }

  function U32(n: nat): (r: Bytes)
    ensures |r| == 4
  { Little(n, 4) }

  // The bytes of an int64_t: two's complement.
  function I64(n: int): (r: Bytes)
    ensures |r| == 8
  { Little(n % I64_MOD, 8) }

  function FromU32(b: Bytes): nat
    requires |b| == 4
  { FromLittle(b) }

  predicate InInt64(n: int) {
    -0x8000_0000_0000_0000 <= n < 0x8000_0000_0000_0000
  }

  // The int64_t in eight bytes.
  function FromI64(b: Bytes): int
    requires |b| == 8
  {
    var n := FromLittle(b);
    if n < I64_MOD / 2 then n else n - I64_MOD
  }

  // The low byte comes first, and what does not fit four bytes is cut off.
  lemma U32Bytes(n: nat)
    ensures U32(n) == [n % 256, n / 0x100 % 256, n / 0x1_0000 % 256, n / 0x100_0000 % 256]
  {
    assert Little(n / 0x100_0000, 1) == [n / 0x100_0000 % 256] + Little(n / 0x100_0000 / 256, 0);
    assert n / 256 / 256 == n / 0x1_0000 && n / 0x1_0000 / 256 == n / 0x100_0000;
  }

  // An int64_t, negative or not, is read back as it was written.
  lemma I64RoundTrip(n: int)
    requires InInt64(n)
    ensures FromI64(I64(n)) == n
  {
    Pow256Values();
    hide Pow256, Little, FromLittle;
    LittleRoundTrip(n % I64_MOD, 8);
  }

  lemma U32RoundTrip(n: nat)
    requires n < U32_MOD
    ensures FromU32(U32(n)) == n
  {
    Pow256Values();
    LittleRoundTrip(n, 4);
  }

  lemma FromU32RoundTrip(b: Bytes)
    requires |b| == 4
    ensures FromU32(b) < U32_MOD && U32(FromU32(b)) == b
  {
    Pow256Values();
    FromLittleRoundTrip(b);
  }

  // ----- Values -----

  // Dbl holds the eight bytes that represent the double.
  datatype Value =
    | Nil
    | Err(code: nat, msg: Bytes)
    | Str(s: Bytes)
    | Int(n: int)
    | Dbl(bits: Bytes)
    | Arr(items: seq<Value>)

  const TAG_NIL: byte := 0
  const TAG_ERR: byte := 1
  const TAG_STR: byte := 2
  const TAG_INT: byte := 3
  const TAG_DBL: byte := 4
  const TAG_ARR: byte := 5

  function Encode(v: Value): (r: Bytes)
    ensures |r| >= 1
    decreases v, 0
  {
    match v
    case Nil => [TAG_NIL]
    case Err(code, msg) => [TAG_ERR] + U32(code) + U32(|msg|) + msg
    case Str(s) => [TAG_STR] + U32(|s|) + s
    case Int(n) => [TAG_INT] + I64(n)
    case Dbl(bits) => [TAG_DBL] + bits
    case Arr(items) => [TAG_ARR] + U32(|items|) + EncodeAll(items)
  }

  function EncodeAll(vs: seq<Value>): (r: Bytes)
    ensures |r| >= |vs|
    decreases vs, 1
  {
    if vs == [] then [] else Encode(vs[0]) + EncodeAll(vs[1..])
  }

  // Lengths fit their fields.
  predicate WellFormed(v: Value)
    decreases v, 0
  {
    match v
    case Nil => true
    case Err(code, msg) => code < U32_MOD && |msg| < U32_MOD
    case Str(s) => |s| < U32_MOD
    case Int(n) => true
    case Dbl(bits) => |bits| == 8
    case Arr(items) => |items| < U32_MOD && forall v :: v in items ==> WellFormed(v)
  }

  // Numbers fit int64_t.
  predicate Exact(v: Value)
    decreases v, 0
  {
    match v
    case Int(n) => InInt64(n)
    case Arr(items) => forall v :: v in items ==> Exact(v)
    case _ => true
  }

  lemma {:induction false} EncodeAllConcat(a: seq<Value>, b: seq<Value>)
    ensures EncodeAll(a + b) == EncodeAll(a) + EncodeAll(b)
  {
    hide Encode;
    if a == [] {
      assert a + b == b;
    } else {
      EncodeAllConcat(a[1..], b);
      assert (a + b)[1..] == a[1..] + b && (a + b)[0] == a[0];
      Assoc(Encode(a[0]), EncodeAll(a[1..]), EncodeAll(b));
    }
  }

  lemma Assoc(a: Bytes, b: Bytes, c: Bytes)
    ensures a + b + c == a + (b + c)
  {
  }

  // ----- print_response -----

  // Unsigned 32-bit addition, and the conversion to int32_t.
  function Sum32(a: nat, b: nat): nat { (a + b) % U32_MOD }

  function Int32(n: nat): int {
    var m := n % U32_MOD;
    if m < 0x8000_0000 then m else m - U32_MOD
  }

  // What print_response returns: how many bytes the value at the front takes,
  // or a negative number.
  function Consume(d: Bytes): (r: int)
    ensures r <= |d|
    decreases |d|, 1, 0
  {
    if |d| < 1 then -1
    else if d[0] == TAG_NIL then 1
    else if d[0] == TAG_ERR then
      if |d| < 9 || |d| < Sum32(9, FromU32(d[5..9])) then -1 else Int32(Sum32(9, FromU32(d[5..9])))
    else if d[0] == TAG_STR then
      if |d| < 5 || |d| < Sum32(5, FromU32(d[1..5])) then -1 else Int32(Sum32(5, FromU32(d[1..5])))
    else if d[0] == TAG_INT || d[0] == TAG_DBL then
      if |d| < 9 then -1 else 9
    else if d[0] == TAG_ARR then
      if |d| < 5 then -1 else ConsumeAll(d, 5, FromU32(d[1..5]))
    else -1
  }

  // The loop over n array items, from pos on.
  function ConsumeAll(d: Bytes, pos: nat, n: nat): (r: int)
    requires 5 <= pos <= |d|
    ensures r <= |d|
    decreases |d|, 0, n
  {
    if n == 0 then Int32(pos)
    else
      var rv := Consume(d[pos..]);
      if rv < 0 then rv else ConsumeAll(d, pos + rv, n - 1)
  }

  // No length field that is read wraps around when the header is added to it.
  predicate NoWrap(d: Bytes)
    decreases |d|, 1, 0
  {
    if |d| >= 9 && d[0] == TAG_ERR then 9 + FromU32(d[5..9]) < U32_MOD
    else if |d| >= 5 && d[0] == TAG_STR then 5 + FromU32(d[1..5]) < U32_MOD
    else if |d| >= 5 && d[0] == TAG_ARR then NoWrapAll(d, 5, FromU32(d[1..5]))
    else true
  }

  predicate NoWrapAll(d: Bytes, pos: nat, n: nat)
    requires 5 <= pos <= |d|
    decreases |d|, 0, n
  {
    n == 0 || (NoWrap(d[pos..]) && (Consume(d[pos..]) >= 0 ==> NoWrapAll(d, pos + Consume(d[pos..]), n - 1)))
  }

  // What print_response shows for an input that it accepts, with the tags as
  // it knows them.
  function Shown(d: Bytes): Value
    requires |d| < 0x8000_0000 && NoWrap(d) && Consume(d) >= 0
    decreases |d|, 1, 0
  {
    if d[0] == 0 then Nil
    else if d[0] == 1 then Err(FromU32(d[1..5]), d[9..9 + FromU32(d[5..9])])
    else if d[0] == 2 then Str(d[5..5 + FromU32(d[1..5])])
    else if d[0] == 3 then Int(FromI64(d[1..9]))
    else if d[0] == 4 then Dbl(d[1..9])
    else Arr(ShownAll(d, 5, FromU32(d[1..5])))
  }

  function ShownAll(d: Bytes, pos: nat, n: nat): (r: seq<Value>)
    requires 5 <= pos <= |d| < 0x8000_0000 && NoWrapAll(d, pos, n) && ConsumeAll(d, pos, n) >= 0
    ensures |r| == n
    decreases |d|, 0, n
  {
    if n == 0 then [] else [Shown(d[pos..])] + ShownAll(d, pos + Consume(d[pos..]), n - 1)
  }

  // It prints while it reads; here what it has printed is a result.
  method PrintResponse(data: Bytes) returns (r: int, printed: Value)
    ensures r == Consume(data)
    ensures |data| < 0x8000_0000 && NoWrap(data) && r >= 0 ==> printed == Shown(data)
    decreases |data|, 1
  {
    printed := Nil;
    if |data| < 1 {
      return -1, Nil;
    }
    match data[0] {
      case 0 => return 1, Nil;
      case 1 =>
        if |data| < 9 {
          return -1, Nil;
        }
        var code, len := FromU32(data[1..5]), FromU32(data[5..9]);
        if |data| < Sum32(9, len) {
          return -1, Nil;
        }
        return Int32(Sum32(9, len)), Err(code, Text(data, 9, len));
      case 2 =>
        if |data| < 5 {
          return -1, Nil;
        }
        var len := FromU32(data[1..5]);
        if |data| < Sum32(5, len) {
          return -1, Nil;
        }
        return Int32(Sum32(5, len)), Str(Text(data, 5, len));
      case 3 =>
        if |data| < 9 {
          return -1, Nil;
        }
        return 9, Int(FromI64(data[1..9]));
      case 4 =>
        if |data| < 9 {
          return -1, Nil;
        }
        return 9, Dbl(data[1..9]);
      case 5 =>
        if |data| < 5 {
          return -1, Nil;
        }
        r, printed := PrintArray(data, FromU32(data[1..5]));
      case _ => return -1, Nil;
    }
  }

  // "%.*s"; a length that wraps around has no text to print.
  function Text(data: Bytes, pos: nat, len: nat): Bytes {
    if pos + len <= |data| then data[pos..pos + len] else []
  }

  method PrintArray(data: Bytes, len: nat) returns (r: int, printed: Value)
    requires |data| >= 5
    ensures r == ConsumeAll(data, 5, len)
    ensures |data| < 0x8000_0000 && NoWrapAll(data, 5, len) && r >= 0 ==> printed == Arr(ShownAll(data, 5, len))
    decreases |data|, 0
  {
    hide Consume, NoWrap, Shown;
    ghost var good := |data| < 0x8000_0000 && NoWrapAll(data, 5, len) && ConsumeAll(data, 5, len) >= 0;
    var arrBytes := 5;
    var items: seq<Value> := [];
    for i := 0 to len
      invariant 5 <= arrBytes <= |data|
      invariant ConsumeAll(data, 5, len) == ConsumeAll(data, arrBytes, len - i)
      invariant good ==> NoWrapAll(data, arrBytes, len - i)
      invariant good ==> items + ShownAll(data, arrBytes, len - i) == ShownAll(data, 5, len)
    {
      var rv, item := PrintResponse(data[arrBytes..]);
      if rv < 0 {
        return rv, Nil;
      }
      ghost var before := items;
      items := items + [item];
      if good {
        Assoc2(before, item, ShownAll(data, arrBytes + rv, len - i - 1));
      }
      arrBytes := arrBytes + rv;
    }
    r, printed := Int32(arrBytes), Arr(items);
  }

  lemma Assoc2(a: seq<Value>, x: Value, b: seq<Value>)
    ensures a + ([x] + b) == (a + [x]) + b
  {
  }

  // A value is read back with exactly its length, whatever follows it.
  lemma {:induction false} ConsumeEncode(v: Value, rest: Bytes)
    requires WellFormed(v) && |Encode(v)| < 0x8000_0000
    ensures Consume(Encode(v) + rest) == |Encode(v)|
    decreases v, 0, 0
  {
    hide Little, FromLittle, EncodeAll;
    var d := Encode(v) + rest;
    match v
    case Nil =>
    case Err(code, msg) =>
      assert d[5..9] == U32(|msg|);
      U32RoundTrip(|msg|);
    case Str(s) =>
      assert d[1..5] == U32(|s|);
      U32RoundTrip(|s|);
    case Int(n) =>
    case Dbl(bits) =>
    case Arr(items) =>
      assert d[1..5] == U32(|items|);
      U32RoundTrip(|items|);
      assert d[5..] == EncodeAll(items) + rest;
      hide FromU32, U32;
      ConsumeEncodeAll(d, 5, items, rest);
  }

  lemma {:induction false} ConsumeEncodeAll(d: Bytes, pos: nat, vs: seq<Value>, rest: Bytes)
    requires 5 <= pos <= |d| && d[pos..] == EncodeAll(vs) + rest && pos + |EncodeAll(vs)| < 0x8000_0000
    requires forall v :: v in vs ==> WellFormed(v)
    ensures ConsumeAll(d, pos, |vs|) == pos + |EncodeAll(vs)|
    decreases vs, 1, |vs|
  {
    hide Encode, Consume;
    if vs != [] {
      var e, es := Encode(vs[0]), EncodeAll(vs[1..]);
      Assoc(e, es, rest);
      ConsumeEncode(vs[0], es + rest);
      DropPrefix(d, pos, e, es + rest);
      ConsumeEncodeAll(d, pos + |e|, vs[1..], rest);
    }
  }

  lemma DropPrefix(d: Bytes, pos: nat, e: Bytes, tail: Bytes)
    requires pos <= |d| && d[pos..] == e + tail
    ensures pos + |e| <= |d| && d[pos + |e|..] == tail
  {
    assert d[pos + |e|..] == d[pos..][|e|..];
  }

  lemma TakeSlice(d: Bytes, k: nat, i: nat, j: nat)
    requires i <= j <= k <= |d|
    ensures d[..k][i..j] == d[i..j]
  {
  }

  // An incomplete value is refused.
  lemma {:induction false} ConsumeTruncated(v: Value, k: nat)
    requires WellFormed(v) && |Encode(v)| < 0x8000_0000 && k < |Encode(v)|
    ensures Consume(Encode(v)[..k]) < 0
    decreases v, 0, 0
  {
    hide Little, FromLittle, EncodeAll;
    var d := Encode(v)[..k];
    match v
    case Nil =>
    case Err(code, msg) =>
      if k >= 9 {
        TakeSlice(Encode(v), k, 5, 9);
        assert Encode(v)[5..9] == U32(|msg|);
        U32RoundTrip(|msg|);
      }
    case Str(s) =>
      if k >= 5 {
        TakeSlice(Encode(v), k, 1, 5);
        assert Encode(v)[1..5] == U32(|s|);
        U32RoundTrip(|s|);
      }
    case Int(n) =>
    case Dbl(bits) =>
    case Arr(items) =>
      if k >= 5 {
        TakeSlice(Encode(v), k, 1, 5);
        assert Encode(v)[1..5] == U32(|items|);
        U32RoundTrip(|items|);
        assert d[5..] == EncodeAll(items)[..k - 5];
        hide FromU32, U32;
        ConsumeTruncatedAll(d, 5, items, k - 5);
      }
  }

  lemma {:induction false} ConsumeTruncatedAll(d: Bytes, pos: nat, vs: seq<Value>, k: nat)
    requires k < |EncodeAll(vs)| && pos + |EncodeAll(vs)| < 0x8000_0000
    requires 5 <= pos <= |d| && d[pos..] == EncodeAll(vs)[..k]
    requires forall v :: v in vs ==> WellFormed(v)
    ensures ConsumeAll(d, pos, |vs|) < 0
    decreases vs, 1, |vs|
  {
    hide Encode, Consume;
    if vs != [] {
      var e, es := Encode(vs[0]), EncodeAll(vs[1..]);
      assert EncodeAll(vs) == e + es;
      if k < |e| {
        assert d[pos..] == e[..k];
        ConsumeTruncated(vs[0], k);
      } else {
        assert d[pos..] == e + es[..k - |e|];
        ConsumeEncode(vs[0], es[..k - |e|]);
        DropPrefix(d, pos, e, es[..k - |e|]);
        ConsumeTruncatedAll(d, pos + |e|, vs[1..], k - |e|);
      }
    }
  }

  // ----- What print_response accepts -----

  // v is the value at the front of d.
  ghost predicate Starts(v: Value, d: Bytes) {
    WellFormed(v) && Encode(v) <= d
  }

  // As long as no length wraps, what is accepted is a value, exactly its bytes
  // are taken, and it is what is shown.
  lemma {:induction false} AcceptedIsValue(d: Bytes)
    requires |d| < 0x8000_0000 && NoWrap(d) && Consume(d) >= 0
    ensures var v := Shown(d); Starts(v, d) && Exact(v) && |Encode(v)| == Consume(d)
    decreases |d|, 1, 0
  {
    hide Little, FromLittle, FromI64, EncodeAll, WellFormed;
    if d[0] == TAG_NIL {
      NilStarts(d);
    } else if d[0] == TAG_ERR {
      ErrStarts(d);
    } else if d[0] == TAG_STR {
      StrStarts(d);
    } else if d[0] == TAG_INT {
      IntStarts(d);
    } else if d[0] == TAG_DBL {
      DblStarts(d);
    } else {
      AcceptedAll(d, 5, FromU32(d[1..5]));
      ArrStarts(d, ShownAll(d, 5, FromU32(d[1..5])));
    }
  }

  lemma NilStarts(d: Bytes)
    requires |d| >= 1 && d[0] == TAG_NIL
    ensures Starts(Nil, d)
  {
  }

  lemma ErrStarts(d: Bytes)
    requires |d| >= 9 && d[0] == TAG_ERR && 9 + FromU32(d[5..9]) <= |d| < 0x8000_0000
    ensures var v := Err(FromU32(d[1..5]), d[9..9 + FromU32(d[5..9])]);
      Starts(v, d) && |Encode(v)| == 9 + FromU32(d[5..9])
  {
    hide Little, FromLittle;
    var n := 9 + FromU32(d[5..9]);
    FromU32RoundTrip(d[1..5]);
    FromU32RoundTrip(d[5..9]);
    assert d[..n] == [d[0]] + d[1..5] + d[5..9] + d[9..n];
  }

  lemma StrStarts(d: Bytes)
    requires |d| >= 5 && d[0] == TAG_STR && 5 + FromU32(d[1..5]) <= |d| < 0x8000_0000
    ensures var v := Str(d[5..5 + FromU32(d[1..5])]); Starts(v, d) && |Encode(v)| == 5 + FromU32(d[1..5])
  {
    hide Little, FromLittle;
    var n := 5 + FromU32(d[1..5]);
    FromU32RoundTrip(d[1..5]);
    assert d[..n] == [d[0]] + d[1..5] + d[5..n];
  }

  lemma IntStarts(d: Bytes)
    requires |d| >= 9 && d[0] == TAG_INT
    ensures var v := Int(FromI64(d[1..9])); Starts(v, d) && Exact(v) && |Encode(v)| == 9
  {
    hide Little, FromLittle, I64;
    I64Covers(d[1..9]);
    assert d[..9] == [d[0]] + d[1..9];
  }

  lemma I64Covers(b: Bytes)
    requires |b| == 8
    ensures I64(FromI64(b)) == b && InInt64(FromI64(b))
  {
    hide Little, FromLittle, Pow256;
    Pow256Values();
    FromLittleRoundTrip(b);
  }

  lemma DblStarts(d: Bytes)
    requires |d| >= 9 && d[0] == TAG_DBL
    ensures Starts(Dbl(d[1..9]), d) && |Encode(Dbl(d[1..9]))| == 9
  {
    assert d[..9] == [d[0]] + d[1..9];
  }

  lemma ArrStarts(d: Bytes, vs: seq<Value>)
    requires |d| >= 5 && d[0] == TAG_ARR && |vs| == FromU32(d[1..5])
    requires (forall v :: v in vs ==> WellFormed(v)) && EncodeAll(vs) <= d[5..]
    ensures Starts(Arr(vs), d) && |Encode(Arr(vs))| == 5 + |EncodeAll(vs)|
  {
    hide Little, FromLittle, EncodeAll;
    FromU32RoundTrip(d[1..5]);
    var n := 5 + |EncodeAll(vs)|;
    assert d[5..][..n - 5] == d[5..n];
    assert d[..n] == [d[0]] + d[1..5] + d[5..n];
  }

  lemma {:induction false} AcceptedAll(d: Bytes, pos: nat, n: nat)
    requires 5 <= pos <= |d| < 0x8000_0000 && NoWrapAll(d, pos, n) && ConsumeAll(d, pos, n) >= 0
    ensures var vs := ShownAll(d, pos, n);
      (forall v :: v in vs ==> WellFormed(v) && Exact(v)) && EncodeAll(vs) <= d[pos..] &&
      pos + |EncodeAll(vs)| == ConsumeAll(d, pos, n)
    decreases |d|, 0, n
  {
    hide Encode, Consume, NoWrap, WellFormed, Shown, Exact;
    if n > 0 {
      AcceptedIsValue(d[pos..]);
      var k := Consume(d[pos..]);
      AcceptedAll(d, pos + k, n - 1);
      var v, rest := Shown(d[pos..]), ShownAll(d, pos + k, n - 1);
      PrefixesJoin(d, pos, Encode(v), EncodeAll(rest));
      assert ShownAll(d, pos, n)[1..] == rest;
    }
  }

  lemma PrefixesJoin(d: Bytes, pos: nat, a: Bytes, b: Bytes)
    requires pos <= |d| && a <= d[pos..] && b <= d[pos + |a|..]
    ensures a + b <= d[pos..]
  {
    assert d[pos..] == a + d[pos + |a|..];
  }

  lemma {:induction false} ValueDoesNotWrap(v: Value, d: Bytes)
    requires Starts(v, d) && |d| < 0x8000_0000
    ensures NoWrap(d)
    decreases v, 0, 0
  {
    hide Little, FromLittle, EncodeAll;
    var e := Encode(v);
    assert d[..|e|] == e;
    match v
    case Nil =>
    case Err(code, msg) =>
      assert d[5..9] == U32(|msg|);
      U32RoundTrip(|msg|);
    case Str(s) =>
      assert d[1..5] == U32(|s|);
      U32RoundTrip(|s|);
    case Int(n) =>
    case Dbl(bits) =>
    case Arr(items) =>
      assert d[1..5] == U32(|items|);
      U32RoundTrip(|items|);
      assert d[5..] == EncodeAll(items) + d[|e|..];
      hide FromU32, U32, Consume;
      ValuesDoNotWrap(d, 5, items, d[|e|..]);
  }

  lemma {:induction false} ValuesDoNotWrap(d: Bytes, pos: nat, vs: seq<Value>, rest: Bytes)
    requires 5 <= pos <= |d| < 0x8000_0000 && d[pos..] == EncodeAll(vs) + rest
    requires forall v :: v in vs ==> WellFormed(v)
    ensures NoWrapAll(d, pos, |vs|)
    decreases vs, 1, |vs|
  {
    hide Encode, Consume, NoWrap, WellFormed;
    if vs != [] {
      var e, es := Encode(vs[0]), EncodeAll(vs[1..]);
      Assoc(e, es, rest);
      assert e + (es + rest) == d[pos..];
      ValueDoesNotWrap(vs[0], d[pos..]);
      ConsumeEncode(vs[0], es + rest);
      DropPrefix(d, pos, e, es + rest);
      ValuesDoNotWrap(d, pos + |e|, vs[1..], rest);
    }
  }

  // print_response returns the length of the value at the front, and no other
  // input is accepted, if and only if no length it reads wraps around.
  lemma AcceptsExactlyValues(d: Bytes)
    requires |d| < 0x8000_0000
    ensures (exists v :: Starts(v, d)) <==> Consume(d) >= 0 && NoWrap(d)
    ensures forall v :: Starts(v, d) ==> Consume(d) == |Encode(v)|
  {
    hide Encode, WellFormed, Consume, NoWrap, Shown, Exact;
    if Consume(d) >= 0 && NoWrap(d) {
      AcceptedIsValue(d);
    }
    forall v | Starts(v, d) ensures Consume(d) == |Encode(v)| && Consume(d) >= 0 && NoWrap(d) {
      ValueDoesNotWrap(v, d);
      assert d == Encode(v) + d[|Encode(v)|..];
      ConsumeEncode(v, d[|Encode(v)|..]);
    }
  }

  // The value that is shown is the one that was written, whatever follows it.
  lemma {:induction false} ShownIsWritten(v: Value, d: Bytes)
    requires Starts(v, d) && Exact(v) && |d| < 0x8000_0000
    ensures NoWrap(d) && Consume(d) == |Encode(v)| && Shown(d) == v
    decreases v, 0, 0
  {
    hide Little, FromLittle, EncodeAll, I64, FromI64;
    ValueDoesNotWrap(v, d);
    AcceptsExactlyValues(d);
    var e := Encode(v);
    assert d[..|e|] == e;
    match v
    case Nil =>
    case Err(code, msg) =>
      assert d[1..5] == U32(code) && d[5..9] == U32(|msg|);
      U32RoundTrip(code);
      U32RoundTrip(|msg|);
    case Str(s) =>
      assert d[1..5] == U32(|s|);
      U32RoundTrip(|s|);
    case Int(n) =>
      assert d[1..9] == I64(n);
      I64RoundTrip(n);
    case Dbl(bits) =>
    case Arr(items) =>
      assert d[1..5] == U32(|items|);
      U32RoundTrip(|items|);
      assert d[5..] == EncodeAll(items) + d[|e|..];
      hide FromU32, U32, Consume;
      ShownAreWritten(d, 5, items, d[|e|..]);
  }

  lemma {:induction false} ShownAreWritten(d: Bytes, pos: nat, vs: seq<Value>, rest: Bytes)
    requires 5 <= pos <= |d| < 0x8000_0000 && d[pos..] == EncodeAll(vs) + rest
    requires NoWrapAll(d, pos, |vs|) && ConsumeAll(d, pos, |vs|) >= 0
    requires forall v :: v in vs ==> WellFormed(v) && Exact(v)
    ensures ShownAll(d, pos, |vs|) == vs
    decreases vs, 1, |vs|
  {
    hide Encode, Consume, NoWrap, WellFormed, Exact, Shown;
    if vs != [] {
      var e, es := Encode(vs[0]), EncodeAll(vs[1..]);
      Assoc(e, es, rest);
      assert e + (es + rest) == d[pos..];
      ShownIsWritten(vs[0], d[pos..]);
      DropPrefix(d, pos, e, es + rest);
      ShownAreWritten(d, pos + |e|, vs[1..], rest);
    }
  }

  // Five bytes that are no value, accepted with length 0 since 5 + len wraps.
  lemma WrappedLength()
    ensures var d: Bytes := [TAG_STR, 0xFB, 0xFF, 0xFF, 0xFF];
      Consume(d) == 0 && !NoWrap(d) && !exists v :: Starts(v, d)
  {
    var d: Bytes := [TAG_STR, 0xFB, 0xFF, 0xFF, 0xFF];
    var b := d[1..5];
    assert b == [0xFB, 0xFF, 0xFF, 0xFF] && b[1..] == [0xFF, 0xFF, 0xFF] && b[1..][1..] == [0xFF, 0xFF];
    assert b[1..][1..][1..] == [0xFF] && b[1..][1..][1..][1..] == [];
    assert FromLittle([0xFF]) == 0xFF && FromLittle([0xFF, 0xFF]) == 0xFFFF;
    assert FromLittle(b) == 0xFFFF_FFFB;
    AcceptsExactlyValues(d);
  }
}
