// What the commands of lib/server/key_value.cpp do and answer, on a plain map
// from keys to items.  Number parsing and the bytes of a double are parameters.

module Commands {
  import opened Basics
  import opened Seqs
  import opened Order
  import opened Wire
  import opened Buffers

  datatype Datum = Plain(s: Bytes) | Scores(scores: map<Bytes, real>)

  // expire is the time after which the timers remove the key.
  datatype Item = Item(datum: Datum, expire: Option<nat>)

  type Db = map<Bytes, Item>

  type Bits = b: Bytes | |b| == 8 witness [0, 0, 0, 0, 0, 0, 0, 0]

  // str2dbl, str2int, and the eight bytes that represent a double.
  datatype Numbers = Numbers(str2dbl: Bytes -> Option<real>, str2int: Bytes -> Option<int64>, bits: real -> Bits)

  datatype Op =
    | Get(key: Bytes)
    | Set(key: Bytes, s: Bytes)
    | Del(key: Bytes)
    | PExpire(key: Bytes, ttl: Bytes)
    | PTtl(key: Bytes)
    | Keys
    | ZAdd(key: Bytes, score: Bytes, name: Bytes)
    | ZRem(key: Bytes, name: Bytes)
    | ZScore(key: Bytes, name: Bytes)
    | ZQuery(key: Bytes, score: Bytes, name: Bytes, offset: Bytes, limit: Bytes)
    | Unknown

  // The branches of do_request.
  function OpOf(cmd: seq<Bytes>): Op {
    if |cmd| == 2 && cmd[0] == Ascii("get") then Get(cmd[1])
    else if |cmd| == 3 && cmd[0] == Ascii("set") then Set(cmd[1], cmd[2])
    else if |cmd| == 2 && cmd[0] == Ascii("del") then Del(cmd[1])
    else if |cmd| == 3 && cmd[0] == Ascii("pexpire") then PExpire(cmd[1], cmd[2])
    else if |cmd| == 2 && cmd[0] == Ascii("pttl") then PTtl(cmd[1])
    else if |cmd| == 1 && cmd[0] == Ascii("keys") then Keys
    else if |cmd| == 4 && cmd[0] == Ascii("zadd") then ZAdd(cmd[1], cmd[2], cmd[3])
    else if |cmd| == 3 && cmd[0] == Ascii("zrem") then ZRem(cmd[1], cmd[2])
    else if |cmd| == 3 && cmd[0] == Ascii("zscore") then ZScore(cmd[1], cmd[2])
    else if |cmd| == 6 && cmd[0] == Ascii("zquery") then ZQuery(cmd[1], cmd[2], cmd[3], cmd[4], cmd[5])
    else Unknown
  }

  // ----- What a command does -----

  // A string keeps its deadline when it is overwritten.
  ghost function AfterSet(m: Db, key: Bytes, s: Bytes): Db {
    if key !in m then m[key := Item(Plain(s), None)]
    else if m[key].datum.Scores? then m
    else m[key := Item(Plain(s), m[key].expire)]
  }

  // A negative time to live removes the deadline.
  ghost function AfterExpire(m: Db, key: Bytes, ttl: int, now: nat): Db {
    if key !in m then m
    else m[key := Item(m[key].datum, if ttl < 0 then None else Some(now + ttl))]
  }

  ghost function AfterZAdd(m: Db, key: Bytes, score: real, name: Bytes): Db {
    if key !in m then m[key := Item(Scores(map[name := score]), None)]
    else if m[key].datum.Plain? then m
    else m[key := Item(Scores(m[key].datum.scores[name := score]), m[key].expire)]
  }

  // A set that becomes empty keeps its key.
  ghost function AfterZRem(m: Db, key: Bytes, name: Bytes): Db {
    if key !in m || m[key].datum.Plain? then m
    else m[key := Item(Scores(m[key].datum.scores - {name}), m[key].expire)]
  }

  ghost function Effect(m: Db, op: Op, now: nat, num: Numbers): Db {
    match op
    case Set(key, s) => AfterSet(m, key, s)
    case Del(key) => m - {key}
    case PExpire(key, ttl) =>
      if num.str2int(ttl).None? then m else AfterExpire(m, key, num.str2int(ttl).value as int, now)
    case ZAdd(key, score, name) =>
      if num.str2dbl(score).None? then m else AfterZAdd(m, key, num.str2dbl(score).value, name)
    case ZRem(key, name) => AfterZRem(m, key, name)
    case _ => m
  }

  // ----- What a command answers -----

  function BadType(msg: string): Value { Err(ERR_BAD_TYP, Ascii(msg)) }

  function BadArg(msg: string): Value { Err(ERR_BAD_ARG, Ascii(msg)) }

  function Flag(b: bool): Value { Int(if b then 1 else 0) }

  // A missing key answers like an empty set.
  ghost predicate WrongType(m: Db, key: Bytes) {
    key in m && m[key].datum.Plain?
  }

  ghost function ScoresOf(m: Db, key: Bytes): map<Bytes, real> {
    if key in m && m[key].datum.Scores? then m[key].datum.scores else map[]
  }

  ghost function ReplyGet(m: Db, key: Bytes): Value {
    if key !in m then Nil
    else if m[key].datum.Scores? then BadType("not a string value")
    else Str(m[key].datum.s)
  }

  ghost function ReplySet(m: Db, key: Bytes): Value {
    if key in m && m[key].datum.Scores? then BadType("a non-string value exists") else Nil
  }

  ghost function ReplyExpire(m: Db, key: Bytes, ttl: Option<int64>): Value {
    if ttl.None? then BadArg("expect int64") else Flag(key in m)
  }

  ghost function ReplyTtl(m: Db, key: Bytes, now: nat): Value {
    if key !in m then Int(-2)
    else match m[key].expire
      case None => Int(-1)
      case Some(t) => Int(if t > now then t - now else 0)
  }

  ghost function ReplyZAdd(m: Db, key: Bytes, score: Option<real>, name: Bytes): Value {
    if score.None? then BadArg("expect float")
    else if WrongType(m, key) then BadType("expect zset")
    else Flag(name !in ScoresOf(m, key))
  }

  ghost function ReplyZRem(m: Db, key: Bytes, name: Bytes): Value {
    if WrongType(m, key) then BadType("expect zset") else Flag(name in ScoresOf(m, key))
  }

  ghost function ReplyZScore(m: Db, key: Bytes, name: Bytes, num: Numbers): Value {
    if WrongType(m, key) then BadType("expect zset")
    else if name in ScoresOf(m, key) then Dbl(num.bits(ScoresOf(m, key)[name]))
    else Nil
  }

  function StrsOf(keys: seq<Bytes>): (r: seq<Value>)
    ensures |r| == |keys|
  {
    if keys == [] then [] else StrsOf(keys[..|keys| - 1]) + [Str(keys[|keys| - 1])]
  }

  // Each key once, in any order.
  ghost predicate AnswersKeys(m: Db, v: Value) {
    exists keys :: NoDup(keys) && Elems(keys) == m.Keys && v == Arr(StrsOf(keys))
  }

  // Name and score of each pair, in turn.
  function PairValues(s: seq<Pair>, num: Numbers): (r: seq<Value>)
    ensures |r| == 2 * |s|
  {
    if s == [] then []
    else PairValues(s[..|s| - 1], num) + [Str(s[|s| - 1].name), Dbl(num.bits(s[|s| - 1].score))]
  }

  // s lists the map in order; by DictDetermines there is only one such list.
  ghost predicate Lists(s: seq<Pair>, c: map<Bytes, real>) {
    Sorted(s) && UniqueNames(s) && Dict(s) == c
  }

  ghost predicate AnswersZQuery(m: Db, op: Op, v: Value, num: Numbers)
    requires op.ZQuery?
  {
    var score, offset, limit := num.str2dbl(op.score), num.str2int(op.offset), num.str2int(op.limit);
    if score.None? then v == BadArg("expect fp number")
    else if offset.None? || limit.None? then v == BadArg("expect int")
    else if WrongType(m, op.key) then v == BadType("expect zset")
    else exists s: seq<Pair> ::
      Lists(s, ScoresOf(m, op.key)) &&
      v == Arr(PairValues(Slice(s, Pair(score.value, op.name), offset.value as int, limit.value as int), num))
  }

  ghost predicate Answers(m: Db, op: Op, now: nat, num: Numbers, v: Value) {
    match op
    case Get(key) => v == ReplyGet(m, key)
    case Set(key, _) => v == ReplySet(m, key)
    case Del(key) => v == Flag(key in m)
    case PExpire(key, ttl) => v == ReplyExpire(m, key, num.str2int(ttl))
    case PTtl(key) => v == ReplyTtl(m, key, now)
    case Keys => AnswersKeys(m, v)
    case ZAdd(key, score, name) => v == ReplyZAdd(m, key, num.str2dbl(score), name)
    case ZRem(key, name) => v == ReplyZRem(m, key, name)
    case ZScore(key, name) => v == ReplyZScore(m, key, name, num)
    case ZQuery(_, _, _, _, _) => AnswersZQuery(m, op, v, num)
    case Unknown => v == Err(ERR_UNKNOWN, Ascii("unknown command."))
  }

  // ----- Sizes -----

  // All stored strings came from requests, so their lengths fit 32 bits.
  ghost predicate Short(d: Datum) {
    match d
    case Plain(s) => |s| < U32_MOD
    case Scores(c) => forall n :: n in c ==> |n| < U32_MOD
  }

  ghost predicate ShortDb(m: Db) {
    forall k :: k in m ==> |k| < U32_MOD && Short(m[k].datum)
  }

  predicate ShortOp(op: Op) {
    match op
    case Set(key, s) => |key| < U32_MOD && |s| < U32_MOD
    case ZAdd(key, _, name) => |key| < U32_MOD && |name| < U32_MOD
    case _ => true
  }

  // Each node of a sorted set counts the nodes below it in 32 bits.
  ghost predicate Countable(d: Datum) {
    d.Scores? ==> |d.scores| < U32_MOD
  }

  ghost predicate Counted(m: Db) {
    forall k :: k in m ==> Countable(m[k].datum)
  }

  // The counts in replies fit 32 bits.
  ghost predicate Few(m: Db) {
    |m| < U32_MOD && forall k :: k in m && m[k].datum.Scores? ==> 2 * |m[k].datum.scores| < U32_MOD
  }

  lemma EffectShort(m: Db, op: Op, now: nat, num: Numbers)
    requires ShortDb(m) && ShortOp(op)
    ensures ShortDb(Effect(m, op, now, num))
  {
  }

  lemma {:induction false} StrsOfAre(keys: seq<Bytes>)
    ensures forall i :: 0 <= i < |keys| ==> StrsOf(keys)[i] == Str(keys[i])
  {
    if keys != [] { StrsOfAre(keys[..|keys| - 1]); }
  }

  lemma {:induction false} PairValuesWellFormed(s: seq<Pair>, num: Numbers)
    requires forall p :: p in s ==> |p.name| < U32_MOD
    ensures forall v :: v in PairValues(s, num) ==> WellFormed(v)
  {
    if s != [] { PairValuesWellFormed(s[..|s| - 1], num); }
  }

  lemma SlicePart(s: seq<Pair>, key: Pair, offset: int, limit: int)
    ensures |Slice(s, key, offset, limit)| <= |s|
    ensures forall p :: p in Slice(s, key, offset, limit) ==> p in s
  {
  }

  // What a range query emits fits the format, but for the count.
  lemma ShortNames(m: Db, key: Bytes, all: seq<Pair>, k: Pair, offset: int, limit: int)
    requires ShortDb(m) && Lists(all, ScoresOf(m, key))
    ensures var pairs := Slice(all, k, offset, limit);
      (Few(m) ==> 2 * |pairs| < U32_MOD) && (limit <= 0 ==> pairs == []) &&
      forall p :: p in pairs ==> |p.name| < U32_MOD
  {
    SlicePart(all, k, offset, limit);
    DictHas(all);
    DictSize(all);
    hide Dict, Sorted, RankOfKey;
    forall p | p in all ensures |p.name| < U32_MOD {
      var i :| 0 <= i < |all| && all[i] == p;
      assert p.name in ScoresOf(m, key);
    }
  }

  // Whatever is answered can be put on the wire; only counts of 2^32 and more
  // do not fit, and come with a reply that is too long.
  lemma AnswersWellFormed(m: Db, op: Op, now: nat, num: Numbers, v: Value)
    requires Answers(m, op, now, num, v) && ShortDb(m)
    ensures Deliverable(v) && (Few(m) ==> WellFormed(v))
  {
    hide AnswersKeys, AnswersZQuery, Encode;
    match op
    case Keys => KeysWellFormed(m, v);
    case ZQuery(_, _, _, _, _) => QueryWellFormed(m, op, num, v);
    case _ =>
  }

  lemma KeysWellFormed(m: Db, v: Value)
    requires AnswersKeys(m, v) && ShortDb(m)
    ensures Deliverable(v) && (Few(m) ==> WellFormed(v))
  {
    hide StrsOf, ShortDb, Encode;
    var keys :| NoDup(keys) && Elems(keys) == m.Keys && v == Arr(StrsOf(keys));
    NoDupSize(keys);
    StrsOfAre(keys);
    assert |m| == |m.Keys|;
    ManyAreLong(StrsOf(keys));
    KeysFit(m, keys);
  }

  lemma KeysFit(m: Db, keys: seq<Bytes>)
    requires Elems(keys) == m.Keys && ShortDb(m)
    ensures forall w :: w in StrsOf(keys) ==> WellFormed(w)
  {
    StrsOfAre(keys);
    hide StrsOf;
    forall w | w in StrsOf(keys) ensures WellFormed(w) {
      var i :| 0 <= i < |keys| && StrsOf(keys)[i] == w;
      assert keys[i] in Elems(keys);
    }
  }

  lemma ManyAreLong(vs: seq<Value>)
    ensures |vs| >= U32_MOD ==> |Encode(Arr(vs))| > K_MAX_MSG
  {
    EncodeAllLong(vs);
    hide EncodeAll;
  }

  lemma {:induction false} EncodeAllLong(vs: seq<Value>)
    ensures |EncodeAll(vs)| >= |vs|
  {
    if vs != [] {
      EncodeAllLong(vs[1..]);
      assert |Encode(vs[0])| >= 1;
    }
  }

  lemma QueryWellFormed(m: Db, op: Op, num: Numbers, v: Value)
    requires op.ZQuery? && AnswersZQuery(m, op, v, num) && ShortDb(m)
    ensures Deliverable(v) && (Few(m) ==> WellFormed(v))
  {
    hide Slice, Lists, PairValues, ShortDb, Few, Encode;
    var score, offset, limit := num.str2dbl(op.score), num.str2int(op.offset), num.str2int(op.limit);
    if score.Some? && offset.Some? && limit.Some? && !WrongType(m, op.key) {
      var key := Pair(score.value, op.name);
      var s: seq<Pair> :|
        Lists(s, ScoresOf(m, op.key)) &&
        v == Arr(PairValues(Slice(s, key, offset.value as int, limit.value as int), num));
      ShortNames(m, op.key, s, key, offset.value as int, limit.value as int);
      PairValuesWellFormed(Slice(s, key, offset.value as int, limit.value as int), num);
      ManyAreLong(PairValues(Slice(s, key, offset.value as int, limit.value as int), num));
    }
  }

  // ----- The commands by name -----

  // Each command is told by its name and its length, with its arguments in
  // this order; whatever is none of them is Unknown.
  lemma OpOfIs(cmd: seq<Bytes>, a: Bytes, b: Bytes, c: Bytes, d: Bytes, e: Bytes)
    ensures OpOf(cmd) == Get(a) <==> cmd == [Ascii("get"), a]
    ensures OpOf(cmd) == Set(a, b) <==> cmd == [Ascii("set"), a, b]
    ensures OpOf(cmd) == Del(a) <==> cmd == [Ascii("del"), a]
    ensures OpOf(cmd) == PExpire(a, b) <==> cmd == [Ascii("pexpire"), a, b]
    ensures OpOf(cmd) == PTtl(a) <==> cmd == [Ascii("pttl"), a]
    ensures OpOf(cmd) == Keys <==> cmd == [Ascii("keys")]
    ensures OpOf(cmd) == ZAdd(a, b, c) <==> cmd == [Ascii("zadd"), a, b, c]
    ensures OpOf(cmd) == ZRem(a, b) <==> cmd == [Ascii("zrem"), a, b]
    ensures OpOf(cmd) == ZScore(a, b) <==> cmd == [Ascii("zscore"), a, b]
    ensures OpOf(cmd) == ZQuery(a, b, c, d, e) <==> cmd == [Ascii("zquery"), a, b, c, d, e]
  {
    assert Ascii("get")[0] == 103 && Ascii("del")[0] == 100;
  }

  // ----- What is written is read -----

  ghost function KeyOf(op: Op): Option<Bytes> {
    match op
    case Keys => None
    case Unknown => None
    case _ => Some(op.key)
  }

  // A command touches its own key only, and only five commands touch any.
  lemma OthersKept(m: Db, op: Op, now: nat, num: Numbers, key: Bytes)
    ensures var t := Effect(m, op, now, num);
      (KeyOf(op) != Some(key) ==> (key in t <==> key in m) && (key in m ==> t[key] == m[key])) &&
      (!op.Set? && !op.Del? && !op.PExpire? && !op.ZAdd? && !op.ZRem? ==> t == m)
  {
  }

  lemma SetIsRead(m: Db, key: Bytes, s: Bytes, now: nat, num: Numbers)
    ensures var t := Effect(m, Set(key, s), now, num);
      if ReplySet(m, key) == Nil then ReplyGet(t, key) == Str(s) && ReplyTtl(t, key, now) ==
        if key in m then ReplyTtl(m, key, now) else Int(-1)
      else t == m
  {
  }

  lemma DelIsRead(m: Db, key: Bytes, now: nat, num: Numbers)
    ensures var t := Effect(m, Del(key), now, num);
      ReplyGet(t, key) == Nil && ReplyTtl(t, key, now) == Int(-2) && ScoresOf(t, key) == map[]
  {
  }

  // The time to live that is left later, or none if it was negative.
  lemma ExpireIsRead(m: Db, key: Bytes, ttl: Bytes, now: nat, later: nat, num: Numbers)
    requires num.str2int(ttl).Some? && key in m && now <= later
    ensures var t, n := Effect(m, PExpire(key, ttl), now, num), num.str2int(ttl).value as int;
      key in t && t[key].datum == m[key].datum &&
      ReplyTtl(t, key, later) == Int(if n < 0 then -1 else if n > later - now then n - (later - now) else 0)
  {
  }

  lemma ZAddIsRead(m: Db, key: Bytes, score: Bytes, name: Bytes, other: Bytes, now: nat, num: Numbers)
    requires num.str2dbl(score).Some? && !WrongType(m, key)
    ensures var t := Effect(m, ZAdd(key, score, name), now, num);
      ReplyZScore(t, key, name, num) == Dbl(num.bits(num.str2dbl(score).value)) &&
      (other != name ==> ReplyZScore(t, key, other, num) == ReplyZScore(m, key, other, num)) &&
      (key in m ==> t[key].expire == m[key].expire)
  {
  }

  lemma ZRemIsRead(m: Db, key: Bytes, name: Bytes, other: Bytes, now: nat, num: Numbers)
    requires !WrongType(m, key)
    ensures var t := Effect(m, ZRem(key, name), now, num);
      ReplyZScore(t, key, name, num) == Nil && ReplyZRem(t, key, name) == Int(0) &&
      (other != name ==> ReplyZScore(t, key, other, num) == ReplyZScore(m, key, other, num)) &&
      (key in t <==> key in m) && (key in m ==> t[key].expire == m[key].expire)
  {
  }

  lemma {:induction false} PairValuesAre(s: seq<Pair>, num: Numbers)
    ensures forall i :: 0 <= i < |s| ==>
      PairValues(s, num)[2 * i] == Str(s[i].name) && PairValues(s, num)[2 * i + 1] == Dbl(num.bits(s[i].score))
  {
    if s != [] { PairValuesAre(s[..|s| - 1], num); }
  }

  // A range query, place by place: s is the set in order, of which the first k
  // pairs precede the key.
  lemma QueryIs(m: Db, op: Op, num: Numbers, v: Value, s: seq<Pair>, k: nat)
    requires op.ZQuery? && AnswersZQuery(m, op, v, num) && !WrongType(m, op.key) && Lists(s, ScoresOf(m, op.key))
    requires num.str2dbl(op.score).Some? && num.str2int(op.offset).Some? && num.str2int(op.limit).Some?
    requires k <= |s| && forall i :: 0 <= i < |s| ==>
      (i < k <==> Precedes(s[i], Pair(num.str2dbl(op.score).value, op.name)))
    ensures var offset, limit := num.str2int(op.offset).value as int, num.str2int(op.limit).value as int;
      v.Arr? && if limit > 0 && k < |s| && 0 <= k + offset < |s| then
        |v.items| == 2 * Min(|s| - k - offset, (limit + 1) / 2) &&
        forall i :: 0 <= 2 * i < |v.items| ==>
          v.items[2 * i] == Str(s[k + offset + i].name) && v.items[2 * i + 1] == Dbl(num.bits(s[k + offset + i].score))
      else v.items == []
  {
    hide Slice, PairValues, Precedes, Less, Sorted, UniqueNames, Dict;
    var key := Pair(num.str2dbl(op.score).value, op.name);
    var offset, limit := num.str2int(op.offset).value as int, num.str2int(op.limit).value as int;
    var t: seq<Pair> :| Lists(t, ScoresOf(m, op.key)) && v == Arr(PairValues(Slice(t, key, offset, limit), num));
    DictDetermines(s, t);
    forall i | 0 <= i < |s| ensures Less(s[i], key) <==> Precedes(s[i], key) {
      LessIs(s[i], key);
    }
    SliceIs(s, key, k, offset, limit);
    PairValuesAre(Slice(s, key, offset, limit), num);
  }

  // The answer to a command is determined, but for the order of keys.
  lemma OneAnswer(m: Db, op: Op, now: nat, num: Numbers, v: Value, w: Value)
    requires Answers(m, op, now, num, v) && Answers(m, op, now, num, w) && !op.Keys?
    ensures v == w
  {
    hide Slice, PairValues, Sorted, UniqueNames, Dict;
    if op.ZQuery? && v != w {
      var key := Pair(num.str2dbl(op.score).value, op.name);
      var offset, limit := num.str2int(op.offset).value as int, num.str2int(op.limit).value as int;
      var s: seq<Pair> :| Lists(s, ScoresOf(m, op.key)) && v == Arr(PairValues(Slice(s, key, offset, limit), num));
      var t: seq<Pair> :| Lists(t, ScoresOf(m, op.key)) && w == Arr(PairValues(Slice(t, key, offset, limit), num));
      DictDetermines(s, t);
    }
  }

  // ----- Numbers in answers -----

  // No deadline is further away than a time to live can be.
  ghost predicate Near(m: Db, now: nat) {
    forall k :: k in m && m[k].expire.Some? ==> m[k].expire.value - now < 0x8000_0000_0000_0000
  }

  // So it is from the beginning on, whatever the commands do, as long as time
  // does not go backwards.
  lemma NearKept(m: Db, op: Op, from: nat, now: nat, num: Numbers)
    requires Near(m, from) && from <= now
    ensures Near(m, now) && Near(Effect(m, op, now, num), now)
  {
  }

  // Then every number in an answer fits int64_t, and is read as it was meant.
  lemma AnswersExact(m: Db, op: Op, now: nat, num: Numbers, v: Value)
    requires Answers(m, op, now, num, v) && Near(m, now)
    ensures Exact(v)
  {
    hide AnswersKeys, AnswersZQuery;
    match op
    case Keys => KeysExact(m, v);
    case ZQuery(_, _, _, _, _) => QueryExact(m, op, num, v);
    case _ =>
  }

  lemma KeysExact(m: Db, v: Value)
    requires AnswersKeys(m, v)
    ensures Exact(v)
  {
    hide StrsOf, NoDup;
    var keys :| NoDup(keys) && Elems(keys) == m.Keys && v == Arr(StrsOf(keys));
    StrsOfAre(keys);
  }

  lemma {:induction false} PairValuesExact(s: seq<Pair>, num: Numbers)
    ensures forall v :: v in PairValues(s, num) ==> Exact(v)
  {
    if s != [] { PairValuesExact(s[..|s| - 1], num); }
  }

  lemma QueryExact(m: Db, op: Op, num: Numbers, v: Value)
    requires op.ZQuery? && AnswersZQuery(m, op, v, num)
    ensures Exact(v)
  {
    hide Slice, Lists, PairValues;
    var score, offset, limit := num.str2dbl(op.score), num.str2int(op.offset), num.str2int(op.limit);
    if score.Some? && offset.Some? && limit.Some? && !WrongType(m, op.key) {
      var key := Pair(score.value, op.name);
      var s: seq<Pair> :|
        Lists(s, ScoresOf(m, op.key)) &&
        v == Arr(PairValues(Slice(s, key, offset.value as int, limit.value as int), num));
      PairValuesExact(Slice(s, key, offset.value as int, limit.value as int), num);
    }
  }
}
