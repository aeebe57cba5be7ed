// The commands of lib/server/key_value.cpp, and do_request of
// lib/server/response.cpp.

module KeyValue {
  import opened Basics
  import opened Seqs
  import opened Order
  import opened Wire
  import opened Buffers
  import opened Entries
  import opened Heap
  import opened Commands
  import opened Stores
  import opened Framing
  import Z = ZSets
  import H = HashTable
  import Request

  // hm_lookup, in terms of the plain map.
  method Fetch(st: Store, key: Bytes) returns (e: Entry?)
    requires st.Valid()
    modifies st.Repr()
    ensures st.Valid() && st.Onward() && st.Model() == old(st.Model())
    ensures e == null <==> key !in st.Model()
    ensures e == null <==> key !in st.handle
    ensures e != null ==>
      (e in st.foot && e.key == key && e in st.Cells && st.foot[e] <= st.Cells && st.foot.Keys <= st.Cells &&
      st.heap in st.Cells && st.Model()[key].datum.Plain? == e.value.Text? &&
      st.Model()[key].expire == st.ExpiryOf(e) && (e.value.Text? ==> st.Model()[key].datum == Plain(e.value.s)))
  {
    hide Store.Valid, Store.Model;
    e := st.Lookup(key);
    st.ModelAt(key);
    if e != null {
      st.ModelOf(e);
    }
  }

  method DoGet(st: Store, key: Bytes, out: Buffer) returns (ghost v: Value)
    requires st.Valid() && out !in st.Repr() && ShortDb(st.Model())
    modifies st.Repr(), out
    ensures st.Valid() && st.Onward() && st.Model() == old(st.Model())
    ensures v == ReplyGet(old(st.Model()), key) && out.data == old(out.data) + Encode(v)
  {
    hide Store.Valid, Store.Model, Store.ExpiryOf, Encode;
    var e := Fetch(st, key);
    if e == null {
      v := Nil;
      out.OutNil();
      return;
    }
    match e.value
    case Text(s) =>
      v := Str(s);
      out.OutStr(s);
    case Scored(_) =>
      v := BadType("not a string value");
      out.OutErr(ERR_BAD_TYP, Ascii("not a string value"));
  }

  // do_set, up to the answer.
  method PutString(st: Store, key: Bytes, s: Bytes) returns (ok: bool)
    requires st.Valid()
    modifies st.Repr()
    ensures st.Valid() && st.Onward() && st.Model() == AfterSet(old(st.Model()), key, s)
    ensures ok == !(key in old(st.Model()) && old(st.Model())[key].datum.Scores?)
  {
    hide Store.Valid, Store.Model;
    var e := Fetch(st, key);
    if e == null {
      var f := new Entry(key, Text(s));
      st.InsertNew(f, {});
      ok := true;
    } else {
      ok := e.value.Text?;
      if e.value.Text? {
        st.Overwrite(e, s);
      }
    }
  }

  method DoSet(st: Store, key: Bytes, s: Bytes, out: Buffer) returns (ghost v: Value)
    requires st.Valid() && out !in st.Repr()
    modifies st.Repr(), out
    ensures st.Valid() && st.Onward() && st.Model() == AfterSet(old(st.Model()), key, s)
    ensures v == ReplySet(old(st.Model()), key) && out.data == old(out.data) + Encode(v)
  {
    hide Store.Valid, Store.Model, Encode, AfterSet;
    var ok := PutString(st, key, s);
    v := if ok then Nil else BadType("a non-string value exists");
    if ok {
      out.OutNil();
    } else {
      out.OutErr(ERR_BAD_TYP, Ascii("a non-string value exists"));
    }
  }

  method DoDel(st: Store, key: Bytes, out: Buffer) returns (ghost v: Value)
    requires st.Valid() && out !in st.Repr()
    modifies st.Repr(), out
    ensures st.Valid() && st.Onward() && st.Model() == old(st.Model()) - {key}
    ensures v == Flag(key in old(st.Model())) && out.data == old(out.data) + Encode(v)
  {
    hide Store.Valid, Store.Model, Encode;
    var found := st.Delete(key);
    v := Flag(found);
    out.OutInt(if found then 1 else 0);
  }

  // do_expire, up to the answer.
  method Expire(st: Store, key: Bytes, ttl: int, now: nat) returns (found: bool)
    requires st.Valid()
    modifies st.Repr()
    ensures st.Valid() && st.Onward() && st.Model() == AfterExpire(old(st.Model()), key, ttl, now)
    ensures found == (key in old(st.Model()))
  {
    hide Store.Valid, Store.Model;
    var e := Fetch(st, key);
    found := e != null;
    if e != null {
      st.SetDeadline(e, ttl, now);
    }
  }

  method DoExpire(st: Store, key: Bytes, ttl: Bytes, now: nat, num: Numbers, out: Buffer) returns (ghost v: Value)
    requires st.Valid() && out !in st.Repr()
    modifies st.Repr(), out
    ensures st.Valid() && st.Onward()
    ensures st.Model() == Effect(old(st.Model()), PExpire(key, ttl), now, num)
    ensures v == ReplyExpire(old(st.Model()), key, num.str2int(ttl)) && out.data == old(out.data) + Encode(v)
  {
    hide Store.Valid, Store.Model, Encode, AfterExpire;
    var ttlMs := num.str2int(ttl);
    if ttlMs.None? {
      v := BadArg("expect int64");
      out.OutErr(ERR_BAD_ARG, Ascii("expect int64"));
    } else {
      var found := Expire(st, key, ttlMs.value as int, now);
      v := Flag(found);
      out.OutInt(if found then 1 else 0);
    }
  }

  // do_ttl, up to the answer.
  method TimeLeft(st: Store, key: Bytes, now: nat) returns (n: int)
    requires st.Valid()
    modifies st.Repr()
    ensures st.Valid() && st.Onward() && st.Model() == old(st.Model())
    ensures Int(n) == ReplyTtl(st.Model(), key, now)
  {
    hide Store.Valid, Store.Model;
    var e := Fetch(st, key);
    if e == null {
      n := -2;
    } else {
      var expireAt := Deadline(st, e);
      match expireAt
      case None => n := -1;
      case Some(t) => n := if t > now then t - now else 0;
    }
  }

  // The heap item behind heap_idx.
  method Deadline(st: Store, e: Entry) returns (t: Option<nat>)
    requires st.Valid() && e in st.foot
    ensures t == st.ExpiryOf(e)
  {
    hide H.HMap.Valid, Deadlines;
    st.heap.TimedFacts(st.foot.Keys, e);
    t := if e.heapIdx == -1 then None else Some(st.heap.a[e.heapIdx].val);
  }

  method DoTtl(st: Store, key: Bytes, now: nat, out: Buffer) returns (ghost v: Value)
    requires st.Valid() && out !in st.Repr()
    modifies st.Repr(), out
    ensures st.Valid() && st.Onward() && st.Model() == old(st.Model())
    ensures v == ReplyTtl(old(st.Model()), key, now) && out.data == old(out.data) + Encode(v)
  {
    hide Store.Valid, Store.Model, Encode;
    var n := TimeLeft(st, key, now);
    v := Int(n);
    out.OutInt(n);
  }

  // ----- Sorted sets -----

  // entry_new of an empty sorted set.
  method EntryNew(key: Bytes) returns (e: Entry, ghost fp: set<object>)
    ensures fresh(e) && fresh(fp) && e !in fp && e.key == key && e.heapIdx == -1 && e.value.Scored?
    ensures Sound(e, fp) && DatumOf(e, fp) == Scores(map[])
  {
    hide Z.ZSet.Valid, Z.ZSet.Contents;
    var z := new Z.ZSet();
    e := new Entry(key, Scored(z));
    fp := z.Repr + {z};
    SoundSet(e, fp, z);
  }

  // entry_new and hm_insert of an empty sorted set.
  method NewSet(st: Store, key: Bytes) returns (e: Entry)
    requires st.Valid() && key !in st.handle
    modifies st.Repr()
    ensures st.Valid() && st.Onward()
    ensures e in st.foot && e.value.Scored? && e.key == key && st.foot[e] <= st.Repr()
    ensures st.Model() == old(st.Model())[key := Item(Scores(map[]), None)]
  {
    hide Store.Valid, Store.Model, Sound, DatumOf;
    ghost var fp;
    e, fp := EntryNew(key);
    st.InsertNew(e, fp);
    st.ModelOf(e);
  }

  // do_zadd, from the lookup to the answer.
  method PutTuple(st: Store, key: Bytes, score: real, name: Bytes) returns (ok: bool, added: bool)
    requires st.Valid()
    modifies st.Repr()
    ensures st.Valid() && st.Onward()
    ensures st.Model() == AfterZAdd(old(st.Model()), key, score, name)
    ensures ok == !WrongType(old(st.Model()), key) && (ok ==> added == (name !in ScoresOf(old(st.Model()), key)))
  {
    hide Store.Valid, Store.Model;
    var e := Fetch(st, key);
    ok, added := true, false;
    if e == null {
      var f := NewSet(st, key);
      added := st.AddTuple(f, name, score);
    } else if e.value.Text? {
      ok := false;
    } else {
      added := st.AddTuple(e, name, score);
    }
  }

  method DoZAdd(st: Store, key: Bytes, score: Bytes, name: Bytes, num: Numbers, out: Buffer) returns (ghost v: Value)
    requires st.Valid() && out !in st.Repr()
    modifies st.Repr(), out
    ensures st.Valid() && st.Onward()
    ensures st.Model() == Effect(old(st.Model()), ZAdd(key, score, name), 0, num)
    ensures v == ReplyZAdd(old(st.Model()), key, num.str2dbl(score), name) && out.data == old(out.data) + Encode(v)
  {
    hide Store.Valid, Store.Model, Encode, AfterZAdd, WrongType, ScoresOf;
    var x := num.str2dbl(score);
    if x.None? {
      v := BadArg("expect float");
      out.OutErr(ERR_BAD_ARG, Ascii("expect float"));
    } else {
      var ok, added := PutTuple(st, key, x.value, name);
      if ok {
        v := Flag(added);
        out.OutInt(if added then 1 else 0);
      } else {
        v := BadType("expect zset");
        out.OutErr(ERR_BAD_TYP, Ascii("expect zset"));
      }
    }
  }

  // do_zrem, up to the answer.  A missing key stands for an empty sorted set.
  method DropTuple(st: Store, key: Bytes, name: Bytes) returns (ok: bool, found: bool)
    requires st.Valid()
    modifies st.Repr()
    ensures st.Valid() && st.Onward() && st.Model() == AfterZRem(old(st.Model()), key, name)
    ensures ok == !WrongType(old(st.Model()), key) && (ok ==> found == (name in ScoresOf(old(st.Model()), key)))
  {
    hide Store.Valid, Store.Model, Z.ZSet.Valid, Z.ZSet.Contents;
    var e := Fetch(st, key);
    ok, found := true, false;
    if e == null {
      var z := new Z.ZSet();
      found := RemoveName(z, name);
    } else if e.value.Text? {
      ok := false;
    } else {
      found := st.RemoveTuple(e, name);
    }
  }

  method DoZRem(st: Store, key: Bytes, name: Bytes, out: Buffer) returns (ghost v: Value)
    requires st.Valid() && out !in st.Repr()
    modifies st.Repr(), out
    ensures st.Valid() && st.Onward() && st.Model() == AfterZRem(old(st.Model()), key, name)
    ensures v == ReplyZRem(old(st.Model()), key, name) && out.data == old(out.data) + Encode(v)
  {
    hide Store.Valid, Store.Model, Encode, AfterZRem, WrongType, ScoresOf;
    var ok, found := DropTuple(st, key, name);
    if ok {
      v := Flag(found);
      out.OutInt(if found then 1 else 0);
    } else {
      v := BadType("expect zset");
      out.OutErr(ERR_BAD_TYP, Ascii("expect zset"));
    }
  }

  // do_zscore, up to the answer.
  method ScoreOf(st: Store, key: Bytes, name: Bytes) returns (ok: bool, score: Option<real>)
    requires st.Valid()
    modifies st.Repr()
    ensures st.Valid() && st.Onward() && st.Model() == old(st.Model())
    ensures ok == !WrongType(old(st.Model()), key)
    ensures ok ==> var c := ScoresOf(st.Model(), key); score == if name in c then Some(c[name]) else None
  {
    hide Store.Valid, Store.Model, Z.ZSet.Valid, Z.ZSet.Contents;
    var e := Fetch(st, key);
    ok, score := true, None;
    if e == null {
      var z := new Z.ZSet();
      score := FindScore(z, name);
    } else if e.value.Text? {
      ok := false;
    } else {
      score := st.ScoreOfTuple(e, name);
    }
  }

  method DoZScore(st: Store, key: Bytes, name: Bytes, num: Numbers, out: Buffer) returns (ghost v: Value)
    requires st.Valid() && out !in st.Repr()
    modifies st.Repr(), out
    ensures st.Valid() && st.Onward() && st.Model() == old(st.Model())
    ensures v == ReplyZScore(old(st.Model()), key, name, num) && out.data == old(out.data) + Encode(v)
  {
    hide Store.Valid, Store.Model, Encode, WrongType, ScoresOf;
    var ok, score := ScoreOf(st, key, name);
    if !ok {
      v := BadType("expect zset");
      out.OutErr(ERR_BAD_TYP, Ascii("expect zset"));
    } else if score.None? {
      v := Nil;
      out.OutNil();
    } else {
      v := Dbl(num.bits(score.value));
      out.OutDbl(num.bits(score.value));
    }
  }

  // do_zquery, from the lookup to the output.
  method Query(st: Store, key: Bytes, score: real, name: Bytes, offset: int64, limit: int64)
    returns (ok: bool, pairs: seq<Pair>, n: int64, ghost all: seq<Pair>)
    requires st.Valid() && Counted(st.Model())
    modifies st.Repr()
    ensures st.Valid() && st.Onward() && st.Model() == old(st.Model())
    ensures ok == !WrongType(old(st.Model()), key)
    ensures ok ==>
      (Lists(all, ScoresOf(st.Model(), key)) &&
      pairs == Slice(all, Pair(score, name), offset as int, limit as int) && n as int == 2 * |pairs|)
  {
    hide Store.Valid, Store.Model, Z.ZSet.Valid, Z.ZSet.Contents, Slice, Lists;
    var e := Fetch(st, key);
    ok, pairs, n, all := true, [], 0, [];
    if e == null {
      var z := new Z.ZSet();
      pairs, n := z.Query(score, name, offset, limit);
      EmptySet(z);
      all := z.Listing();
    } else if e.value.Text? {
      ok := false;
    } else {
      pairs, n, all := st.QueryTuples(e, score, name, offset, limit);
    }
  }

  lemma EmptySet(z: Z.ZSet)
    requires z.Valid() && z.Contents() == map[]
    ensures Lists(z.Listing(), map[])
  {
    hide Z.ZSet.Valid, Z.ZSet.Contents, Z.ZSet.Listing, Sorted, UniqueNames, Dict;
    z.ListingIs();
  }

  // The output of the pairs.
  method OutPairs(pairs: seq<Pair>, num: Numbers, out: Buffer)
    requires forall p :: p in pairs ==> |p.name| < U32_MOD
    modifies out
    ensures out.data == old(out.data) + EncodeAll(PairValues(pairs, num))
  {
    hide Encode, U32;
    ghost var before := out.data;
    var i := 0;
    while i < |pairs|
      invariant i <= |pairs| && out.data == before + EncodeAll(PairValues(pairs[..i], num))
    {
      var p := pairs[i];
      ghost var vs := PairValues(pairs[..i], num);
      out.OutStr(p.name);
      out.OutDbl(num.bits(p.score));
      assert pairs[..i + 1][..i] == pairs[..i];
      EncodeTwo(before, vs, Str(p.name), Dbl(num.bits(p.score)));
      i := i + 1;
    }
    assert pairs[..i] == pairs;
  }

  lemma EncodeTwo(before: Bytes, vs: seq<Value>, v: Value, w: Value)
    ensures before + EncodeAll(vs) + Encode(v) + Encode(w) == before + EncodeAll(vs + [v, w])
  {
    EncodeAllConcat(vs, [v, w]);
    hide Encode;
    assert [v, w][1..] == [w] && [w][1..] == [];
    assert EncodeAll([w]) == Encode(w) + EncodeAll([]) == Encode(w);
    assert EncodeAll([v, w]) == Encode(v) + EncodeAll([w]);
  }

  // The output of do_zquery.
  method OutQuery(pairs: seq<Pair>, n: nat, limit: int64, num: Numbers, out: Buffer)
    requires n == 2 * |pairs| && (limit <= 0 ==> pairs == [])
    requires forall p :: p in pairs ==> |p.name| < U32_MOD
    modifies out
    ensures out.data == old(out.data) + Encode(Arr(PairValues(pairs, num)))
  {
    hide U32;
    ghost var before := out.data;
    if limit <= 0 {
      out.OutArr(0);
      assert Encode(Arr([])) == [TAG_ARR] + U32(0) + [];
    } else {
      var ctx := out.OutBeginArr();
      OutPairs(pairs, num, out);
      out.OutEndArr(ctx, n, before, PairValues(pairs, num));
    }
  }

  method DoZQuery(st: Store, op: Op, num: Numbers, out: Buffer) returns (ghost v: Value)
    requires st.Valid() && out !in st.Repr() && op.ZQuery? && ShortDb(st.Model()) && Counted(st.Model())
    modifies st.Repr(), out
    ensures st.Valid() && st.Onward() && st.Model() == old(st.Model())
    ensures AnswersZQuery(old(st.Model()), op, v, num) && out.data == old(out.data) + Encode(v)
  {
    hide Store.Valid, Store.Model, Encode, WrongType, ScoresOf, Slice, Lists, ShortDb, Counted;
    var score := num.str2dbl(op.score);
    var offset, limit := num.str2int(op.offset), num.str2int(op.limit);
    if score.None? {
      v := BadArg("expect fp number");
      out.OutErr(ERR_BAD_ARG, Ascii("expect fp number"));
    } else if offset.None? || limit.None? {
      v := BadArg("expect int");
      out.OutErr(ERR_BAD_ARG, Ascii("expect int"));
    } else {
      var ok, pairs, n, all := Query(st, op.key, score.value, op.name, offset.value, limit.value);
      if !ok {
        v := BadType("expect zset");
        out.OutErr(ERR_BAD_TYP, Ascii("expect zset"));
      } else {
        ShortNames(st.Model(), op.key, all, Pair(score.value, op.name),
          offset.value as int, limit.value as int);
        v := Arr(PairValues(pairs, num));
        OutQuery(pairs, n as nat, limit.value, num, out);
      }
    }
  }

  // ----- keys -----

  function KeysOf(visited: seq<Node>): (r: seq<Bytes>)
    ensures |r| == |visited|
    ensures forall i :: 0 <= i < |r| ==> r[i] == visited[i].owner.key
  {
    seq(|visited|, i requires 0 <= i < |visited| => visited[i].owner.key)
  }

  lemma KeysVisited(handle: map<Bytes, Node>, hs: set<Node>, visited: seq<Node>)
    requires Keyed(handle, hs) && NoDup(visited) && Elems(visited) == hs
    ensures NoDup(KeysOf(visited)) && Elems(KeysOf(visited)) == handle.Keys
  {
    hide StrHash;
    var keys := KeysOf(visited);
    forall i, j | 0 <= i < j < |keys| ensures keys[i] != keys[j] {
      assert visited[i] in Elems(visited) && visited[j] in Elems(visited);
    }
    forall k | k in keys ensures k in handle {
      var i :| 0 <= i < |keys| && keys[i] == k;
      assert visited[i] in Elems(visited);
    }
    forall k | k in handle ensures k in keys {
      assert handle[k] in Elems(visited);
      var i :| 0 <= i < |visited| && visited[i] == handle[k];
      assert keys[i] == k;
    }
  }

  // hm_size, and hm_foreach with the keys it meets.
  method AllKeys(st: Store) returns (n: nat, keys: seq<Bytes>)
    requires st.Valid()
    ensures NoDup(keys) && Elems(keys) == st.Model().Keys && n == |keys| == |st.Model()|
  {
    hide H.HMap.Valid, StrHash, Store.Held, Store.Items, Keyed, Owned;
    n := st.db.Size();
    var visited := st.db.Foreach((h: Node) => true);
    keys := KeysOf(visited);
    KeysVisited(st.handle, st.db.Nodes(), visited);
    NoDupSize(visited);
    NoDupSize(keys);
    assert st.Model().Keys == st.handle.Keys && |st.Model()| == |st.Model().Keys|;
  }

  method DoKeys(st: Store, out: Buffer) returns (ghost v: Value)
    requires st.Valid() && out !in st.Repr() && ShortDb(st.Model())
    modifies out
    ensures st.Valid() && st.Model() == old(st.Model())
    ensures AnswersKeys(st.Model(), v) && out.data == old(out.data) + Encode(v)
  {
    hide Store.Valid, Store.Model, U32, Encode, NoDup;
    var n, keys := AllKeys(st);
    ghost var before := out.data;
    out.OutArr(n);
    OutKeys(keys, out);
    v := Arr(StrsOf(keys));
    EncodeArr(before, StrsOf(keys));
  }

  lemma EncodeArr(before: Bytes, vs: seq<Value>)
    ensures before + [TAG_ARR] + U32(|vs|) + EncodeAll(vs) == before + Encode(Arr(vs))
  {
    Assoc4(before, [TAG_ARR], U32(|vs|), EncodeAll(vs));
  }

  // cb_keys on each key
  method OutKeys(keys: seq<Bytes>, out: Buffer)
    requires forall k :: k in Elems(keys) ==> |k| < U32_MOD
    modifies out
    ensures out.data == old(out.data) + EncodeAll(StrsOf(keys))
  {
    hide Encode, U32;
    ghost var before := out.data;
    var i := 0;
    while i < |keys|
      invariant i <= |keys| && out.data == before + EncodeAll(StrsOf(keys[..i]))
    {
      assert keys[i] in Elems(keys);
      out.OutStr(keys[i]);
      assert keys[..i + 1][..i] == keys[..i];
      EncodeOne(before, StrsOf(keys[..i]), Str(keys[i]));
      i := i + 1;
    }
    assert keys[..i] == keys;
  }

  lemma EncodeOne(before: Bytes, vs: seq<Value>, v: Value)
    ensures before + EncodeAll(vs) + Encode(v) == before + EncodeAll(vs + [v])
  {
    EncodeAllConcat(vs, [v]);
    hide Encode;
    assert EncodeAll([v]) == Encode(v) + EncodeAll([]) == Encode(v);
  }

  // ----- do_request -----

  // Every command changes the plain map as Effect says, and appends exactly
  // one value, which answers it.
  method DoRequest(st: Store, cmd: seq<Bytes>, now: nat, num: Numbers, out: Buffer) returns (ghost v: Value)
    requires st.Valid() && out !in st.Repr() && ShortDb(st.Model()) && Counted(st.Model())
    requires ShortOp(OpOf(cmd))
    modifies st.Repr(), out
    ensures st.Valid() && st.Onward()
    ensures st.Model() == Effect(old(st.Model()), OpOf(cmd), now, num) && ShortDb(st.Model())
    ensures Answers(old(st.Model()), OpOf(cmd), now, num, v) && Deliverable(v)
    ensures out.data == old(out.data) + Encode(v)
  {
    hide Store.Valid, Store.Model, Encode, ShortDb, Counted, OpOf, Deliverable;
    var op := OpOf(cmd);
    EffectShort(st.Model(), op, now, num);
    match op {
      case Get(key) => v := DoGet(st, key, out);
      case Set(key, s) => v := DoSet(st, key, s, out);
      case Del(key) => v := DoDel(st, key, out);
      case PExpire(key, ttl) => v := DoExpire(st, key, ttl, now, num, out);
      case PTtl(key) => v := DoTtl(st, key, now, out);
      case Keys => v := DoKeys(st, out);
      case ZAdd(key, score, name) => v := DoZAdd(st, key, score, name, num, out);
      case ZRem(key, name) => v := DoZRem(st, key, name, out);
      case ZScore(key, name) => v := DoZScore(st, key, name, num, out);
      case ZQuery(_, _, _, _, _) => v := DoZQuery(st, op, num, out);
      case Unknown =>
        v := Err(ERR_UNKNOWN, Ascii("unknown command."));
        out.OutErr(ERR_UNKNOWN, Ascii("unknown command."));
    }
    AnswersWellFormed(old(st.Model()), op, now, num, v);
  }

  // The commands that parse_req returns are short enough.
  lemma ParsedIsShort(data: Bytes, cmd: seq<Bytes>)
    requires Request.Parse(data) == Some(cmd)
    ensures ShortOp(OpOf(cmd))
  {
    Request.ParseIsInverse(data, cmd);
  }

  // A whole answer: response_begin, do_request and response_end.  The bytes
  // before it stay, and the client reads exactly the body of the new frame.
  method Respond(st: Store, cmd: seq<Bytes>, now: nat, num: Numbers, out: Buffer) returns (ghost v: Value)
    requires st.Valid() && out !in st.Repr() && ShortDb(st.Model()) && Counted(st.Model())
    requires ShortOp(OpOf(cmd))
    modifies st.Repr(), out
    ensures st.Valid() && st.Onward()
    ensures st.Model() == Effect(old(st.Model()), OpOf(cmd), now, num) && ShortDb(st.Model())
    ensures Answers(old(st.Model()), OpOf(cmd), now, num, v) && Deliverable(v)
    ensures out.data == old(out.data) + Frame(v)
    ensures |Body(Encode(v))| <= K_MAX_MSG && NoWrap(Body(Encode(v)))
    ensures Consume(Body(Encode(v))) == |Body(Encode(v))| && (Exact(v) ==> Shown(Body(Encode(v))) == Delivered(v))
  {
    hide Store.Valid, Store.Model, Encode, ShortDb, Counted, OpOf, Deliverable, Effect, Answers, Body,
      U32, ShortOp, Exact, Shown, NoWrap, Consume, Delivered;
    ghost var before := out.data;
    var header := out.ResponseBegin();
    v := DoRequest(st, cmd, now, num, out);
    out.ResponseEnd(header, before, Encode(v));
    BodyReadable(v);
    Assoc(before, U32(|Body(Encode(v))|), Body(Encode(v)));
  }
}
