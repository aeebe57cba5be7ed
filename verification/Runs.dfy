// Whole runs of the store: any sequence of requests and timer ticks.

module Runs {
  import opened Basics
  import opened Seqs
  import opened Wire
  import opened Buffers
  import opened Framing
  import opened Commands
  import opened Stores
  import opened KeyValue
  import opened Timers

  datatype Event = Request(cmd: seq<Bytes>, now: nat) | Tick(now: nat)

  // What one event does to the plain map, and the reply it causes.
  ghost predicate Does(m: Db, e: Event, t: Db, v: Option<Value>, num: Numbers) {
    match e
    case Request(cmd, now) =>
      t == Effect(m, OpOf(cmd), now, num) && v.Some? && Deliverable(v.value) && Answers(m, OpOf(cmd), now, num, v.value)
    case Tick(now) => v.None? && Sweeps(m, now, t)
  }

  ghost predicate Sweeps(m: Db, now: nat, t: Db) {
    exists gone: seq<Bytes> ::
      InTurn(m, now, gone) && t == m - Elems(gone) && |gone| == Min(K_MAX_WORKS + 1, |DueKeys(m, now)|)
  }

  // The maps before, between and after the events, and the reply to each one.
  datatype Run = Run(maps: seq<Db>, events: seq<Event>, replies: seq<Option<Value>>)

  ghost predicate IsRun(x: Run, num: Numbers) {
    |x.maps| == |x.events| + 1 && |x.replies| == |x.events| &&
    forall i {:trigger x.events[i]} :: 0 <= i < |x.events| ==>
      Does(x.maps[i], x.events[i], x.maps[i + 1], x.replies[i], num)
  }

  // x is a run that leads from m to t.
  ghost predicate Leads(x: Run, m: Db, t: Db, num: Numbers) {
    IsRun(x, num) && x.maps[0] == m && x.maps[|x.events|] == t
  }

  function Still(m: Db): Run { Run([m], [], []) }

  function Single(m: Db, e: Event, t: Db, v: Option<Value>): Run { Run([m, t], [e], [v]) }

  ghost function Join(x: Run, y: Run): Run
    requires |y.maps| > 0
  {
    Run(x.maps + y.maps[1..], x.events + y.events, x.replies + y.replies)
  }

  lemma StillLeads(m: Db, num: Numbers)
    ensures Leads(Still(m), m, m, num)
  {
  }

  lemma SingleLeads(m: Db, e: Event, t: Db, v: Option<Value>, num: Numbers)
    requires Does(m, e, t, v, num)
    ensures Leads(Single(m, e, t, v), m, t, num)
  {
    hide Does;
  }

  lemma JoinLeads(x: Run, y: Run, m: Db, u: Db, t: Db, num: Numbers)
    requires Leads(x, m, u, num) && Leads(y, u, t, num)
    ensures Leads(Join(x, y), m, t, num)
  {
    hide Does;
    var z, n := Join(x, y), |x.events|;
    forall i | 0 <= i < |z.events| ensures Does(z.maps[i], z.events[i], z.maps[i + 1], z.replies[i], num) {
      if i < n {
        assert z.events[i] == x.events[i];
      } else {
        assert z.events[i] == y.events[i - n] && z.maps[i] == y.maps[i - n];
      }
    }
  }

  // The frames of the replies.
  function Frames(vs: seq<Option<Value>>): Bytes {
    if vs == [] then []
    else
      var v := vs[|vs| - 1];
      Frames(vs[..|vs| - 1]) + if v.Some? then Frame(v.value) else []
  }

  lemma {:induction false} FramesConcat(a: seq<Option<Value>>, b: seq<Option<Value>>)
    ensures Frames(a + b) == Frames(a) + Frames(b)
  {
    hide Frame;
    if b == [] {
      assert a + b == a;
    } else {
      FramesConcat(a, b[..|b| - 1]);
      assert (a + b)[..|a + b| - 1] == a + b[..|b| - 1];
    }
  }

  // The commands of the requests.
  function Cmds(es: seq<Event>): seq<seq<Bytes>> {
    if es == [] then []
    else
      var e := es[|es| - 1];
      Cmds(es[..|es| - 1]) + if e.Request? then [e.cmd] else []
  }

  lemma {:induction false} CmdsConcat(a: seq<Event>, b: seq<Event>)
    ensures Cmds(a + b) == Cmds(a) + Cmds(b)
  {
    if b == [] {
      assert a + b == a;
    } else {
      CmdsConcat(a, b[..|b| - 1]);
      assert (a + b)[..|a + b| - 1] == a + b[..|b| - 1];
    }
  }

  // The events take place between two times, one after the other.
  ghost predicate Timely(es: seq<Event>, from: nat, to: nat) {
    from <= to && (forall i :: 0 <= i < |es| ==> from <= es[i].now <= to) &&
    forall i, j :: 0 <= i < j < |es| ==> es[i].now <= es[j].now
  }

  lemma TimelyConcat(a: seq<Event>, b: seq<Event>, from: nat, mid: nat, to: nat)
    requires Timely(a, from, mid) && Timely(b, mid, to)
    ensures Timely(a + b, from, to)
  {
  }

  lemma TimelyEarlier(es: seq<Event>, from: nat, mid: nat, to: nat)
    requires Timely(es, mid, to) && from <= mid
    ensures Timely(es, from, to) && mid <= to
  {
  }

  lemma TimelyLater(es: seq<Event>, from: nat, mid: nat, to: nat)
    requires Timely(es, from, mid) && mid <= to
    ensures Timely(es, from, to)
  {
  }

  // ----- Sizes -----

  // Stored strings are short, and k more commands cannot make the counter of a
  // sorted set exceed 32 bits: each adds at most one tuple.
  ghost predicate Able(m: Db, k: nat) {
    ShortDb(m) && Room(m, k)
  }

  ghost predicate Room(m: Db, k: nat) {
    k < U32_MOD && forall key :: key in m && m[key].datum.Scores? ==> |m[key].datum.scores| + k < U32_MOD
  }

  lemma PutSize<K, V>(m: map<K, V>, k: K, v: V)
    ensures |m[k := v]| <= |m| + 1
  {
    assert m[k := v].Keys == m.Keys + {k};
    assert |m[k := v].Keys| == |m[k := v]| && |m.Keys| == |m|;
  }

  lemma DropSize<K, V>(m: map<K, V>, s: set<K>)
    ensures |m - s| <= |m|
  {
    assert (m - s).Keys <= m.Keys;
    SubsetSize((m - s).Keys, m.Keys);
    assert |(m - s).Keys| == |m - s| && |m.Keys| == |m|;
  }

  lemma PutRoom(m: Db, k: nat, key: Bytes, item: Item)
    requires Room(m, k + 1) && (item.datum.Scores? ==> |item.datum.scores| + k < U32_MOD)
    ensures Room(m[key := item], k)
  {
  }

  lemma DropRoom(m: Db, k: nat, s: set<Bytes>)
    requires Room(m, k)
    ensures Room(m - s, k)
  {
  }

  lemma EffectRoom(m: Db, k: nat, op: Op, now: nat, num: Numbers)
    requires Room(m, k + 1)
    ensures Room(Effect(m, op, now, num), k)
  {
    hide Room, AfterSet, AfterExpire, AfterZAdd, AfterZRem;
    RoomLess(m, k);
    match op
    case Set(key, s) => SetRoom(m, k, key, s);
    case Del(key) => DropRoom(m, k, {key});
    case PExpire(key, ttl) => if num.str2int(ttl).Some? { ExpireRoom(m, k, key, num.str2int(ttl).value as int, now); }
    case ZAdd(key, score, name) =>
      if num.str2dbl(score).Some? { ZAddRoom(m, k, key, num.str2dbl(score).value, name); }
    case ZRem(key, name) => ZRemRoom(m, k, key, name);
    case _ =>
  }

  lemma RoomLess(m: Db, k: nat)
    requires Room(m, k + 1)
    ensures Room(m, k)
  {
  }

  lemma SetRoom(m: Db, k: nat, key: Bytes, s: Bytes)
    requires Room(m, k + 1)
    ensures Room(AfterSet(m, key, s), k)
  {
    var t := AfterSet(m, key, s);
    if t != m { PutRoom(m, k, key, t[key]); }
  }

  lemma ExpireRoom(m: Db, k: nat, key: Bytes, ttl: int, now: nat)
    requires Room(m, k + 1)
    ensures Room(AfterExpire(m, key, ttl, now), k)
  {
    var t := AfterExpire(m, key, ttl, now);
    if t != m { PutRoom(m, k, key, t[key]); }
  }

  lemma ZAddRoom(m: Db, k: nat, key: Bytes, score: real, name: Bytes)
    requires Room(m, k + 1)
    ensures Room(AfterZAdd(m, key, score, name), k)
  {
    var t := AfterZAdd(m, key, score, name);
    if t != m {
      if key in m { PutSize(m[key].datum.scores, name, score); }
      PutRoom(m, k, key, t[key]);
    }
  }

  lemma ZRemRoom(m: Db, k: nat, key: Bytes, name: Bytes)
    requires Room(m, k + 1)
    ensures Room(AfterZRem(m, key, name), k)
  {
    var t := AfterZRem(m, key, name);
    if t != m {
      DropSize(m[key].datum.scores, {name});
      PutRoom(m, k, key, t[key]);
    }
  }

  // A run needs no more room than it has events.
  lemma {:induction false} LeadsRoom(x: Run, m: Db, t: Db, num: Numbers, k: nat)
    requires Leads(x, m, t, num) && Room(m, k + |x.events|)
    ensures Room(t, k)
    decreases |x.events|
  {
    hide Room, Does;
    var n := |x.events|;
    if n > 0 {
      var y := Run(x.maps[..n], x.events[..n - 1], x.replies[..n - 1]);
      LeadsRoom(y, m, x.maps[n - 1], num, k + 1);
      DoesRoom(x.maps[n - 1], x.events[n - 1], t, x.replies[n - 1], num, k);
    }
  }

  lemma DoesRoom(m: Db, e: Event, t: Db, v: Option<Value>, num: Numbers, k: nat)
    requires Does(m, e, t, v, num) && Room(m, k + 1)
    ensures Room(t, k)
  {
    hide Room, Effect, Answers, OpOf, InTurn, DueKeys;
    match e
    case Request(cmd, now) => EffectRoom(m, k, OpOf(cmd), now, num);
    case Tick(now) =>
      var gone: seq<Bytes> :|
        InTurn(m, now, gone) && t == m - Elems(gone) && |gone| == Min(K_MAX_WORKS + 1, |DueKeys(m, now)|);
      RoomLess(m, k);
      DropRoom(m, k, Elems(gone));
  }

  lemma LeadsAble(x: Run, m: Db, t: Db, num: Numbers, k: nat)
    requires Leads(x, m, t, num) && Able(m, k + |x.events|) && ShortDb(t)
    ensures Able(t, k)
  {
    hide Room, ShortDb, Leads;
    LeadsRoom(x, m, t, num, k);
  }

  // A tick needs no room.
  lemma SweptAble(x: Run, m: Db, t: Db, num: Numbers, now: nat, k: nat)
    requires Leads(x, m, t, num) && x.events == [Tick(now)] && Able(m, k) && ShortDb(t)
    ensures Able(t, k)
  {
    hide Room, ShortDb, InTurn, DueKeys;
    assert Does(m, x.events[0], t, x.replies[0], num);
    var gone: seq<Bytes> :|
      InTurn(m, now, gone) && t == m - Elems(gone) && |gone| == Min(K_MAX_WORKS + 1, |DueKeys(m, now)|);
    DropRoom(m, k, Elems(gone));
  }

  lemma AbleCounted(m: Db, k: nat)
    requires Able(m, k)
    ensures ShortDb(m) && Counted(m)
    ensures forall j: nat :: j <= k ==> Able(m, j)
  {
  }

  // Whether there is room for k more commands.  The server has no such check:
  // it marks the runs that the counters allow.
  method Fits(st: Store, k: nat) returns (fits: bool)
    requires st.Valid()
    ensures fits == Room(st.Model(), k)
  {
    hide Store.Valid, Store.Model;
    var es := st.Entries();
    fits := k < U32_MOD;
    var i := 0;
    while i < |es|
      invariant i <= |es|
      invariant forall j :: 0 <= j < i ==> es[j].key in st.Model()
      invariant fits <==> k < U32_MOD && forall j :: 0 <= j < i ==> RoomAt(st.Model(), es[j].key, k)
    {
      var size := st.SizeAt(es[i]);
      fits := fits && size + k < U32_MOD;
      i := i + 1;
    }
    assert forall key :: key in st.Model() ==> exists j :: 0 <= j < |es| && es[j].key == key;
    assert fits ==> forall key :: key in st.Model() ==> RoomAt(st.Model(), key, k);
  }

  ghost predicate RoomAt(m: Db, key: Bytes, k: nat) {
    k < U32_MOD && key in m && (m[key].datum.Scores? ==> |m[key].datum.scores| + k < U32_MOD)
  }

  // Whatever the events do, no sorted set outgrows its counters.
  ghost predicate StaysCounted(m: Db, events: seq<Event>, num: Numbers)
    decreases |events|
  {
    Counted(m) &&
    (events != [] ==> forall t, v :: Does(m, events[0], t, v, num) ==> StaysCounted(t, events[1..], num))
  }

  // So it is if there is room for the events, as if each added a tuple.
  lemma {:induction false} RoomSuffices(m: Db, events: seq<Event>, num: Numbers)
    requires Room(m, |events|)
    ensures StaysCounted(m, events, num)
    decreases |events|
  {
    hide Does;
    assert Counted(m);
    if events != [] {
      forall t, v | Does(m, events[0], t, v, num) ensures StaysCounted(t, events[1..], num) {
        hide Room;
        DoesRoom(m, events[0], t, v, num, |events| - 1);
        RoomSuffices(t, events[1..], num);
      }
    }
  }

  // ----- The store runs as the plain map does -----

  // One request at the time now, as in try_one_request.
  method PlayRequest(st: Store, cmd: seq<Bytes>, now: nat, num: Numbers, out: Buffer) returns (ghost x: Run)
    requires st.Valid() && out !in st.Repr() && ShortDb(st.Model()) && Counted(st.Model()) && ShortOp(OpOf(cmd))
    modifies st.Repr(), out
    ensures st.Valid() && st.Onward() && ShortDb(st.Model())
    ensures Leads(x, old(st.Model()), st.Model(), num) && x.events == [Request(cmd, now)]
    ensures |x.replies| == 1 && x.replies[0].Some? && out.data == old(out.data) + Frames(x.replies)
  {
    hide Store.Valid, Store.Model, Effect, Answers, OpOf, ShortOp, Encode, Body, U32, Deliverable, Frame, Consume,
      ShortDb, Counted;
    ghost var m := st.Model();
    ghost var v := Respond(st, cmd, now, num, out);
    x := Single(m, Request(cmd, now), st.Model(), Some(v));
    SingleLeads(m, Request(cmd, now), st.Model(), Some(v), num);
    assert Frames([Some(v)]) == Frames([]) + Frame(v) == Frame(v);
  }

  // The TTL phase of a tick.
  method PlayTick(st: Store, now: nat, num: Numbers) returns (ghost x: Run)
    requires st.Valid() && ShortDb(st.Model())
    modifies st.Repr()
    ensures st.Valid() && st.Onward() && ShortDb(st.Model())
    ensures Leads(x, old(st.Model()), st.Model(), num) && x.events == [Tick(now)] && x.replies == [None]
  {
    hide Store.Valid, Store.Model, InTurn, DueKeys;
    ghost var m := st.Model();
    ghost var gone := ExpireKeys(st, now);
    assert Sweeps(m, now, st.Model());
    x := Single(m, Tick(now), st.Model(), None);
    SingleLeads(m, Tick(now), st.Model(), None, num);
  }

  ghost predicate Wanted(events: seq<Event>) {
    forall e :: e in events && e.Request? ==> ShortOp(OpOf(e.cmd))
  }

  method PlayOne(st: Store, e: Event, num: Numbers, out: Buffer) returns (ghost x: Run)
    requires st.Valid() && out !in st.Repr() && ShortDb(st.Model()) && Counted(st.Model())
    requires e.Request? ==> ShortOp(OpOf(e.cmd))
    modifies st.Repr(), out
    ensures st.Valid() && st.Onward() && ShortDb(st.Model())
    ensures Leads(x, old(st.Model()), st.Model(), num) && x.events == [e]
    ensures out.data == old(out.data) + Frames(x.replies)
  {
    hide Store.Valid, Store.Model, OpOf, ShortOp, ShortDb, Counted, Leads;
    match e {
      case Request(cmd, now) =>
        x := PlayRequest(st, cmd, now, num, out);
      case Tick(now) =>
        x := PlayTick(st, now, num);
        assert Frames([None]) == Frames([]) + [] == [];
    }
  }

  lemma StaysOn(x: Run, m: Db, t: Db, events: seq<Event>, i: nat, num: Numbers)
    requires i < |events| && StaysCounted(m, events[i..], num)
    requires Leads(x, m, t, num) && x.events == [events[i]]
    ensures StaysCounted(t, events[i + 1..], num)
  {
    hide Does;
    assert events[i..][0] == x.events[0] && events[i..][1..] == events[i + 1..];
    assert Does(m, x.events[0], t, x.replies[0], num);
  }

  // Over every run the store is the plain map: each request changes it as
  // Effect says and gets one frame with an answer that is right for it; each
  // tick removes what is due, the earliest first.
  method Play(st: Store, events: seq<Event>, num: Numbers, out: Buffer) returns (ghost x: Run)
    requires st.Valid() && out !in st.Repr() && Wanted(events)
    requires ShortDb(st.Model()) && StaysCounted(st.Model(), events, num)
    modifies st.Repr(), out
    ensures st.Valid() && st.Onward()
    ensures Leads(x, old(st.Model()), st.Model(), num) && x.events == events
    ensures out.data == old(out.data) + Frames(x.replies)
  {
    hide Store.Valid, Store.Model, Leads, OpOf, ShortOp, ShortDb, Counted, Frames;
    NoFrames();
    ghost var m := st.Model();
    x := Still(m);
    StillLeads(m, num);
    var i := 0;
    assert events[i..] == events;
    while i < |events|
      invariant i <= |events| && st.Valid() && st.Onward() && out !in st.Repr()
      invariant ShortDb(st.Model()) && StaysCounted(st.Model(), events[i..], num)
      invariant Leads(x, m, st.Model(), num) && x.events == events[..i]
      invariant out.data == old(out.data) + Frames(x.replies)
    {
      ghost var u := st.Model();
      ghost var y := PlayOne(st, events[i], num, out);
      StaysOn(y, u, st.Model(), events, i, num);
      LeadsOn(x, y, m, u, st.Model(), num);
      x := Join(x, y);
      i := i + 1;
    }
    assert events[..i] == events;
  }

  lemma NoFrames()
    ensures Frames([]) == []
  {
  }

  lemma LeadsOn(x: Run, y: Run, m: Db, u: Db, t: Db, num: Numbers)
    requires Leads(x, m, u, num) && Leads(y, u, t, num)
    ensures |y.maps| > 0 && Leads(Join(x, y), m, t, num)
    ensures Frames(Join(x, y).replies) == Frames(x.replies) + Frames(y.replies)
    ensures Cmds(Join(x, y).events) == Cmds(x.events) + Cmds(y.events)
  {
    hide Does, Frames, Cmds;
    JoinLeads(x, y, m, u, t, num);
    FramesConcat(x.replies, y.replies);
    CmdsConcat(x.events, y.events);
  }

  // ----- Deadlines are kept -----

  // The event leaves the key and its deadline alone.
  ghost predicate Spares(e: Event, key: Bytes, deadline: Option<nat>) {
    match e
    case Request(cmd, _) => OpOf(cmd) != Del(key) && !(OpOf(cmd).PExpire? && OpOf(cmd).key == key)
    case Tick(now) => deadline.Some? ==> now <= deadline.value
  }

  lemma SparedOnce(m: Db, e: Event, t: Db, v: Option<Value>, num: Numbers, key: Bytes)
    requires Does(m, e, t, v, num) && key in m && Spares(e, key, m[key].expire)
    ensures key in t && t[key].expire == m[key].expire
  {
    hide Answers, OpOf, Deliverable;
    match e
    case Request(cmd, now) =>
    case Tick(now) =>
      hide DueKeys, Effect;
      var gone: seq<Bytes> :|
        InTurn(m, now, gone) && t == m - Elems(gone) && |gone| == Min(K_MAX_WORKS + 1, |DueKeys(m, now)|);
      assert key !in gone;
  }

  // A key stays, with its deadline, until it is deleted, its deadline is set
  // anew, or a tick comes after the deadline.
  lemma {:induction false} NeverTooEarly(x: Run, num: Numbers, i: nat, j: nat, key: Bytes)
    requires IsRun(x, num) && i <= j <= |x.events| && key in x.maps[i]
    requires forall k {:trigger x.events[k]} :: i <= k < j ==> Spares(x.events[k], key, x.maps[i][key].expire)
    ensures key in x.maps[j] && x.maps[j][key].expire == x.maps[i][key].expire
    decreases j
  {
    hide Does, Spares;
    if i < j {
      NeverTooEarly(x, num, i, j - 1, key);
      SparedOnce(x.maps[j - 1], x.events[j - 1], x.maps[j], x.replies[j - 1], num, key);
    }
  }

  // A tick leaves no key that is due, unless it had to remove K_MAX_WORKS + 1
  // others, none of which was due later.
  lemma NeverTooLate(m: Db, now: nat, t: Db, key: Bytes)
    requires Sweeps(m, now, t) && key in t
    ensures Due(m, key, now) ==>
      |DueKeys(m, now)| > K_MAX_WORKS + 1 &&
      forall k :: k in m && k !in t ==> Due(m, k, now) && m[k].expire.value <= m[key].expire.value
  {
    var gone: seq<Bytes> :|
      InTurn(m, now, gone) && t == m - Elems(gone) && |gone| == Min(K_MAX_WORKS + 1, |DueKeys(m, now)|);
    NoDupSize(gone);
    if Due(m, key, now) {
      forall k | k in Elems(gone) ensures k in DueKeys(m, now) - {key} {
        var i :| 0 <= i < |gone| && gone[i] == k;
      }
      SubsetSize(Elems(gone), DueKeys(m, now) - {key});
      forall k | k in m && k !in t ensures Due(m, k, now) && m[k].expire.value <= m[key].expire.value {
        var i :| 0 <= i < |gone| && gone[i] == k;
      }
    }
  }

  // ----- Deadlines are met -----

  // The event gives no key a deadline up to d.
  ghost predicate SetsNone(e: Event, num: Numbers, d: nat) {
    e.Request? && OpOf(e.cmd).PExpire? ==>
      var ttl := num.str2int(OpOf(e.cmd).ttl);
      ttl.Some? ==> (ttl.value as int) < 0 || e.now + ttl.value as int > d
  }

  ghost function DueBy(m: Db, d: nat): set<Bytes> {
    set k | k in m && m[k].expire.Some? && m[k].expire.value <= d
  }

  // The ticks after a deadline.
  ghost function TicksAfter(es: seq<Event>, d: nat): nat {
    if es == [] then 0
    else
      var e := es[|es| - 1];
      TicksAfter(es[..|es| - 1], d) + if e.Tick? && e.now > d then 1 else 0
  }

  lemma NoneSet(m: Db, e: Event, t: Db, v: Option<Value>, num: Numbers, d: nat)
    requires Does(m, e, t, v, num) && SetsNone(e, num, d)
    ensures forall k :: k in DueBy(t, d) ==> k in m && m[k].expire == t[k].expire
  {
    hide Answers, OpOf, Deliverable;
    match e
    case Request(cmd, now) =>
    case Tick(now) => hide InTurn, DueKeys, Effect;
  }

  // A tick that leaves a key after its deadline has removed K_MAX_WORKS + 1
  // others of those due by then.
  lemma TickRemoves(m: Db, now: nat, t: Db, key: Bytes, d: nat)
    requires Sweeps(m, now, t) && key in t && t[key].expire == Some(d) && d < now
    ensures |DueBy(m, d)| >= |DueBy(t, d)| + K_MAX_WORKS + 1
  {
    var gone: seq<Bytes> :|
      InTurn(m, now, gone) && t == m - Elems(gone) && |gone| == Min(K_MAX_WORKS + 1, |DueKeys(m, now)|);
    NoDupSize(gone);
    NeverTooLate(m, now, t, key);
    forall k | k in Elems(gone) ensures k in DueBy(m, d) {
      var i :| 0 <= i < |gone| && gone[i] == k;
    }
    assert DueBy(t, d) == DueBy(m, d) - Elems(gone);
  }

  lemma StepRemoves(m: Db, e: Event, t: Db, v: Option<Value>, num: Numbers, key: Bytes, d: nat)
    requires Does(m, e, t, v, num) && SetsNone(e, num, d) && key in t && t[key].expire == Some(d)
    ensures |DueBy(m, d)| >= |DueBy(t, d)| + if e.Tick? && e.now > d then K_MAX_WORKS + 1 else 0
  {
    hide Effect, Answers, OpOf, Deliverable, SetsNone, Sweeps;
    if e.Tick? && e.now > d {
      TickRemoves(m, e.now, t, key, d);
    } else {
      NoneSet(m, e, t, v, num, d);
      SubsetSize(DueBy(t, d), DueBy(m, d));
    }
  }

  // As long as no deadlines up to d are set, a key due at d is left after q ticks
  // past d only if more than q * (K_MAX_WORKS + 1) keys were due by then: however
  // many keys expire at once, each has gone after so many ticks.
  lemma {:induction false} GoneInTime(x: Run, num: Numbers, i: nat, j: nat, key: Bytes, d: nat)
    requires IsRun(x, num) && i <= j <= |x.events| && key in x.maps[j] && x.maps[j][key].expire == Some(d)
    requires forall k {:trigger x.events[k]} :: i <= k < j ==> SetsNone(x.events[k], num, d)
    ensures key in x.maps[i] && x.maps[i][key].expire == Some(d)
    ensures |DueBy(x.maps[i], d)| >= |DueBy(x.maps[j], d)| + (K_MAX_WORKS + 1) * TicksAfter(x.events[i..j], d)
    ensures |DueBy(x.maps[i], d)| > (K_MAX_WORKS + 1) * TicksAfter(x.events[i..j], d)
    decreases j
  {
    hide Does, SetsNone;
    assert key in DueBy(x.maps[j], d);
    if i < j {
      var m, e, t := x.maps[j - 1], x.events[j - 1], x.maps[j];
      NoneSet(m, e, t, x.replies[j - 1], num, d);
      StepRemoves(m, e, t, x.replies[j - 1], num, key, d);
      GoneInTime(x, num, i, j - 1, key, d);
      assert x.events[i..j] == x.events[i..j - 1] + [e];
      assert x.events[i..j][..j - i - 1] == x.events[i..j - 1];
    }
  }

  // ----- Numbers in replies -----

  lemma StepExact(m: Db, e: Event, t: Db, v: Option<Value>, num: Numbers, from: nat)
    requires Does(m, e, t, v, num) && Near(m, from) && from <= e.now
    ensures Near(t, e.now) && (v.Some? ==> Exact(v.value) && Deliverable(v.value))
  {
    hide OpOf, Effect, Answers, Exact, Deliverable;
    match e
    case Request(cmd, now) =>
      NearKept(m, OpOf(cmd), from, now, num);
      AnswersExact(m, OpOf(cmd), now, num, v.value);
    case Tick(now) => hide InTurn, DueKeys;
  }

  // As long as time does not go backwards, every reply can be read exactly.
  lemma {:induction false} RepliesExact(x: Run, num: Numbers, start: nat, end: nat, i: nat)
    requires IsRun(x, num) && Timely(x.events, start, end) && Near(x.maps[0], start) && i <= |x.events|
    ensures Near(x.maps[i], if i == 0 then start else x.events[i - 1].now)
    ensures forall j :: 0 <= j < i && x.replies[j].Some? ==>
      Exact(x.replies[j].value) && Deliverable(x.replies[j].value)
    decreases i
  {
    hide Does, Near, Exact, Deliverable;
    if i > 0 {
      RepliesExact(x, num, start, end, i - 1);
      StepExact(x.maps[i - 1], x.events[i - 1], x.maps[i], x.replies[i - 1], num,
        if i == 1 then start else x.events[i - 2].now);
    }
  }
}
