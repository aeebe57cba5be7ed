// The store and the thread pool: what entry_del hands over in
// lib/server/key_value.cpp, and what becomes of it.

module Handover {
  import opened Seqs
  import opened Stores
  import opened Commands
  import opened Servers
  import opened Runs
  import opened EventLoop
  import opened Connection
  import opened Entries
  import opened ZNodes
  import P = ThreadPool
  import Z = ZSets

  // The event loop is the only caller of thread_pool_queue: its calls are
  // numbered, and the x-th one is for the entry dropped[x].
  function FirstJobs(n: nat): (r: seq<P.Job>)
    ensures |r| == n && forall i :: 0 <= i < n ==> r[i] == i
  {
    seq(n, i requires 0 <= i < n => i)
  }

  // What the destructor of an entry may touch.
  ghost function Footprint(st: Store, x: nat): set<object>
    requires x < |st.dropped| == |st.given|
    reads st`dropped, st`given
  {
    {st.dropped[x]} + st.given[x]
  }

  lemma {:induction false} CountFirst(n: nat, x: P.Job)
    ensures P.Count(FirstJobs(n), x) == if x < n then 1 else 0
  {
    if n > 0 {
      CountFirst(n - 1, x);
      assert FirstJobs(n)[..n - 1] == FirstJobs(n - 1);
    }
  }

  lemma {:induction false} HeldBySome(ws: seq<P.Worker>, a: nat, x: P.Job)
    requires a < |ws| && P.Holds(ws[a], x)
    ensures P.Held(ws, x) >= 1
  {
    var n := |ws| - 1;
    if a < n { HeldBySome(ws[..n], a, x); }
  }

  lemma {:induction false} HeldByTwo(ws: seq<P.Worker>, a: nat, b: nat, x: P.Job)
    requires a < b < |ws| && P.Holds(ws[a], x) && P.Holds(ws[b], x)
    ensures P.Held(ws, x) >= 2
  {
    var n := |ws| - 1;
    if b < n { HeldByTwo(ws[..n], a, b, x); } else { HeldBySome(ws[..n], a, x); }
  }

  // At every point of every run of the pool, each entry handed over is waiting,
  // being destroyed or destroyed, exactly once, and nothing else is.
  lemma DestroyedOnce(run: seq<P.State>, steps: seq<P.Step>, k: nat, st: Store, x: P.Job)
    requires P.IsRun(run, steps) && k < |run| && run[k].pushed == FirstJobs(|st.dropped|)
    ensures P.Count(run[k].queue, x) + P.Held(run[k].workers, x) + P.Count(run[k].finished, x) ==
      if x < |st.dropped| then 1 else 0
  {
    P.PoolSafety(run, steps, k);
    CountFirst(|st.dropped|, x);
  }

  // Two workers at work on destructors, and the event loop, have no object in
  // common.
  lemma NoRace(run: seq<P.State>, steps: seq<P.Step>, k: nat, st: Store, a: nat, b: nat, x: P.Job, y: P.Job)
    requires P.IsRun(run, steps) && k < |run| && run[k].pushed == FirstJobs(|st.dropped|) && st.Valid()
    requires a < |run[k].workers| && b < |run[k].workers| && a != b
    requires P.Holds(run[k].workers[a], x) && P.Holds(run[k].workers[b], y)
    ensures x < |st.dropped| == |st.given| && y < |st.dropped|
    ensures Footprint(st, x) !! Footprint(st, y)
    ensures Footprint(st, x) !! st.Repr() && Footprint(st, y) !! st.Repr()
  {
    var ws := run[k].workers;
    DestroyedOnce(run, steps, k, st, x);
    DestroyedOnce(run, steps, k, st, y);
    HeldBySome(ws, a, x);
    HeldBySome(ws, b, y);
    if x == y {
      if a < b { HeldByTwo(ws, a, b, x); } else { HeldByTwo(ws, b, a, x); }
    }
    GivenApart(st);
  }

  lemma GivenApart(st: Store)
    requires st.Valid()
    ensures |st.given| == |st.dropped| && st.Lent !! st.Repr()
    ensures forall x :: 0 <= x < |st.dropped| ==> Footprint(st, x) <= st.Lent
    ensures forall x, y :: 0 <= x < |st.dropped| && 0 <= y < |st.dropped| && x != y ==>
      Footprint(st, x) !! Footprint(st, y)
  {
    hide Store.Held, Store.Zones, Keyed, Owned;
  }

  // The entry is as it was when it was handed over.
  ghost predicate Intact(st: Store, x: nat, d: Datum)
    reads st`dropped, st`given
    reads if x < |st.dropped| == |st.given| then Footprint(st, x) else {}
  {
    x < |st.dropped| == |st.given| && Sound(st.dropped[x], st.given[x]) && DatumOf(st.dropped[x], st.given[x]) == d
  }

  // entry_del_sync, up to the deallocation of the entry: each tuple of the sorted
  // set is freed once.
  method EntryDelSync(e: Entry, ghost fp: set<object>, ghost d: Datum) returns (ghost freed: seq<ZNode>)
    requires Sound(e, fp) && DatumOf(e, fp) == d
    modifies fp
    ensures NoDup(freed) && if d.Scores? then Z.Holds(Z.Scores(Elems(freed)), d.scores) else freed == []
  {
    hide Z.ZSet.Valid, Z.ZSet.Contents, Z.Holds;
    freed := [];
    if e.value.Scored? {
      e.value.zset.Parts();
      freed := e.value.zset.Clear();
    }
  }

  // The x-th job of a worker does not disturb the store.
  method RunJob(st: Store, x: nat, ghost d: Datum) returns (ghost freed: seq<ZNode>)
    requires st.Valid() && Intact(st, x, d)
    modifies Footprint(st, x)
    ensures st.Valid() && st.Model() == old(st.Model()) && st.dropped == old(st.dropped) && st.given == old(st.given)
    ensures NoDup(freed) && if d.Scores? then Z.Holds(Z.Scores(Elems(freed)), d.scores) else freed == []
    ensures forall y, b :: y != x && old(Intact(st, y, b)) ==> Intact(st, y, b)
  {
    hide Store.Valid, Store.Model, HandedOver, Sound, DatumOf, Z.Holds, Store.World;
    GivenApart(st);
    freed := EntryDelSync(st.dropped[x], st.given[x], d);
  }

  lemma LentApart(sv: Server)
    requires sv.Sound()
    ensures sv.st.Valid() && sv.st.Lent !! Parts(sv)
    ensures forall x :: 0 <= x < |sv.st.dropped| ==> sv.st.dropped[x] !in Parts(sv) && sv !in Footprint(sv.st, x)
  {
    GivenApart(sv.st);
    hide Store.Valid, Conn.Valid;
    forall c | c in Elems(sv.conns) ensures c.Clear(sv.st) {
    }
  }

  // However long the event loop runs on, it leaves an entry that has been handed
  // over as it is: the destructor finds the sorted set that was given up.
  method LeftToPool(sv: Server, n: nat, num: Numbers, last: nat, ghost x: nat, ghost d: Datum)
    returns (done: nat, now: nat, ghost y: Run)
    requires sv.Sound() && sv.st.Valid() && sv.ActiveBy(last) && ShortDb(sv.st.Model()) && Intact(sv.st, x, d)
    modifies sv`fd2conn, sv`conns, sv`nodes, Parts(sv)
    ensures sv.Sound() && Intact(sv.st, x, d)
    ensures sv.st.dropped[x] == old(sv.st.dropped[x]) && sv.st.given[x] == old(sv.st.given[x])
  {
    hide Server.Sound, Store.Valid, Store.Model, Sound, DatumOf, Parts;
    LentApart(sv);
    GivenApart(sv.st);
    ghost var e, fp := sv.st.dropped[x], sv.st.given[x];
    assert Footprint(sv.st, x) <= sv.st.Lent && fp <= Footprint(sv.st, x);
    assert e !in Parts(sv) && fp !! Parts(sv) && sv !in fp;
    done, now, y := Rounds(sv, n, num, last);
    GivenApart(sv.st);
    assert sv.st.dropped[x] == e && sv.st.given[x] == fp;
  }
}
