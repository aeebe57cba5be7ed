// The TTL phase of process_timers in lib/server/timer.cpp.

module Timers {
  import opened Basics
  import opened Seqs
  import opened Commands
  import opened Stores

  const K_MAX_WORKS: nat := 2000

  // get_monotonic_msec: some time not before the last one.
  method Clock(last: nat) returns (now: nat)
    ensures now >= last
  {
    now :| now >= last;
  }

  ghost predicate Due(m: Db, k: Bytes, now: nat) {
    k in m && m[k].expire.Some? && m[k].expire.value < now
  }

  ghost function DueKeys(m: Db, now: nat): set<Bytes> {
    set k | k in m && Due(m, k, now)
  }

  // These keys are due, each one once, the earliest first; and all that is due
  // later than one of them comes after it, removed or not.
  ghost predicate InTurn(m: Db, now: nat, keys: seq<Bytes>) {
    NoDup(keys) && (forall i :: 0 <= i < |keys| ==> Due(m, keys[i], now)) &&
    (forall i, j :: 0 <= i < j < |keys| ==> m[keys[i]].expire.value <= m[keys[j]].expire.value) &&
    forall i, k :: 0 <= i < |keys| && k in m - Elems(keys) && m[k].expire.Some? ==>
      m[keys[i]].expire.value <= m[k].expire.value
  }

  lemma InTurnNext(m: Db, now: nat, keys: seq<Bytes>, key: Bytes)
    requires InTurn(m, now, keys) && key in m - Elems(keys) && Due(m, key, now)
    requires forall k :: k in m - Elems(keys) && m[k].expire.Some? ==> m[key].expire.value <= m[k].expire.value
    ensures InTurn(m, now, keys + [key]) && m - Elems(keys + [key]) == m - Elems(keys) - {key}
  {
    ElemsConcat(keys, [key]);
    assert Elems([key]) == {key};
    NoDupConcat(keys, [key]);
  }

  // Either everything due is among the keys, or there are this many.
  lemma InTurnCount(m: Db, now: nat, keys: seq<Bytes>)
    requires InTurn(m, now, keys)
    ensures |keys| <= |DueKeys(m, now)|
    ensures (forall k :: k in m - Elems(keys) ==> !Due(m, k, now)) ==> |keys| == |DueKeys(m, now)|
  {
    NoDupSize(keys);
    forall k | k in Elems(keys) ensures k in DueKeys(m, now) {
      var i :| 0 <= i < |keys| && keys[i] == k;
    }
    SubsetSize(Elems(keys), DueKeys(m, now));
    if forall k :: k in m - Elems(keys) ==> !Due(m, k, now) {
      assert forall k :: k in DueKeys(m, now) ==> k in Elems(keys);
      assert DueKeys(m, now) == Elems(keys);
    }
  }

  lemma {:induction false} SubsetSize<T>(a: set<T>, b: set<T>)
    requires a <= b
    ensures |a| <= |b|
  {
    if x :| x in a {
      SubsetSize(a - {x}, b - {x});
    }
  }

  // The body of the loop: the key of the first heap item goes.
  method ExpireFirst(st: Store) returns (ghost key: Bytes)
    requires st.Valid() && st.heap.a != []
    modifies st.Repr()
    ensures st.Valid() && st.Onward()
    ensures key in old(st.Model()) && st.Model() == old(st.Model()) - {key}
    ensures old(st.Model())[key].expire == Some(old(st.heap.a[0].val))
    ensures forall k :: k in old(st.Model()) && old(st.Model())[k].expire.Some? ==>
      old(st.heap.a[0].val) <= old(st.Model())[k].expire.value
  {
    hide Store.Valid, Store.Model;
    st.FirstDue();
    var e := st.heap.a[0].ref;
    key := e.key;
    st.DeleteEntry(e);
  }

  // The second loop of process_timers: the earliest deadlines before now go,
  // at most K_MAX_WORKS + 1 of them, and nothing else changes.
  method ExpireKeys(st: Store, now: nat) returns (ghost gone: seq<Bytes>)
    requires st.Valid()
    modifies st.Repr()
    ensures st.Valid() && st.Onward()
    ensures InTurn(old(st.Model()), now, gone) && st.Model() == old(st.Model()) - Elems(gone)
    ensures |gone| == Min(K_MAX_WORKS + 1, |DueKeys(old(st.Model()), now)|)
  {
    hide Store.Valid, Store.Model, InTurn;
    ghost var m := st.Model();
    gone := [];
    assert m - Elems(gone) == m && InTurn(m, now, gone) by { NothingYet(m, now); }
    var nworks := 0;
    while st.heap.a != [] && st.heap.a[0].val < now
      invariant st.Valid() && st.Onward()
      invariant InTurn(m, now, gone) && st.Model() == m - Elems(gone)
      invariant nworks == |gone| <= K_MAX_WORKS
      decreases K_MAX_WORKS - nworks
    {
      ghost var key := ExpireFirst(st);
      InTurnNext(m, now, gone, key);
      gone := gone + [key];
      nworks := nworks + 1;
      if nworks - 1 >= K_MAX_WORKS {
        break;
      }
    }
    st.FirstDue();
    InTurnCount(m, now, gone);
  }

  lemma NothingYet(m: Db, now: nat)
    ensures InTurn(m, now, []) && m - Elems([]) == m
  {
  }
}
