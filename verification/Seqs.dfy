// Facts about sequences that several components share.

module Seqs {
  ghost predicate NoDup<T>(s: seq<T>) {
    forall i, j :: 0 <= i < j < |s| ==> s[i] != s[j]
  }

  ghost function Elems<T>(s: seq<T>): set<T> {
    set x | x in s
  }

  // s with its k-th element left out.
  ghost function Without<T>(s: seq<T>, k: nat): (r: seq<T>)
    requires k < |s|
    ensures |r| == |s| - 1
    ensures forall i :: 0 <= i < |r| ==> r[i] == s[if i < k then i else i + 1]
  {
    s[..k] + s[k + 1..]
  }

  lemma ElemsIn<T>(a: seq<T>, b: seq<T>)
    requires Elems(a) <= Elems(b)
    ensures forall x :: x in a ==> x in b
  {
    forall x | x in a ensures x in b {
      assert x in Elems(a);
    }
  }

  lemma ElemsConcat<T>(a: seq<T>, b: seq<T>)
    ensures Elems(a + b) == Elems(a) + Elems(b)
    ensures NoDup(a) && NoDup(b) && Elems(a) !! Elems(b) ==> NoDup(a + b)
  {
    if NoDup(a) && NoDup(b) && Elems(a) !! Elems(b) {
      forall i, j | 0 <= i < j < |a + b| ensures (a + b)[i] != (a + b)[j] {
        if i < |a| <= j { assert (a + b)[i] in Elems(a) && (a + b)[j] in Elems(b); }
      }
    }
  }

  lemma NoDupConcat<T>(a: seq<T>, b: seq<T>)
    ensures NoDup(a + b) <==> NoDup(a) && NoDup(b) && Elems(a) !! Elems(b)
  {
    var s := a + b;
    ElemsConcat(a, b);
    if NoDup(s) {
      forall i, j | 0 <= i < j < |a| ensures a[i] != a[j] { assert s[i] != s[j]; }
      forall i, j | 0 <= i < j < |b| ensures b[i] != b[j] { assert s[|a| + i] != s[|a| + j]; }
      forall i, j | 0 <= i < |a| && 0 <= j < |b| ensures a[i] != b[j] { assert s[i] != s[|a| + j]; }
    }
  }

  lemma NoDupAround<T>(a: seq<T>, n: T, b: seq<T>)
    ensures NoDup(a + [n] + b) <==>
      NoDup(a) && NoDup(b) && n !in a && n !in b && Elems(a) !! Elems(b)
    ensures NoDup(a + [n] + b) ==> NoDup(a + b)
  {
    NoDupConcat(a + [n], b);
    NoDupConcat(a, [n]);
    NoDupConcat(a, b);
    ElemsConcat(a, [n]);
    assert Elems([n]) == {n};
  }

  lemma {:induction false} NoDupSize<T>(s: seq<T>)
    requires NoDup(s)
    ensures |s| == |Elems(s)|
  {
    if s != [] {
      var r, x := s[..|s| - 1], s[|s| - 1];
      NoDupSize(r);
      assert s == r + [x];
      ElemsConcat(r, [x]);
      assert Elems([x]) == {x};
      assert x !in r;
    }
  }

  lemma WithoutElems<T>(s: seq<T>, i: nat)
    requires i < |s| && NoDup(s)
    ensures Elems(Without(s, i)) == Elems(s) - {s[i]} && NoDup(Without(s, i))
  {
    var t := Without(s, i);
    forall x | x in s && x != s[i] ensures x in t {
      var j :| 0 <= j < |s| && s[j] == x;
      assert t[if j < i then j else j - 1] == x;
    }
  }
}
