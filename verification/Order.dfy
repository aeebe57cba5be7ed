// How members of a sorted set are ordered and hashed: zless in
// lib/server/zset.cpp and str_hash in inc/server/HashTable.h.

module Order {
  import opened Seqs
  import opened Basics

  datatype Pair = Pair(score: real, name: Bytes)

  // memcmp over the common length.
  function Memcmp(a: Bytes, b: Bytes): int {
    if a == [] || b == [] then 0
    else if a[0] != b[0] then a[0] - b[0]
    else Memcmp(a[1..], b[1..])
  }

  predicate NameLess(a: Bytes, b: Bytes) {
    var rv := Memcmp(a, b);
    if rv != 0 then rv < 0 else |a| < |b|
  }

  // zless: by score, then by name.
  predicate Less(p: Pair, q: Pair) {
    if p.score != q.score then p.score < q.score else NameLess(p.name, q.name)
  }

  // str_hash, in 32 bits.
  function StrHash(s: Bytes): nat {
    if s == [] then 0x811C9DC5
    else ((StrHash(s[..|s| - 1]) + s[|s| - 1]) * 0x01000193) % 0x1_0000_0000
  }

  // The factor has an inverse in 32 bits, so that strings which differ in the
  // last byte only have different hashes.
  lemma HashTellsLast(s: Bytes, a: byte, b: byte)
    ensures StrHash(s + [a]) == StrHash(s + [b]) ==> a == b
  {
    assert (s + [a])[..|s|] == s && (s + [b])[..|s|] == s;
    if StrHash(s + [a]) == StrHash(s + [b]) {
      Cancel(StrHash(s), a, b);
    }
  }

  lemma Cancel(h: nat, a: byte, b: byte)
    requires (h + a) * 0x01000193 % 0x1_0000_0000 == (h + b) * 0x01000193 % 0x1_0000_0000
    ensures a == b
  {
    var x, y := h + a, h + b;
    assert x % 0x1_0000_0000 == y % 0x1_0000_0000 by {
      Invert(x);
      Invert(y);
    }
    Close(x, y);
  }

  lemma Close(x: nat, y: nat)
    requires x % 0x1_0000_0000 == y % 0x1_0000_0000 && -256 < x - y < 256
    ensures x == y
  {
  }

  lemma Invert(x: nat)
    ensures x * 0x01000193 % 0x1_0000_0000 * 0x359C449B % 0x1_0000_0000 == x % 0x1_0000_0000
  {
    var u, r := x * 0x01000193 / 0x1_0000_0000, x * 0x01000193 % 0x1_0000_0000;
    assert x * 0x01000193 == 0x1_0000_0000 * u + r;
    assert r * 0x359C449B == x + 0x1_0000_0000 * (0x359C99 * x - 0x359C449B * u);
    Multiple(x, 0x359C99 * x - 0x359C449B * u);
  }

  lemma Multiple(x: int, k: int)
    ensures (x + 0x1_0000_0000 * k) % 0x1_0000_0000 == x % 0x1_0000_0000
  {
  }

  // Lexicographic order: a is a proper prefix of b, or smaller where they
  // first differ.
  ghost predicate LexBelow(a: Bytes, b: Bytes, k: nat) {
    k <= |a| && k < |b| && a[..k] == b[..k] && (k == |a| || a[k] < b[k])
  }

  lemma LexFirst(a: Bytes, b: Bytes, k: nat)
    requires LexBelow(a, b, k)
    ensures k > 0 ==> a != [] && b != [] && a[0] == b[0]
  {
    assert k > 0 ==> a[..k][0] == b[..k][0];
  }

  lemma {:induction false} NameLessIsLexicographic(a: Bytes, b: Bytes)
    ensures NameLess(a, b) <==> exists k: nat :: LexBelow(a, b, k)
  {
    if a == [] || b == [] {
      if NameLess(a, b) { assert LexBelow(a, b, 0); }
    } else if a[0] != b[0] {
      if NameLess(a, b) { assert LexBelow(a, b, 0); }
      if k: nat :| LexBelow(a, b, k) { LexFirst(a, b, k); }
    } else {
      NameLessIsLexicographic(a[1..], b[1..]);
      if NameLess(a, b) {
        var k: nat :| LexBelow(a[1..], b[1..], k);
        assert a[..k + 1] == [a[0]] + a[1..][..k] && b[..k + 1] == [b[0]] + b[1..][..k];
        assert LexBelow(a, b, k + 1);
      }
      if k: nat :| LexBelow(a, b, k) {
        assert k > 0;
        assert a[1..][..k - 1] == a[..k][1..] && b[1..][..k - 1] == b[..k][1..];
        assert LexBelow(a[1..], b[1..], k - 1);
      }
    }
  }

  lemma {:induction false} MemcmpOpposite(a: Bytes, b: Bytes)
    ensures Memcmp(a, b) == 0 - Memcmp(b, a)
    ensures Memcmp(a, b) == 0 && |a| == |b| ==> a == b
    ensures Memcmp(a, a) == 0
  {
    if a != [] { MemcmpOpposite(a[1..], a[1..]); }
    if a != [] && b != [] && a[0] == b[0] {
      MemcmpOpposite(a[1..], b[1..]);
      if a[1..] == b[1..] { assert a == [a[0]] + a[1..] && b == [b[0]] + b[1..]; }
    }
  }

  lemma {:induction false} NameLessTransitive(a: Bytes, b: Bytes, c: Bytes)
    requires NameLess(a, b) && NameLess(b, c)
    ensures NameLess(a, c)
  {
    if a != [] && b != [] && c != [] && a[0] == b[0] == c[0] {
      NameLessTransitive(a[1..], b[1..], c[1..]);
    }
  }

  // The lower score comes first; equal scores are told apart by name.
  ghost predicate Precedes(p: Pair, q: Pair) {
    p.score < q.score || (p.score == q.score && exists k: nat :: LexBelow(p.name, q.name, k))
  }

  lemma LessIs(p: Pair, q: Pair)
    ensures Less(p, q) <==> Precedes(p, q)
  {
    NameLessIsLexicographic(p.name, q.name);
  }

  // Less is a strict total order.
  lemma LessTotal(p: Pair, q: Pair)
    ensures p == q || Less(p, q) || Less(q, p)
    ensures !(Less(p, q) && Less(q, p)) && !Less(p, p)
  {
    MemcmpOpposite(p.name, q.name);
    MemcmpOpposite(p.name, p.name);
  }

  lemma LessTransitive(p: Pair, q: Pair, r: Pair)
    requires Less(p, q) && Less(q, r)
    ensures Less(p, r)
  {
    if p.score == q.score == r.score {
      NameLessTransitive(p.name, q.name, r.name);
    }
  }

  // ----- Sorted lists of pairs and the maps they stand for -----

  ghost predicate Sorted(s: seq<Pair>) {
    forall i, j :: 0 <= i < j < |s| ==> Less(s[i], s[j])
  }

  // A sorted list has the scores upwards, and the names of equal scores too.
  lemma SortedIs(s: seq<Pair>)
    ensures Sorted(s) <==> forall i, j :: 0 <= i < j < |s| ==> Precedes(s[i], s[j])
  {
    hide Less, Precedes;
    forall i, j | 0 <= i < j < |s| ensures Less(s[i], s[j]) <==> Precedes(s[i], s[j]) {
      LessIs(s[i], s[j]);
    }
  }

  ghost predicate UniqueNames(s: seq<Pair>) {
    forall i, j :: 0 <= i < |s| && 0 <= j < |s| && s[i].name == s[j].name ==> i == j
  }

  ghost function Dict(s: seq<Pair>): map<Bytes, real> {
    if s == [] then map[] else Dict(s[..|s| - 1])[s[|s| - 1].name := s[|s| - 1].score]
  }

  lemma {:induction false} DictHas(s: seq<Pair>)
    requires UniqueNames(s)
    ensures forall i :: 0 <= i < |s| ==> s[i].name in Dict(s) && Dict(s)[s[i].name] == s[i].score
    ensures forall n :: n in Dict(s) ==> Pair(Dict(s)[n], n) in s
  {
    if s != [] {
      var r, x := s[..|s| - 1], s[|s| - 1];
      DictHas(r);
      assert s == r + [x];
      forall i | 0 <= i < |s| ensures s[i].name in Dict(s) && Dict(s)[s[i].name] == s[i].score {
        if i < |r| { assert r[i] == s[i]; }
      }
      forall n | n in Dict(s) ensures Pair(Dict(s)[n], n) in s {
        if n != x.name { assert Pair(Dict(r)[n], n) in r; } else { assert s[|s| - 1] == x; }
      }
    }
  }

  lemma {:induction false} DictSize(s: seq<Pair>)
    requires UniqueNames(s)
    ensures |Dict(s)| == |s|
  {
    if s != [] {
      var r, x := s[..|s| - 1], s[|s| - 1];
      DictSize(r);
      LastName(s);
      hide UniqueNames;
      assert Dict(s).Keys == Dict(r).Keys + {x.name};
      assert |Dict(r).Keys| == |Dict(r)| && |Dict(s).Keys| == |Dict(s)|;
    }
  }

  lemma LastName(s: seq<Pair>)
    requires s != [] && UniqueNames(s)
    ensures s[|s| - 1].name !in Dict(s[..|s| - 1])
  {
    var r, x := s[..|s| - 1], s[|s| - 1];
    DictHas(r);
    hide Dict;
    forall n | n in Dict(r) ensures n != x.name {
      var i :| 0 <= i < |r| && r[i] == Pair(Dict(r)[n], n);
      assert s[i] == r[i];
    }
  }

  // A sorted list is determined by its members, hence by the map.
  lemma {:induction false} SortedUnique(s: seq<Pair>, t: seq<Pair>)
    requires Sorted(s) && Sorted(t) && forall p :: p in s <==> p in t
    ensures s == t
    decreases |s|
  {
    assert (s != [] ==> s[0] in s) && (t != [] ==> t[0] in t);
    if s != [] && t != [] {
      var i :| 0 <= i < |t| && t[i] == s[0];
      var j :| 0 <= j < |s| && s[j] == t[0];
      LessTotal(s[0], t[0]);
      assert s[0] == t[0];
      forall p ensures p in s[1..] <==> p in t[1..] {
        LessTotal(p, p);
        assert p in s <==> p == s[0] || p in s[1..];
        assert p in t <==> p == t[0] || p in t[1..];
      }
      SortedUnique(s[1..], t[1..]);
      assert s == [s[0]] + s[1..] && t == [t[0]] + t[1..];
    }
  }

  lemma DictDetermines(s: seq<Pair>, t: seq<Pair>)
    requires Sorted(s) && Sorted(t) && UniqueNames(s) && UniqueNames(t) && Dict(s) == Dict(t)
    ensures s == t
  {
    DictHas(s);
    DictHas(t);
    forall p ensures p in s <==> p in t {
      if p in s { assert p.name in Dict(t) && Pair(Dict(t)[p.name], p.name) == p; }
      if p in t { assert p.name in Dict(s) && Pair(Dict(s)[p.name], p.name) == p; }
    }
    SortedUnique(s, t);
  }

  // ----- Searching and changing sorted lists -----

  ghost predicate AllBelow(s: seq<Pair>, p: Pair) {
    forall i :: 0 <= i < |s| ==> Less(s[i], p)
  }

  ghost predicate NoneBelow(s: seq<Pair>, p: Pair) {
    forall i :: 0 <= i < |s| ==> !Less(s[i], p)
  }

  lemma SortedInsert(a: seq<Pair>, p: Pair, b: seq<Pair>)
    requires Sorted(a + b) && AllBelow(a, p) && NoneBelow(b, p) && p !in b
    ensures Sorted(a + [p] + b)
  {
    hide Less;
    var s, t := a + b, a + [p] + b;
    forall i, j | 0 <= i < j < |t| ensures Less(t[i], t[j]) {
      if i < |a| {
        assert t[i] == s[i] == a[i];
        if j < |a| { assert t[j] == s[j]; }
        if j > |a| { assert t[j] == s[j - 1]; }
      } else if i == |a| {
        assert t[j] == b[j - |a| - 1];
        LessTotal(p, t[j]);
      } else {
        assert t[i] == s[i - 1] && t[j] == s[j - 1];
      }
    }
  }

  lemma SortedParts(a: seq<Pair>, b: seq<Pair>)
    requires Sorted(a + b)
    ensures Sorted(a) && Sorted(b)
    ensures forall i, j :: 0 <= i < |a| && 0 <= j < |b| ==> Less(a[i], b[j])
  {
    hide Less;
    var s := a + b;
    forall i, j | 0 <= i < j < |a| ensures Less(a[i], a[j]) {
      assert s[i] == a[i] && s[j] == a[j];
    }
    forall i, j | 0 <= i < j < |b| ensures Less(b[i], b[j]) {
      assert s[|a| + i] == b[i] && s[|a| + j] == b[j];
    }
    forall i, j | 0 <= i < |a| && 0 <= j < |b| ensures Less(a[i], b[j]) {
      assert s[i] == a[i] && s[|a| + j] == b[j];
    }
  }

  // Where a search turns right, everything to the left is below the key too.
  lemma SearchRight(a: seq<Pair>, x: Pair, b: seq<Pair>, key: Pair)
    requires Sorted(a + [x] + b) && Less(x, key)
    ensures AllBelow(a + [x], key)
  {
    hide Less;
    SortedParts(a + [x], b);
    SortedParts(a, [x]);
    forall i | 0 <= i < |a| ensures Less(a[i], key) {
      assert Less(a[i], [x][0]);
      LessTransitive(a[i], x, key);
    }
  }

  // Where it turns left, nothing to the right is below the key.
  lemma SearchLeft(a: seq<Pair>, x: Pair, b: seq<Pair>, key: Pair)
    requires Sorted(a + [x] + b) && !Less(x, key)
    ensures NoneBelow([x] + b, key)
  {
    hide Less;
    assert a + [x] + b == a + ([x] + b);
    SortedParts(a, [x] + b);
    forall i | 0 <= i < |b| ensures !Less(b[i], key) {
      assert Less(([x] + b)[0], ([x] + b)[i + 1]);
      if Less(b[i], key) { LessTransitive(x, b[i], key); }
    }
  }

  // ----- What a change does to the map -----

  lemma SortedWithout(s: seq<Pair>, i: nat)
    requires i < |s| && Sorted(s)
    ensures Sorted(Without(s, i))
  {
    hide Less;
    var t := Without(s, i);
    forall j, k | 0 <= j < k < |t| ensures Less(t[j], t[k]) {
      assert t[j] == s[if j < i then j else j + 1] && t[k] == s[if k < i then k else k + 1];
    }
  }

  // A list of pairs with unique names stands for m.
  ghost predicate StandsFor(s: seq<Pair>, m: map<Bytes, real>) {
    UniqueNames(s) && (forall p :: p in s ==> p.name in m && m[p.name] == p.score) &&
    forall n :: n in m ==> Pair(m[n], n) in s
  }

  lemma StandsForDict(s: seq<Pair>, m: map<Bytes, real>)
    requires UniqueNames(s)
    ensures StandsFor(s, m) <==> m == Dict(s)
  {
    DictHas(s);
    forall p | p in s ensures p.name in Dict(s) && Dict(s)[p.name] == p.score {
      var i :| 0 <= i < |s| && s[i] == p;
    }
    if StandsFor(s, m) {
      forall n ensures n in m <==> n in Dict(s) {
        if n in m { assert Pair(m[n], n) in s; }
        if n in Dict(s) { assert Pair(Dict(s)[n], n) in s; }
      }
      forall n | n in m ensures m[n] == Dict(s)[n] {
        assert Pair(m[n], n) in s;
      }
    }
  }

  // ----- Range queries -----

  // How many pairs at the front are below the key.
  ghost function RankOfKey(s: seq<Pair>, key: Pair): (r: nat)
    ensures r <= |s|
  {
    if s != [] && Less(s[0], key) then 1 + RankOfKey(s[1..], key) else 0
  }

  lemma {:induction false} RankOfKeyIs(s: seq<Pair>, key: Pair, k: nat)
    requires k <= |s| && AllBelow(s[..k], key) && NoneBelow(s[k..], key)
    ensures RankOfKey(s, key) == k
    decreases k
  {
    hide Less;
    if k > 0 {
      assert s[0] == s[..k][0];
      assert s[1..][..k - 1] == s[..k][1..] && s[1..][k - 1..] == s[k..];
      RankOfKeyIs(s[1..], key, k - 1);
    } else if s != [] {
      assert s[0] == s[k..][0];
    }
  }

  // What a range query answers: from offset places after the first pair that
  // is not below the key, ceil(limit / 2) pairs or as many as there are.
  ghost function Slice(s: seq<Pair>, key: Pair, offset: int, limit: int): seq<Pair> {
    var start := RankOfKey(s, key) + offset;
    if limit <= 0 || RankOfKey(s, key) == |s| || start < 0 || start >= |s| then []
    else s[start..Min(|s|, start + (limit + 1) / 2)]
  }

  // What that is, place by place, for a list that is below the key up to k.
  lemma SliceIs(s: seq<Pair>, key: Pair, k: nat, offset: int, limit: int)
    requires k <= |s| && AllBelow(s[..k], key) && NoneBelow(s[k..], key)
    ensures var r := Slice(s, key, offset, limit);
      if limit > 0 && k < |s| && 0 <= k + offset < |s| then
        |r| == Min(|s| - k - offset, (limit + 1) / 2) && forall i :: 0 <= i < |r| ==> r[i] == s[k + offset + i]
      else r == []
  {
    RankOfKeyIs(s, key, k);
  }

  // The list splits at the first pair that is not below the key.
  lemma {:induction false} SplitAtKey(s: seq<Pair>, key: Pair) returns (k: nat)
    requires Sorted(s)
    ensures k <= |s| && AllBelow(s[..k], key) && NoneBelow(s[k..], key)
  {
    hide Less;
    if s == [] || !Less(s[0], key) {
      k := 0;
      forall i | 0 <= i < |s| ensures !Less(s[i], key) {
        if i > 0 && Less(s[i], key) { LessTransitive(s[0], s[i], key); }
      }
    } else {
      var j := SplitAtKey(s[1..], key);
      k := j + 1;
      assert s[..k] == [s[0]] + s[1..][..j] && s[k..] == s[1..][j..];
    }
  }
}
