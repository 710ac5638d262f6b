/**
 * Order-preserving selections, stable sorting by a key, and first/last
 * deduplication by a key, over any element type. Orders on keys are
 * parameters, so the proofs rely only on their being strict orders.
 */
module Sequences {

  // ---- concatenation ----

  /** Concatenation is associative; stated once so that larger proofs need not rediscover it. */
  lemma Assoc<T>(a: seq<T>, b: seq<T>, c: seq<T>)
    ensures (a + b) + c == a + (b + c)
  {
  }

  /** A non-empty sequence is its prefix followed by its last element. */
  lemma InitLast<T>(s: seq<T>)
    requires s != []
    ensures s[..|s| - 1] + [s[|s| - 1]] == s
  {
  }

  /** Dropping the last element of a concatenation with a non-empty right part. */
  lemma AppendInit<T>(a: seq<T>, b: seq<T>)
    requires b != []
    ensures (a + b)[..|a + b| - 1] == a + b[..|b| - 1]
  {
  }

  /** The first `i` elements of the first `i + 1`. */
  lemma PrefixOfPrefix<T>(s: seq<T>, i: nat)
    requires i < |s|
    ensures s[..i + 1][..i] == s[..i]
  {
  }

  /** A sequence splits around position `i`. */
  lemma SplitAt<T>(s: seq<T>, i: nat)
    requires i < |s|
    ensures s == s[..i] + [s[i]] + s[i + 1..]
  {
  }

  /** The middle part of three sequences one after the other. */
  lemma Middle<T>(x: seq<T>, y: seq<T>, z: seq<T>)
    ensures (x + y + z)[|x|..|x| + |y|] == y
  {
  }

  // ---- subsequences ----

  /** `a` is `b` with some elements left out and the rest in their original order. */
  predicate Subseq<T(==)>(a: seq<T>, b: seq<T>)
    decreases |b|
  {
    if a == [] then true
    else if b == [] then false
    else (a[0] == b[0] && Subseq(a[1..], b[1..])) || Subseq(a, b[1..])
  }

  lemma {:induction false} SubseqMultiset<T>(a: seq<T>, b: seq<T>)
    requires Subseq(a, b)
    ensures multiset(a) <= multiset(b)
    decreases |b|
  {
    if a != [] {
      if a[0] == b[0] && Subseq(a[1..], b[1..]) {
        SubseqMultiset(a[1..], b[1..]);
        assert a == [a[0]] + a[1..];
        assert b == [b[0]] + b[1..];
      } else {
        SubseqMultiset(a, b[1..]);
        assert b == [b[0]] + b[1..];
      }
    }
  }

  lemma SubseqMembers<T>(a: seq<T>, b: seq<T>)
    requires Subseq(a, b)
    ensures forall x :: x in a ==> x in b
  {
    SubseqMultiset(a, b);
    forall x | x in a ensures x in b {
      assert x in multiset(a);
    }
  }

  lemma {:induction false} SubseqReflexive<T>(a: seq<T>)
    ensures Subseq(a, a)
  {
    if a != [] { SubseqReflexive(a[1..]); }
  }

  lemma {:induction false} SubseqTransitive<T>(a: seq<T>, b: seq<T>, c: seq<T>)
    requires Subseq(a, b) && Subseq(b, c)
    ensures Subseq(a, c)
    decreases |c|
  {
    if a != [] {
      if b[0] == c[0] && Subseq(b[1..], c[1..]) {
        if a[0] == b[0] && Subseq(a[1..], b[1..]) {
          SubseqTransitive(a[1..], b[1..], c[1..]);
        } else {
          SubseqTransitive(a, b[1..], c[1..]);
        }
      } else {
        SubseqTransitive(a, b, c[1..]);
      }
    }
  }

  // ---- distinct keys ----

  /** No two elements share a key. */
  ghost predicate DistinctBy<T, K>(s: seq<T>, key: T -> K) {
    forall i, j :: 0 <= i < j < |s| ==> key(s[i]) != key(s[j])
  }

  /** Some element of `s` has key `v`. */
  predicate Occurs<T, K(==)>(s: seq<T>, v: K, key: T -> K) {
    exists k :: 0 <= k < |s| && key(s[k]) == v
  }

  lemma DistinctMembers<T, K>(b: seq<T>, x: T, y: T, key: T -> K)
    requires DistinctBy(b, key) && x in b && y in b && x != y
    ensures key(x) != key(y)
  {
    var p :| 0 <= p < |b| && b[p] == x;
    var q :| 0 <= q < |b| && b[q] == y;
    if p < q { assert key(b[p]) != key(b[q]); } else { assert key(b[q]) != key(b[p]); }
  }

  /** A value occurring twice in the multiset of `b` sits at two positions. */
  lemma {:induction false} TwiceInSeq<T>(b: seq<T>, x: T)
    requires multiset(b)[x] >= 2
    ensures exists p, q :: 0 <= p < q < |b| && b[p] == x && b[q] == x
  {
    assert b == [b[0]] + b[1..];
    if b[0] == x {
      assert x in multiset(b[1..]);
      var q :| 0 <= q < |b[1..]| && b[1..][q] == x;
      assert b[q + 1] == x;
    } else {
      TwiceInSeq(b[1..], x);
      var p, q :| 0 <= p < q < |b[1..]| && b[1..][p] == x && b[1..][q] == x;
      assert b[p + 1] == x && b[q + 1] == x;
    }
  }

  /** Distinct keys survive taking a sub-multiset (in particular a subsequence or a permutation). */
  lemma {:induction false} DistinctSubMultiset<T, K>(a: seq<T>, b: seq<T>, key: T -> K)
    requires DistinctBy(b, key) && multiset(a) <= multiset(b)
    ensures DistinctBy(a, key)
  {
    forall i, j | 0 <= i < j < |a| ensures key(a[i]) != key(a[j]) {
      assert a[i] in multiset(a) && a[j] in multiset(a);
      if a[i] == a[j] {
        assert multiset(a)[a[i]] >= 2 by {
          assert a == a[..i] + [a[i]] + a[i + 1..j] + [a[j]] + a[j + 1..];
        }
        TwiceInSeq(b, a[i]);
      } else {
        DistinctMembers(b, a[i], a[j], key);
      }
    }
  }

  // ---- keep-first deduplication ----

  /** Row `i` is the first element with its key. */
  ghost predicate FirstOccurrence<T, K>(s: seq<T>, i: int, key: T -> K)
    requires 0 <= i < |s|
  {
    forall j :: 0 <= j < i ==> key(s[j]) != key(s[i])
  }

  /** Keeps the first element for each key not already in `seen`. */
  function KeepFirst<T, K(==)>(s: seq<T>, key: T -> K, seen: set<K>): seq<T>
  {
    if s == [] then []
    else if key(s[0]) in seen then KeepFirst(s[1..], key, seen)
    else [s[0]] + KeepFirst(s[1..], key, seen + {key(s[0])})
  }

  lemma {:induction false} KeepFirstSubseq<T, K>(s: seq<T>, key: T -> K, seen: set<K>)
    ensures Subseq(KeepFirst(s, key, seen), s)
    ensures forall k :: 0 <= k < |KeepFirst(s, key, seen)| ==> key(KeepFirst(s, key, seen)[k]) !in seen
  {
    if s != [] {
      if key(s[0]) in seen {
        KeepFirstSubseq(s[1..], key, seen);
      } else {
        KeepFirstSubseq(s[1..], key, seen + {key(s[0])});
      }
    }
  }

  lemma {:induction false} KeepFirstDistinctKeys<T, K>(s: seq<T>, key: T -> K, seen: set<K>)
    ensures DistinctBy(KeepFirst(s, key, seen), key)
  {
    if s != [] && key(s[0]) !in seen {
      var seen' := seen + {key(s[0])};
      KeepFirstDistinctKeys(s[1..], key, seen');
      KeepFirstSubseq(s[1..], key, seen');
      var out := KeepFirst(s, key, seen);
      var tail := KeepFirst(s[1..], key, seen');
      assert out == [s[0]] + tail;
      forall i, j | 0 <= i < j < |out| ensures key(out[i]) != key(out[j]) {
        assert out[j] == tail[j - 1];
        if i > 0 { assert out[i] == tail[i - 1]; }
      }
    } else if s != [] {
      KeepFirstDistinctKeys(s[1..], key, seen);
    }
  }

  lemma {:induction false} KeepFirstKeepsFirst<T, K>(s: seq<T>, key: T -> K, seen: set<K>)
    ensures forall i :: 0 <= i < |s| && key(s[i]) !in seen && FirstOccurrence(s, i, key) ==>
              s[i] in KeepFirst(s, key, seen)
  {
    if s != [] {
      var seen' := if key(s[0]) in seen then seen else seen + {key(s[0])};
      KeepFirstKeepsFirst(s[1..], key, seen');
      forall i | 0 <= i < |s| && key(s[i]) !in seen && FirstOccurrence(s, i, key)
        ensures s[i] in KeepFirst(s, key, seen)
      {
        if i > 0 {
          assert s[i] == s[1..][i - 1];
          assert key(s[i]) != key(s[0]);
          assert FirstOccurrence(s[1..], i - 1, key);
        }
      }
    }
  }

  lemma {:induction false} KeepFirstKeys<T, K>(s: seq<T>, key: T -> K, seen: set<K>)
    ensures forall v :: Occurs(KeepFirst(s, key, seen), v, key) <==> Occurs(s, v, key) && v !in seen
  {
    if s != [] {
      var seen' := if key(s[0]) in seen then seen else seen + {key(s[0])};
      KeepFirstKeys(s[1..], key, seen');
      KeepFirstSubseq(s[1..], key, seen');
      var out := KeepFirst(s, key, seen);
      var tail := KeepFirst(s[1..], key, seen');
      forall v ensures Occurs(out, v, key) <==> Occurs(s, v, key) && v !in seen {
        if Occurs(s, v, key) && v !in seen {
          var k :| 0 <= k < |s| && key(s[k]) == v;
          if k > 0 { assert key(s[1..][k - 1]) == v; }
          if key(s[0]) !in seen { assert key(out[0]) == key(s[0]); }
          if v != key(s[0]) || key(s[0]) in seen {
            assert Occurs(s[1..], v, key);
            var m :| 0 <= m < |tail| && key(tail[m]) == v;
            if key(s[0]) in seen { assert out == tail; } else { assert out[m + 1] == tail[m]; }
          }
        }
        if Occurs(out, v, key) {
          var m :| 0 <= m < |out| && key(out[m]) == v;
          if key(s[0]) in seen {
            assert out == tail;
          } else if m > 0 {
            assert out[m] == tail[m - 1];
          }
          if m > 0 || key(s[0]) in seen {
            var m' :| 0 <= m' < |tail| && key(tail[m']) == v;
            assert v !in seen';
            var k :| 0 <= k < |s[1..]| && key(s[1..][k]) == v;
            assert key(s[k + 1]) == v;
          } else {
            assert key(s[0]) == v;
          }
        }
      }
    }
  }

  /** A sequence whose keys are distinct and unseen is kept whole. */
  lemma {:induction false} KeepFirstAll<T, K>(s: seq<T>, key: T -> K, seen: set<K>)
    requires DistinctBy(s, key)
    requires forall k :: 0 <= k < |s| ==> key(s[k]) !in seen
    ensures KeepFirst(s, key, seen) == s
  {
    if s != [] {
      var seen' := seen + {key(s[0])};
      forall k | 0 <= k < |s[1..]| ensures key(s[1..][k]) !in seen' {
        assert s[1..][k] == s[k + 1];
      }
      KeepFirstAll(s[1..], key, seen');
      assert s == [s[0]] + s[1..];
    }
  }

  // ---- keep-last deduplication ----

  /** Row `i` is the last element with its key. */
  ghost predicate LastOccurrence<T, K>(s: seq<T>, i: int, key: T -> K)
    requires 0 <= i < |s|
  {
    forall j :: i < j < |s| ==> key(s[j]) != key(s[i])
  }

  /** Keeps the last element for each key. */
  function KeepLast<T, K(==)>(s: seq<T>, key: T -> K): seq<T>
  {
    if s == [] then []
    else if Occurs(s[1..], key(s[0]), key) then KeepLast(s[1..], key)
    else [s[0]] + KeepLast(s[1..], key)
  }

  lemma {:induction false} KeepLastSubseq<T, K>(s: seq<T>, key: T -> K)
    ensures Subseq(KeepLast(s, key), s)
  {
    if s != [] { KeepLastSubseq(s[1..], key); }
  }

  lemma {:induction false} KeepLastKeys<T, K>(s: seq<T>, key: T -> K)
    ensures forall v :: Occurs(KeepLast(s, key), v, key) <==> Occurs(s, v, key)
  {
    if s != [] {
      var rest := s[1..];
      KeepLastKeys(rest, key);
      var out := KeepLast(s, key);
      var tail := KeepLast(rest, key);
      forall v ensures Occurs(out, v, key) <==> Occurs(s, v, key) {
        if Occurs(s, v, key) {
          var k :| 0 <= k < |s| && key(s[k]) == v;
          if k > 0 {
            assert key(rest[k - 1]) == v;
            assert Occurs(rest, v, key);
            var m :| 0 <= m < |tail| && key(tail[m]) == v;
            if Occurs(rest, key(s[0]), key) { assert out == tail; } else { assert out[m + 1] == tail[m]; }
          } else if Occurs(rest, key(s[0]), key) {
            var m :| 0 <= m < |tail| && key(tail[m]) == v;
            assert out == tail;
          } else {
            assert key(out[0]) == v;
          }
        }
        if Occurs(out, v, key) {
          var m :| 0 <= m < |out| && key(out[m]) == v;
          if Occurs(rest, key(s[0]), key) {
            assert out == tail;
            var k :| 0 <= k < |rest| && key(rest[k]) == v;
            assert key(s[k + 1]) == v;
          } else if m > 0 {
            assert out[m] == tail[m - 1];
            assert Occurs(tail, v, key);
            var k :| 0 <= k < |rest| && key(rest[k]) == v;
            assert key(s[k + 1]) == v;
          } else {
            assert key(s[0]) == v;
          }
        }
      }
    }
  }

  lemma {:induction false} KeepLastDistinctKeys<T, K>(s: seq<T>, key: T -> K)
    ensures DistinctBy(KeepLast(s, key), key)
  {
    if s != [] {
      var rest := s[1..];
      KeepLastDistinctKeys(rest, key);
      if !Occurs(rest, key(s[0]), key) {
        KeepLastKeys(rest, key);
        var tail := KeepLast(rest, key);
        var out := KeepLast(s, key);
        assert out == [s[0]] + tail;
        assert !Occurs(tail, key(s[0]), key);
        forall i, j | 0 <= i < j < |out| ensures key(out[i]) != key(out[j]) {
          assert out[j] == tail[j - 1];
          if i > 0 { assert out[i] == tail[i - 1]; }
        }
      }
    }
  }

  lemma {:induction false} KeepLastKeepsLast<T, K>(s: seq<T>, key: T -> K)
    ensures forall i :: 0 <= i < |s| && LastOccurrence(s, i, key) ==> s[i] in KeepLast(s, key)
  {
    if s != [] {
      var rest := s[1..];
      KeepLastKeepsLast(rest, key);
      forall i | 0 <= i < |s| && LastOccurrence(s, i, key) ensures s[i] in KeepLast(s, key) {
        if i == 0 {
          forall k | 0 <= k < |rest| ensures key(rest[k]) != key(s[0]) {
            assert rest[k] == s[k + 1];
          }
        } else {
          assert s[i] == rest[i - 1];
          assert LastOccurrence(rest, i - 1, key);
        }
      }
    }
  }

  /** A sequence with distinct keys is kept whole. */
  lemma {:induction false} KeepLastAll<T, K>(s: seq<T>, key: T -> K)
    requires DistinctBy(s, key)
    ensures KeepLast(s, key) == s
  {
    if s != [] {
      forall k | 0 <= k < |s[1..]| ensures key(s[1..][k]) != key(s[0]) {
        assert s[1..][k] == s[k + 1];
      }
      KeepLastAll(s[1..], key);
      assert s == [s[0]] + s[1..];
    }
  }

  // ---- stable sorting by a key ----

  /** `lt` is irreflexive and transitive. */
  ghost predicate StrictOrder<K(!new)>(lt: (K, K) -> bool) {
    && (forall a :: !lt(a, a))
    && (forall a, b, c :: lt(a, b) && lt(b, c) ==> lt(a, c))
  }

  /** No element has a smaller key than an element before it. */
  ghost predicate SortedBy<T, K>(s: seq<T>, key: T -> K, lt: (K, K) -> bool) {
    forall i, j :: 0 <= i < j < |s| ==> !lt(key(s[j]), key(s[i]))
  }

  /** No element of `s` has a key below `v`. */
  ghost predicate NoneBelow<T, K>(s: seq<T>, v: K, key: T -> K, lt: (K, K) -> bool) {
    forall k :: 0 <= k < |s| ==> !lt(key(s[k]), v)
  }

  /** Inserts `x` after every element whose key is not above its own. */
  function InsertBy<T, K>(sorted: seq<T>, x: T, key: T -> K, lt: (K, K) -> bool): (r: seq<T>)
    ensures multiset(r) == multiset(sorted) + multiset{x}
  {
    if sorted == [] then [x]
    else if lt(key(x), key(sorted[0])) then [x] + sorted
    else
      assert sorted == [sorted[0]] + sorted[1..];
      [sorted[0]] + InsertBy(sorted[1..], x, key, lt)
  }

  /** Insertion sort by `key`; elements with equal keys keep their input order. */
  function SortBy<T, K>(s: seq<T>, key: T -> K, lt: (K, K) -> bool): (r: seq<T>)
    ensures multiset(r) == multiset(s)
  {
    if s == [] then []
    else
      assert s == s[..|s| - 1] + [s[|s| - 1]];
      InsertBy(SortBy(s[..|s| - 1], key, lt), s[|s| - 1], key, lt)
  }

  lemma PrependSorted<T, K>(x: T, s: seq<T>, key: T -> K, lt: (K, K) -> bool)
    requires SortedBy(s, key, lt) && NoneBelow(s, key(x), key, lt)
    ensures SortedBy([x] + s, key, lt)
  {
    var r := [x] + s;
    forall i, j | 0 <= i < j < |r| ensures !lt(key(r[j]), key(r[i])) {
      assert r[j] == s[j - 1];
      if i > 0 { assert r[i] == s[i - 1]; }
    }
  }

  lemma NoneBelowMultiset<T, K>(a: seq<T>, b: seq<T>, v: K, key: T -> K, lt: (K, K) -> bool)
    requires NoneBelow(b, v, key, lt) && multiset(a) <= multiset(b)
    ensures NoneBelow(a, v, key, lt)
  {
    forall k | 0 <= k < |a| ensures !lt(key(a[k]), v) {
      assert a[k] in multiset(a);
      var m :| 0 <= m < |b| && b[m] == a[k];
    }
  }

  lemma {:induction false} InsertBySorted<T, K(!new)>(sorted: seq<T>, x: T, key: T -> K, lt: (K, K) -> bool)
    requires StrictOrder(lt) && SortedBy(sorted, key, lt)
    ensures SortedBy(InsertBy(sorted, x, key, lt), key, lt)
  {
    if sorted != [] {
      assert SortedBy(sorted[1..], key, lt) && NoneBelow(sorted[1..], key(sorted[0]), key, lt);
      if lt(key(x), key(sorted[0])) {
        assert sorted == [sorted[0]] + sorted[1..];
        PrependSorted(x, sorted, key, lt);
      } else {
        var tail := InsertBy(sorted[1..], x, key, lt);
        InsertBySorted(sorted[1..], x, key, lt);
        assert NoneBelow(sorted[1..] + [x], key(sorted[0]), key, lt);
        NoneBelowMultiset(tail, sorted[1..] + [x], key(sorted[0]), key, lt);
        PrependSorted(sorted[0], tail, key, lt);
      }
    }
  }

  /** The result of `SortBy` is sorted. */
  lemma {:induction false} SortBySorted<T, K(!new)>(s: seq<T>, key: T -> K, lt: (K, K) -> bool)
    requires StrictOrder(lt)
    ensures SortedBy(SortBy(s, key, lt), key, lt)
  {
    if s != [] {
      SortBySorted(s[..|s| - 1], key, lt);
      InsertBySorted(SortBy(s[..|s| - 1], key, lt), s[|s| - 1], key, lt);
    }
  }

  lemma {:induction false} InsertByLast<T, K>(sorted: seq<T>, x: T, key: T -> K, lt: (K, K) -> bool)
    requires forall k :: 0 <= k < |sorted| ==> !lt(key(x), key(sorted[k]))
    ensures InsertBy(sorted, x, key, lt) == sorted + [x]
  {
    if sorted != [] {
      InsertByLast(sorted[1..], x, key, lt);
      assert sorted == [sorted[0]] + sorted[1..];
    }
  }

  /** Sorting an already sorted sequence leaves it unchanged. */
  lemma {:induction false} SortByIdentity<T, K>(s: seq<T>, key: T -> K, lt: (K, K) -> bool)
    requires SortedBy(s, key, lt)
    ensures SortBy(s, key, lt) == s
  {
    if s != [] {
      var n := |s| - 1;
      assert SortedBy(s[..n], key, lt);
      SortByIdentity(s[..n], key, lt);
      InsertByLast(s[..n], s[n], key, lt);
      assert s[..n] + [s[n]] == s;
    }
  }

  /** A subsequence of a sorted sequence is sorted. */
  lemma {:induction false} SubseqSorted<T, K>(a: seq<T>, b: seq<T>, key: T -> K, lt: (K, K) -> bool)
    requires Subseq(a, b) && SortedBy(b, key, lt)
    ensures SortedBy(a, key, lt)
    decreases |b|
  {
    if a != [] {
      assert SortedBy(b[1..], key, lt);
      if a[0] == b[0] && Subseq(a[1..], b[1..]) {
        SubseqSorted(a[1..], b[1..], key, lt);
        SubseqMultiset(a[1..], b[1..]);
        assert NoneBelow(b[1..], key(b[0]), key, lt);
        NoneBelowMultiset(a[1..], b[1..], key(b[0]), key, lt);
        assert a == [a[0]] + a[1..];
        PrependSorted(a[0], a[1..], key, lt);
      } else {
        SubseqSorted(a, b[1..], key, lt);
      }
    }
  }

  /** On a sorted sequence, each kept element has a key no smaller than any element sharing its dedup key. */
  lemma {:induction false} KeepLastLatest<T, D, K(!new)>(s: seq<T>, dkey: T -> D, key: T -> K, lt: (K, K) -> bool)
    requires StrictOrder(lt) && SortedBy(s, key, lt)
    ensures forall o, q :: o in KeepLast(s, dkey) && q in s && dkey(q) == dkey(o) ==> !lt(key(o), key(q))
  {
    if s != [] {
      var rest := s[1..];
      assert SortedBy(rest, key, lt);
      KeepLastLatest(rest, dkey, key, lt);
      KeepLastSubseq(rest, dkey);
      SubseqMembers(KeepLast(rest, dkey), rest);
      forall o, q | o in KeepLast(s, dkey) && q in s && dkey(q) == dkey(o) ensures !lt(key(o), key(q)) {
        if o in KeepLast(rest, dkey) {
          if q == s[0] {
            var k :| 0 <= k < |rest| && rest[k] == o;
            assert s[k + 1] == o;
          } else {
            assert q in rest by { assert s == [s[0]] + rest; }
          }
        } else {
          assert o == s[0];
        }
      }
    }
  }
}
