/**
 * `groupby(key)[column]` followed by `.count()`, `.sum()` or `.nunique()`,
 * then `reset_index()`: one (key, aggregate) pair per distinct non-null key,
 * keys in ascending order. `.count()` counts the non-null values of the
 * column, `.sum()` adds its integer values (nulls are skipped) and
 * `.nunique()` counts its distinct non-null values.
 */
module Grouping {
  import opened Common
  import opened Sequences
  import opened Tables

  // ---- weighted totals ----

  function Self<T>(x: T): T { x }

  ghost function Elems<K>(ks: seq<K>): set<K> {
    set k | k in ks
  }

  /** Σ w(x) over the elements of `s` whose key lies in `ks`. */
  function TotalIn<T, K(==)>(s: seq<T>, key: T -> K, ks: set<K>, w: T -> int): int
  {
    if s == [] then 0
    else (if key(s[0]) in ks then w(s[0]) else 0) + TotalIn(s[1..], key, ks, w)
  }

  /** The per-key totals of the listed keys, added up. */
  function TotalPerKey<T, K(==)>(s: seq<T>, key: T -> K, ks: seq<K>, w: T -> int): int
  {
    if ks == [] then 0 else TotalIn(s, key, {ks[0]}, w) + TotalPerKey(s, key, ks[1..], w)
  }

  lemma {:induction false} TotalInUnion<T, K>(s: seq<T>, key: T -> K, a: set<K>, b: set<K>, w: T -> int)
    requires a !! b
    ensures TotalIn(s, key, a + b, w) == TotalIn(s, key, a, w) + TotalIn(s, key, b, w)
  {
    if s != [] { TotalInUnion(s[1..], key, a, b, w); }
  }

  lemma {:induction false} TotalInNone<T, K>(s: seq<T>, key: T -> K, w: T -> int)
    ensures TotalIn(s, key, {}, w) == 0
  {
    if s != [] { TotalInNone(s[1..], key, w); }
  }

  /** Per-key totals over distinct keys add up to the total over those keys: nothing is counted twice. */
  lemma {:induction false} Partition<T, K>(s: seq<T>, key: T -> K, ks: seq<K>, w: T -> int)
    requires DistinctBy(ks, Self)
    ensures TotalPerKey(s, key, ks, w) == TotalIn(s, key, Elems(ks), w)
  {
    if ks != [] {
      var tail := ks[1..];
      assert DistinctBy(tail, Self) by {
        forall i, j | 0 <= i < j < |tail| ensures Self(tail[i]) != Self(tail[j]) {
          assert tail[i] == ks[i + 1] && tail[j] == ks[j + 1];
        }
      }
      Partition(s, key, tail, w);
      assert ks[0] !in Elems(tail) by {
        forall j | 0 <= j < |tail| ensures tail[j] != ks[0] {
          assert Self(ks[0]) != Self(ks[j + 1]);
        }
      }
      assert Elems(ks) == {ks[0]} + Elems(tail) by {
        assert ks == [ks[0]] + tail;
      }
      TotalInUnion(s, key, {ks[0]}, Elems(tail), w);
    } else {
      assert Elems(ks) == {};
      TotalInNone(s, key, w);
    }
  }

  // ---- group keys ----

  /** `r => r[c]`. */
  function KeyOf(c: string): Row -> Value {
    r => Cell(r, c)
  }

  /** What `.count()` adds up: 1 for a row whose `c` is not null. */
  function Present(c: string): Row -> int {
    r => if Cell(r, c) != Null then 1 else 0
  }

  /** What `.sum()` adds up: the integer in `c`, nothing for a null. */
  function IntValue(c: string): Row -> int {
    r => if Cell(r, c).Int? then Cell(r, c).i else 0
  }

  /** Some row has key `v` in column `k`. */
  predicate HasKey(rows: seq<Row>, k: string, v: Value) {
    exists r :: r in rows && Cell(r, k) == v
  }

  /** The non-null values of column `k`, in row order. */
  function KeyColumn(rows: seq<Row>, k: string): (vs: seq<Value>)
    ensures forall v :: v in vs <==> v != Null && HasKey(rows, k, v)
  {
    if rows == [] then []
    else
      var rest := KeyColumn(rows[1..], k);
      assert forall r :: r in rows <==> r == rows[0] || r in rows[1..];
      (if Cell(rows[0], k) != Null then [Cell(rows[0], k)] else []) + rest
  }

  /** The group keys: the distinct non-null keys, sorted. */
  function GroupKeys(rows: seq<Row>, k: string): seq<Value> {
    SortBy(KeepFirst(KeyColumn(rows, k), Self, {}), Self, Less)
  }

  /** Strictly ascending. */
  ghost predicate Ascending(ks: seq<Value>) {
    forall i, j :: 0 <= i < j < |ks| ==> Less(ks[i], ks[j])
  }

  lemma AscendingDistinct(ks: seq<Value>)
    requires Ascending(ks)
    ensures DistinctBy(ks, Self)
  {
    forall i, j | 0 <= i < j < |ks| ensures Self(ks[i]) != Self(ks[j]) {
      LessIrreflexive(ks[i]);
    }
  }

  /** Group keys are strictly ascending and are exactly the non-null keys of the rows. */
  lemma GroupKeysSpec(rows: seq<Row>, k: string)
    ensures Ascending(GroupKeys(rows, k))
    ensures forall v :: v in GroupKeys(rows, k) <==> v != Null && HasKey(rows, k, v)
  {
    var vs := KeyColumn(rows, k);
    var firsts := KeepFirst(vs, Self, {});
    var ks := SortBy(firsts, Self, Less);
    KeepFirstDistinctKeys(vs, Self, {});
    DistinctSubMultiset(ks, firsts, Self);
    LessIsStrictOrder();
    SortBySorted(firsts, Self, Less);
    forall i, j | 0 <= i < j < |ks| ensures Less(ks[i], ks[j]) {
      assert Self(ks[i]) != Self(ks[j]);
      assert !Less(Self(ks[j]), Self(ks[i]));
      LessTotal(ks[i], ks[j]);
    }
    KeepFirstKeys(vs, Self, {});
    forall v ensures v in ks <==> v in vs {
      assert v in ks <==> v in multiset(firsts);
      if v in firsts {
        var m :| 0 <= m < |firsts| && firsts[m] == v;
        assert Occurs(firsts, v, Self);
      }
      if v in vs {
        var m :| 0 <= m < |vs| && vs[m] == v;
        assert Occurs(vs, v, Self);
        var n :| 0 <= n < |firsts| && Self(firsts[n]) == v;
      }
    }
  }

  // ---- aggregates ----

  datatype Agg = Count | Sum | NUnique

  /** The distinct non-null values of `c` among the rows whose key is `key`. */
  function ValuesAt(rows: seq<Row>, k: string, key: Value, c: string): set<Value> {
    if rows == [] then {}
    else
      (if Cell(rows[0], k) == key && Cell(rows[0], c) != Null then {Cell(rows[0], c)} else {})
      + ValuesAt(rows[1..], k, key, c)
  }

  /** The aggregate of column `c` over the group of `key`. */
  function Aggregate(rows: seq<Row>, k: string, key: Value, c: string, agg: Agg): int {
    match agg
    case Count => TotalIn(rows, KeyOf(k), {key}, Present(c))
    case Sum => TotalIn(rows, KeyOf(k), {key}, IntValue(c))
    case NUnique => |ValuesAt(rows, k, key, c)|
  }

  function Tabulate(rows: seq<Row>, k: string, c: string, agg: Agg, ks: seq<Value>): seq<(Value, int)> {
    if ks == [] then [] else [(ks[0], Aggregate(rows, k, ks[0], c, agg))] + Tabulate(rows, k, c, agg, ks[1..])
  }

  /** The grouped table of the rows, without the column checks. */
  function GroupAgg(rows: seq<Row>, k: string, c: string, agg: Agg): seq<(Value, int)> {
    Tabulate(rows, k, c, agg, GroupKeys(rows, k))
  }

  /**
   * `t.groupby(k)[c].agg().reset_index()`; a missing key column, then a
   * missing aggregated column, raises `KeyError`.
   */
  function GroupBy(t: Table, k: string, c: string, agg: Agg): (r: Result<seq<(Value, int)>, Error>)
    ensures r.Err? <==> k !in t.columns || c !in t.columns
    ensures r.Err? && k !in t.columns ==> r.error == MissingColumn(k)
    ensures r.Err? && k in t.columns ==> r.error == MissingColumn(c)
  {
    if k !in t.columns then Err(MissingColumn(k))
    else if c !in t.columns then Err(MissingColumn(c))
    else Ok(GroupAgg(t.rows, k, c, agg))
  }

  lemma {:induction false} TabulateAt(rows: seq<Row>, k: string, c: string, agg: Agg, ks: seq<Value>)
    ensures |Tabulate(rows, k, c, agg, ks)| == |ks|
    ensures forall i :: 0 <= i < |ks| ==> Tabulate(rows, k, c, agg, ks)[i] == (ks[i], Aggregate(rows, k, ks[i], c, agg))
  {
    if ks != [] {
      TabulateAt(rows, k, c, agg, ks[1..]);
      var g := Tabulate(rows, k, c, agg, ks);
      forall i | 0 < i < |ks| ensures g[i] == (ks[i], Aggregate(rows, k, ks[i], c, agg)) {
        assert g[i] == Tabulate(rows, k, c, agg, ks[1..])[i - 1];
      }
    }
  }

  /** Key of the i-th group. */
  predicate IsGroupKey(g: seq<(Value, int)>, v: Value) {
    exists i :: 0 <= i < |g| && g[i].0 == v
  }

  /**
   * One group per distinct non-null key, in ascending key order, each with
   * the aggregate of its own rows.
   */
  lemma GroupAggSpec(rows: seq<Row>, k: string, c: string, agg: Agg)
    ensures var g := GroupAgg(rows, k, c, agg);
            && (forall i, j :: 0 <= i < j < |g| ==> Less(g[i].0, g[j].0))
            && (forall v :: IsGroupKey(g, v) <==> v != Null && HasKey(rows, k, v))
            && (forall i :: 0 <= i < |g| ==> g[i].1 == Aggregate(rows, k, g[i].0, c, agg))
  {
    var ks := GroupKeys(rows, k);
    var g := Tabulate(rows, k, c, agg, ks);
    GroupKeysSpec(rows, k);
    TabulateAt(rows, k, c, agg, ks);
    assert forall i :: 0 <= i < |g| ==> g[i].0 == ks[i];
    assert forall i, j :: 0 <= i < j < |g| ==> Less(g[i].0, g[j].0);
    forall v ensures IsGroupKey(g, v) <==> v in ks {
      if v in ks {
        var i :| 0 <= i < |ks| && ks[i] == v;
        assert g[i].0 == v;
      }
    }
  }

  // ---- totals across groups ----

  /** Σ of the aggregates. */
  function SumCounts(g: seq<(Value, int)>): int {
    if g == [] then 0 else g[0].1 + SumCounts(g[1..])
  }

  /** Σ w over the rows whose key `k` is not null. */
  function NonNullTotal(rows: seq<Row>, k: string, w: Row -> int): int {
    if rows == [] then 0
    else (if Cell(rows[0], k) != Null then w(rows[0]) else 0) + NonNullTotal(rows[1..], k, w)
  }

  lemma {:induction false} TabulateTotal(rows: seq<Row>, k: string, c: string, agg: Agg, ks: seq<Value>)
    requires !agg.NUnique?
    ensures SumCounts(Tabulate(rows, k, c, agg, ks))
            == TotalPerKey(rows, KeyOf(k), ks, if agg.Count? then Present(c) else IntValue(c))
  {
    if ks != [] { TabulateTotal(rows, k, c, agg, ks[1..]); }
  }

  lemma {:induction false} TotalInNonNull(rows: seq<Row>, k: string, ks: set<Value>, w: Row -> int)
    requires forall r :: r in rows ==> (Cell(r, k) in ks <==> Cell(r, k) != Null)
    ensures TotalIn(rows, KeyOf(k), ks, w) == NonNullTotal(rows, k, w)
  {
    if rows != [] {
      assert rows[0] in rows;
      assert forall r :: r in rows[1..] ==> r in rows;
      TotalInNonNull(rows[1..], k, ks, w);
    }
  }

  /**
   * The groups partition the rows with a non-null key: the counts add up to
   * the non-null values of `c` in those rows, the sums to their total.
   */
  lemma GroupTotal(rows: seq<Row>, k: string, c: string, agg: Agg)
    requires !agg.NUnique?
    ensures SumCounts(GroupAgg(rows, k, c, agg))
            == NonNullTotal(rows, k, if agg.Count? then Present(c) else IntValue(c))
  {
    var ks := GroupKeys(rows, k);
    var w := if agg.Count? then Present(c) else IntValue(c);
    GroupKeysSpec(rows, k);
    AscendingDistinct(ks);
    TabulateTotal(rows, k, c, agg, ks);
    Partition(rows, KeyOf(k), ks, w);
    forall r | r in rows ensures Cell(r, k) in Elems(ks) <==> Cell(r, k) != Null {
      assert Cell(r, k) in ks <==> Cell(r, k) != Null;
    }
    TotalInNonNull(rows, k, Elems(ks), w);
  }

  /**
   * When `d` is never null, a group has no more distinct values of `c` than
   * it has non-null values of `d`: `nunique` never exceeds `count`.
   */
  lemma {:induction false} DistinctAtMostCount(rows: seq<Row>, k: string, key: Value, c: string, d: string)
    requires forall r :: r in rows ==> Cell(r, d) != Null
    ensures |ValuesAt(rows, k, key, c)| <= TotalIn(rows, KeyOf(k), {key}, Present(d))
  {
    if rows != [] {
      assert rows[0] in rows;
      assert forall r :: r in rows[1..] ==> r in rows;
      DistinctAtMostCount(rows[1..], k, key, c, d);
      var head := if Cell(rows[0], k) == key && Cell(rows[0], c) != Null then {Cell(rows[0], c)} else {};
      assert |head + ValuesAt(rows[1..], k, key, c)| <= |head| + |ValuesAt(rows[1..], k, key, c)|;
    }
  }
}
