/**
 * The skills decoder and counter of `top_skills`. A skills cell such as
 * "['Python', ' SQL']" loses every '[', ']' and single quote, is split on
 * commas, and each piece is trimmed and lower-cased (ASCII); `value_counts`
 * then counts the pieces of all resumes, most frequent first.
 */
module Skills {
  import opened Common
  import opened Sequences
  import opened Tables
  import opened Grouping

  // ---- character edits ----

  /** Number of occurrences of `c` in `s`. */
  function Occurrences(s: string, c: char): nat {
    if s == [] then 0 else (if s[0] == c then 1 else 0) + Occurrences(s[1..], c)
  }

  /** `s.replace(c, "")`. */
  function Remove(s: string, c: char): (r: string)
    ensures forall x :: x in r <==> x in s && x != c
    ensures forall x :: x != c ==> Occurrences(r, x) == Occurrences(s, x)
  {
    if s == [] then []
    else
      var rest := Remove(s[1..], c);
      assert forall x :: x in s <==> x == s[0] || x in s[1..];
      if s[0] == c then rest else [s[0]] + rest
  }

  /** The three `str.replace` calls: brackets and quotes removed, everything else kept in order. */
  function Clean(s: string): (r: string)
    ensures '[' !in r && ']' !in r && '\'' !in r
    ensures Occurrences(r, ',') == Occurrences(s, ',')
  {
    Remove(Remove(Remove(s, '['), ']'), '\'')
  }

  /** `s.split(sep)`: the text between separators, so "" gives [""]. */
  function Split(s: string, sep: char): (parts: seq<string>)
    ensures |parts| == Occurrences(s, sep) + 1
    ensures forall p :: p in parts ==> sep !in p
  {
    if s == [] then [""]
    else
      var rest := Split(s[1..], sep);
      if s[0] == sep then [""] + rest
      else
        assert forall p :: p in rest[1..] ==> p in rest;
        [[s[0]] + rest[0]] + rest[1..]
  }

  /** `sep.join(parts)`. */
  function Join(parts: seq<string>, sep: char): string {
    if parts == [] then ""
    else if |parts| == 1 then parts[0]
    else parts[0] + [sep] + Join(parts[1..], sep)
  }

  /** Joining the pieces with the separator gives the string back. */
  lemma {:induction false} SplitJoin(s: string, sep: char)
    ensures Join(Split(s, sep), sep) == s
  {
    if s != [] {
      var rest := Split(s[1..], sep);
      SplitJoin(s[1..], sep);
      if s[0] == sep {
        assert s == [sep] + s[1..];
      } else {
        var parts := Split(s, sep);
        assert parts[1..] == rest[1..];
        if |rest| == 1 {
          assert rest == [rest[0]];
        } else {
          assert Join(rest, sep) == rest[0] + [sep] + Join(rest[1..], sep);
        }
        assert s == [s[0]] + s[1..];
      }
    }
  }

  lemma SplitSeparator(sep: char, s: string)
    ensures Split([sep] + s, sep) == [""] + Split(s, sep)
  {
    assert ([sep] + s)[1..] == s;
  }

  lemma SplitOther(c: char, s: string, sep: char)
    requires c != sep
    ensures Split([c] + s, sep) == [[c] + Split(s, sep)[0]] + Split(s, sep)[1..]
  {
    assert ([c] + s)[1..] == s;
  }

  /** Splitting joined pieces that contain no separator gives the pieces back. */
  lemma {:induction false} JoinSplit(parts: seq<string>, sep: char)
    requires parts != [] && forall p :: p in parts ==> sep !in p
    ensures Split(Join(parts, sep), sep) == parts
    decreases |parts|, |parts[0]|
  {
    var head := parts[0];
    if head == [] {
      if |parts| > 1 {
        JoinSplit(parts[1..], sep);
        assert Join(parts, sep) == [sep] + Join(parts[1..], sep);
        SplitSeparator(sep, Join(parts[1..], sep));
        assert parts == [""] + parts[1..];
      }
    } else {
      assert head[0] in head;
      var shorter := [head[1..]] + parts[1..];
      forall p | p in shorter ensures sep !in p {
        if p == head[1..] {
          assert forall x :: x in head[1..] ==> x in head;
        } else {
          assert p in parts;
        }
      }
      JoinSplit(shorter, sep);
      var s := Join(parts, sep);
      if |parts| == 1 {
        assert s == head && Join(shorter, sep) == head[1..];
      } else {
        assert s == head + [sep] + Join(parts[1..], sep);
        assert Join(shorter, sep) == head[1..] + [sep] + Join(parts[1..], sep);
      }
      assert s == [head[0]] + Join(shorter, sep);
      SplitOther(head[0], Join(shorter, sep), sep);
      assert head == [head[0]] + head[1..];
    }
  }

  /** The ASCII characters Python's `str.isspace` accepts: space, \t \n \v \f \r and \x1c to \x1f. */
  predicate IsSpace(c: char) {
    c == ' ' || 9 <= c as int <= 13 || 28 <= c as int <= 31
  }

  /** `s.lstrip()`. */
  function StripLeft(s: string): (r: string)
    ensures r == [] || !IsSpace(r[0])
    ensures |r| <= |s| && r == s[|s| - |r|..]
    ensures forall x :: x in r ==> x in s
    ensures forall j :: 0 <= j < |s| - |r| ==> IsSpace(s[j])
  {
    if s != [] && IsSpace(s[0]) then StripLeft(s[1..]) else s
  }

  /** `s.rstrip()`. */
  function StripRight(s: string): (r: string)
    ensures r == [] || !IsSpace(r[|r| - 1])
    ensures |r| <= |s| && r == s[..|r|]
    ensures forall x :: x in r ==> x in s
    ensures forall j :: |r| <= j < |s| ==> IsSpace(s[j])
  {
    if s != [] && IsSpace(s[|s| - 1]) then StripRight(s[..|s| - 1]) else s
  }

  /** `s.strip()`: no whitespace at either end, and nothing but characters of `s`. */
  function Strip(s: string): (r: string)
    ensures r == [] || (!IsSpace(r[0]) && !IsSpace(r[|r| - 1]))
    ensures forall x :: x in r ==> x in s
  {
    var l := StripLeft(s);
    assert forall x :: x in l ==> x in s;
    StripRight(l)
  }

  /** What `strip` cuts off is whitespace, and what it keeps is a contiguous middle part of `s`. */
  lemma StripSlice(s: string)
    ensures exists i, j :: 0 <= i <= j <= |s| && Strip(s) == s[i..j]
                           && (forall k :: 0 <= k < i ==> IsSpace(s[k]))
                           && (forall k :: j <= k < |s| ==> IsSpace(s[k]))
  {
    var l := StripLeft(s);
    var r := StripRight(l);
    var i := |s| - |l|;
    assert r == s[i..i + |r|];
    forall k | i + |r| <= k < |s| ensures IsSpace(s[k]) {
      assert s[k] == l[k - i];
    }
  }

  function LowerChar(c: char): char {
    if 'A' <= c <= 'Z' then (c as int + 32) as char else c
  }

  /** `s.lower()` on ASCII letters. */
  function Lower(s: string): (r: string)
    ensures |r| == |s|
    ensures forall i :: 0 <= i < |s| ==> !('A' <= r[i] <= 'Z')
    ensures forall i :: 0 <= i < |s| ==>
              if 'A' <= s[i] <= 'Z' then r[i] as int == s[i] as int + 32 else r[i] == s[i]
  {
    seq(|s|, i requires 0 <= i < |s| => LowerChar(s[i]))
  }

  /** One exploded skill: trimmed, then lower-cased. */
  function Token(piece: string): string {
    Lower(Strip(piece))
  }

  /** The tokens of the pieces, in order. */
  function Tokens(pieces: seq<string>): (ts: seq<string>)
    ensures |ts| == |pieces|
  {
    if pieces == [] then [] else [Token(pieces[0])] + Tokens(pieces[1..])
  }

  /** What one skills cell contributes after `explode`: nothing for a null or non-text cell. */
  function CellTokens(v: Value): seq<string> {
    if v.Str? then Tokens(Split(Clean(v.s), ',')) else []
  }

  /** The exploded skills column. */
  function Explode(vs: seq<Value>): seq<string> {
    if vs == [] then [] else CellTokens(vs[0]) + Explode(vs[1..])
  }

  /** The cells of column `c`. */
  function Column(rows: seq<Row>, c: string): (vs: seq<Value>)
    ensures |vs| == |rows| && forall i :: 0 <= i < |rows| ==> vs[i] == Cell(rows[i], c)
  {
    if rows == [] then [] else [Cell(rows[0], c)] + Column(rows[1..], c)
  }

  // ---- the token properties ----

  /** What a token can contain: no bracket, quote or comma, no edge whitespace, no upper-case letter. */
  ghost predicate WellFormedToken(t: string) {
    && '[' !in t && ']' !in t && '\'' !in t && ',' !in t
    && (t == [] || (!IsSpace(t[0]) && !IsSpace(t[|t| - 1])))
    && forall i :: 0 <= i < |t| ==> !('A' <= t[i] <= 'Z')
  }

  /** Characters other than upper-case letters survive `lower` only where they already were. */
  lemma LowerKeeps(s: string, x: char)
    requires !('A' <= x <= 'Z') && !('a' <= x <= 'z')
    ensures x in Lower(s) ==> x in s
  {
    if x in Lower(s) {
      var k :| 0 <= k < |s| && Lower(s)[k] == x;
      assert s[k] == x;
    }
  }

  lemma TokenWellFormed(piece: string)
    requires '[' !in piece && ']' !in piece && '\'' !in piece && ',' !in piece
    ensures WellFormedToken(Token(piece))
  {
    var s := Strip(piece);
    LowerKeeps(s, '[');
    LowerKeeps(s, ']');
    LowerKeeps(s, '\'');
    LowerKeeps(s, ',');
  }

  lemma {:induction false} TokensWellFormed(pieces: seq<string>)
    requires forall p :: p in pieces ==> '[' !in p && ']' !in p && '\'' !in p && ',' !in p
    ensures forall t :: t in Tokens(pieces) ==> WellFormedToken(t)
  {
    if pieces != [] {
      TokenWellFormed(pieces[0]);
      assert forall p :: p in pieces[1..] ==> p in pieces;
      TokensWellFormed(pieces[1..]);
    }
  }

  /** Every exploded token is well formed. */
  lemma {:induction false} ExplodeWellFormed(vs: seq<Value>)
    ensures forall t :: t in Explode(vs) ==> WellFormedToken(t)
  {
    if vs != [] {
      ExplodeWellFormed(vs[1..]);
      if vs[0].Str? {
        var pieces := Split(Clean(vs[0].s), ',');
        forall p | p in pieces ensures '[' !in p && ']' !in p && '\'' !in p && ',' !in p {
          var c := Clean(vs[0].s);
          assert forall x :: x in c ==> x != '[' && x != ']' && x != '\'';
          PieceCharsHold(c, ',', p);
        }
        TokensWellFormed(pieces);
      }
    }
  }

  /** The characters of a piece come from the string that was split. */
  lemma {:induction false} PieceCharsHold(s: string, sep: char, p: string)
    requires p in Split(s, sep)
    ensures forall x :: x in p ==> x in s
  {
    if s != [] {
      var rest := Split(s[1..], sep);
      if s[0] == sep || p != [s[0]] + rest[0] {
        if p in rest { PieceCharsHold(s[1..], sep, p); }
      } else {
        PieceCharsHold(s[1..], sep, rest[0]);
      }
    }
  }

  /** The number of pieces of the non-null text cells: one more than their commas. */
  function PieceCount(vs: seq<Value>): nat {
    if vs == [] then 0
    else (if vs[0].Str? then Occurrences(vs[0].s, ',') + 1 else 0) + PieceCount(vs[1..])
  }

  lemma {:induction false} ExplodeLength(vs: seq<Value>)
    ensures |Explode(vs)| == PieceCount(vs)
  {
    if vs != [] { ExplodeLength(vs[1..]); }
  }

  // ---- value_counts ----

  function One(t: string): int { 1 }

  /** Occurrences of token `t`. */
  function CountOf(ts: seq<string>, t: string): int {
    TotalIn(ts, Self, {t}, One)
  }

  function Tally(ts: seq<string>, uniq: seq<string>): seq<(Value, int)> {
    if uniq == [] then [] else [(Str(uniq[0]), CountOf(ts, uniq[0]))] + Tally(ts, uniq[1..])
  }

  function CountKey(p: (Value, int)): int { p.1 }

  /** Larger counts first. */
  function MoreFrequent(a: int, b: int): bool { a > b }

  /** `series.value_counts().reset_index()`: each distinct token with its count, most frequent first. */
  function ValueCounts(ts: seq<string>): seq<(Value, int)> {
    SortBy(Tally(ts, KeepFirst(ts, Self, {})), CountKey, MoreFrequent)
  }

  /** `top_skills`: a missing `skills` column raises `KeyError`. */
  function TopSkills(t: Table): (r: Result<seq<(Value, int)>, Error>)
    ensures r.Err? <==> "skills" !in t.columns
    ensures r.Err? ==> r.error == MissingColumn("skills")
  {
    if "skills" !in t.columns then Err(MissingColumn("skills"))
    else Ok(ValueCounts(Explode(Column(t.rows, "skills"))))
  }

  // ---- value_counts properties ----

  lemma MoreFrequentIsStrictOrder()
    ensures StrictOrder(MoreFrequent)
  {
  }

  lemma {:induction false} TallyAt(ts: seq<string>, uniq: seq<string>)
    ensures |Tally(ts, uniq)| == |uniq|
    ensures forall i :: 0 <= i < |uniq| ==> Tally(ts, uniq)[i] == (Str(uniq[i]), CountOf(ts, uniq[i]))
  {
    if uniq != [] {
      TallyAt(ts, uniq[1..]);
      var g := Tally(ts, uniq);
      forall i | 0 < i < |uniq| ensures g[i] == (Str(uniq[i]), CountOf(ts, uniq[i])) {
        assert g[i] == Tally(ts, uniq[1..])[i - 1];
      }
    }
  }

  lemma {:induction false} SumCountsAppend(a: seq<(Value, int)>, b: seq<(Value, int)>)
    ensures SumCounts(a + b) == SumCounts(a) + SumCounts(b)
  {
    if a != [] {
      assert (a + b)[1..] == a[1..] + b;
      SumCountsAppend(a[1..], b);
    } else {
      assert a + b == b;
    }
  }

  lemma {:induction false} SumCountsInsert<K>(sorted: seq<(Value, int)>, x: (Value, int), key: ((Value, int)) -> K, lt: (K, K) -> bool)
    ensures SumCounts(InsertBy(sorted, x, key, lt)) == SumCounts(sorted) + x.1
  {
    if sorted != [] && !lt(key(x), key(sorted[0])) {
      SumCountsInsert(sorted[1..], x, key, lt);
    }
  }

  /** Sorting keeps the total of the counts. */
  lemma {:induction false} SumCountsSort<K>(s: seq<(Value, int)>, key: ((Value, int)) -> K, lt: (K, K) -> bool)
    ensures SumCounts(SortBy(s, key, lt)) == SumCounts(s)
  {
    if s != [] {
      var n := |s| - 1;
      SumCountsSort(s[..n], key, lt);
      SumCountsInsert(SortBy(s[..n], key, lt), s[n], key, lt);
      SumCountsAppend(s[..n], [s[n]]);
      InitLast(s);
    }
  }

  lemma {:induction false} TallyTotal(ts: seq<string>, uniq: seq<string>)
    ensures SumCounts(Tally(ts, uniq)) == TotalPerKey(ts, Self, uniq, One)
  {
    if uniq != [] { TallyTotal(ts, uniq[1..]); }
  }

  lemma {:induction false} TotalInAll(ts: seq<string>, ks: set<string>)
    requires forall t :: t in ts ==> t in ks
    ensures TotalIn(ts, Self, ks, One) == |ts|
  {
    if ts != [] {
      assert ts[0] in ts;
      assert forall t :: t in ts[1..] ==> t in ts;
      TotalInAll(ts[1..], ks);
    }
  }

  lemma {:induction false} CountOfPositive(ts: seq<string>, t: string)
    requires t in ts
    ensures CountOf(ts, t) > 0
  {
    if ts[0] != t {
      assert t in ts[1..];
      CountOfPositive(ts[1..], t);
    }
    TotalInNonNegative(ts[1..], {t});
  }

  lemma {:induction false} TotalInNonNegative(ts: seq<string>, ks: set<string>)
    ensures TotalIn(ts, Self, ks, One) >= 0
  {
    if ts != [] { TotalInNonNegative(ts[1..], ks); }
  }

  /** The distinct tokens in order of first appearance, and the facts the later lemmas need. */
  lemma DistinctTokens(ts: seq<string>) returns (uniq: seq<string>)
    ensures uniq == KeepFirst(ts, Self, {})
    ensures DistinctBy(uniq, Self)
    ensures forall t :: t in uniq <==> t in ts
  {
    uniq := KeepFirst(ts, Self, {});
    KeepFirstDistinctKeys(ts, Self, {});
    KeepFirstKeys(ts, Self, {});
    forall t ensures t in uniq <==> t in ts {
      if t in uniq {
        var m :| 0 <= m < |uniq| && uniq[m] == t;
        assert Occurs(uniq, t, Self);
        var k :| 0 <= k < |ts| && Self(ts[k]) == t;
      }
      if t in ts {
        var m :| 0 <= m < |ts| && ts[m] == t;
        assert Occurs(ts, t, Self);
        var k :| 0 <= k < |uniq| && Self(uniq[k]) == t;
      }
    }
  }

  /** Rows come most frequent first. */
  lemma ValueCountsOrder(ts: seq<string>)
    ensures var g := ValueCounts(ts);
            forall i, j :: 0 <= i < j < |g| ==> g[j].1 <= g[i].1
  {
    MoreFrequentIsStrictOrder();
    SortBySorted(Tally(ts, KeepFirst(ts, Self, {})), CountKey, MoreFrequent);
  }

  /** One row per distinct token, each with the number of times the token occurs. */
  lemma ValueCountsRows(ts: seq<string>)
    ensures var g := ValueCounts(ts);
            && (forall i, j :: 0 <= i < j < |g| ==> g[i].0 != g[j].0)
            && (forall i :: 0 <= i < |g| ==> g[i].0.Str? && g[i].0.s in ts && g[i].1 == CountOf(ts, g[i].0.s) > 0)
            && (forall t :: t in ts ==> exists i :: 0 <= i < |g| && g[i].0 == Str(t))
  {
    ValueCountsDistinct(ts);
    ValueCountsCounts(ts);
    ValueCountsCover(ts);
  }

  /** The tally before it is sorted has one entry per distinct token. */
  lemma TallyDistinct(ts: seq<string>)
    ensures DistinctBy(Tally(ts, KeepFirst(ts, Self, {})), Fst)
  {
    var uniq := DistinctTokens(ts);
    var tally := Tally(ts, uniq);
    TallyAt(ts, uniq);
    forall i, j | 0 <= i < j < |tally| ensures Fst(tally[i]) != Fst(tally[j]) {
      assert Self(uniq[i]) != Self(uniq[j]);
    }
  }

  /** `value_counts` lists each token once. */
  lemma ValueCountsDistinct(ts: seq<string>)
    ensures var g := ValueCounts(ts); forall i, j :: 0 <= i < j < |g| ==> g[i].0 != g[j].0
  {
    var g := ValueCounts(ts);
    TallyDistinct(ts);
    DistinctSubMultiset(g, Tally(ts, KeepFirst(ts, Self, {})), Fst);
    forall i, j | 0 <= i < j < |g| ensures g[i].0 != g[j].0 {
      assert Fst(g[i]) != Fst(g[j]);
    }
  }

  /** Each entry of `value_counts` is a token of the input with its positive count. */
  lemma ValueCountsCounts(ts: seq<string>)
    ensures var g := ValueCounts(ts);
            forall i :: 0 <= i < |g| ==> g[i].0.Str? && g[i].0.s in ts && g[i].1 == CountOf(ts, g[i].0.s) > 0
  {
    var uniq := DistinctTokens(ts);
    var tally := Tally(ts, uniq);
    var g := ValueCounts(ts);
    TallyAt(ts, uniq);
    forall i | 0 <= i < |g| ensures g[i].0.Str? && g[i].0.s in ts && g[i].1 == CountOf(ts, g[i].0.s) > 0 {
      assert g[i] in multiset(tally);
      var m :| 0 <= m < |tally| && tally[m] == g[i];
      assert uniq[m] in ts;
      CountOfPositive(ts, uniq[m]);
    }
  }

  /** Every token of the input has an entry in `value_counts`. */
  lemma ValueCountsCover(ts: seq<string>)
    ensures var g := ValueCounts(ts); forall t :: t in ts ==> exists i :: 0 <= i < |g| && g[i].0 == Str(t)
  {
    var uniq := DistinctTokens(ts);
    var tally := Tally(ts, uniq);
    var g := ValueCounts(ts);
    TallyAt(ts, uniq);
    forall t | t in ts ensures exists i :: 0 <= i < |g| && g[i].0 == Str(t) {
      var m :| 0 <= m < |uniq| && uniq[m] == t;
      assert tally[m] in multiset(g);
      var i :| 0 <= i < |g| && g[i] == tally[m];
    }
  }

  function Fst(p: (Value, int)): Value { p.0 }

  /** The counts add up to the number of tokens. */
  lemma ValueCountsTotal(ts: seq<string>)
    ensures SumCounts(ValueCounts(ts)) == |ts|
  {
    var uniq := DistinctTokens(ts);
    SumCountsSort(Tally(ts, uniq), CountKey, MoreFrequent);
    TallyTotal(ts, uniq);
    Partition(ts, Self, uniq, One);
    TotalInAll(ts, Elems(uniq));
  }

  /**
   * `top_skills`: tokens are distinct and well formed, rows are most
   * frequent first, and the counts add up to one more than the commas of
   * each text cell, summed over the text cells.
   */
  lemma TopSkillsSpec(t: Table)
    requires "skills" in t.columns
    ensures var g := TopSkills(t).value;
            var ts := Explode(Column(t.rows, "skills"));
            && (forall i, j :: 0 <= i < j < |g| ==> g[j].1 <= g[i].1 && g[i].0 != g[j].0)
            && (forall i :: 0 <= i < |g| ==> g[i].0.Str? && WellFormedToken(g[i].0.s) && g[i].1 == CountOf(ts, g[i].0.s) > 0)
            && (forall s :: s in ts ==> exists i :: 0 <= i < |g| && g[i].0 == Str(s))
            && SumCounts(g) == PieceCount(Column(t.rows, "skills"))
  {
    var vs := Column(t.rows, "skills");
    var ts := Explode(vs);
    ValueCountsOrder(ts);
    ValueCountsRows(ts);
    ValueCountsTotal(ts);
    ExplodeWellFormed(vs);
    ExplodeLength(vs);
  }
}
