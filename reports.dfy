/**
 * The reporting layer: the KPI table of the report (a chain of left merges
 * on the flow id with zero fill), the analysed period (the first and last
 * month of the monthly metric) and the framing of the CSV report, one
 * delimited section per metric.
 */
module Reports {
  import opened Common
  import opened Calendar
  import opened Tables
  import opened Sequences
  import opened Grouping
  import opened Metrics

  // ---- transform_metrics ----

  /** A row being widened by the merges: the flow and one column per merged metric, null where nothing matched. */
  type Wide = (Value, seq<Option<int>>)

  /** One KPI row: the flow id as text and the six per-flow figures. */
  datatype Kpi = Kpi(flow: string, participants: int, applications: int, votes: int,
                     shares: int, uniqueViews: int, totalViews: int)

  /** The counts of the rows of `g` whose flow is `v`, in order. */
  function Matches(g: seq<(Value, int)>, v: Value): (ms: seq<int>)
    ensures |ms| <= |g|
  {
    if g == [] then []
    else (if g[0].0 == v then [g[0].1] else []) + Matches(g[1..], v)
  }

  /** The left row once per match, each with the match's count appended. */
  function AttachCounts(row: Wide, ms: seq<int>): seq<Wide> {
    if ms == [] then [] else [(row.0, row.1 + [Some(ms[0])])] + AttachCounts(row, ms[1..])
  }

  /** One left row merged: once per match, or once with a null when nothing matches. */
  function MergeRow(row: Wide, g: seq<(Value, int)>): seq<Wide> {
    var ms := Matches(g, row.0);
    if ms == [] then [(row.0, row.1 + [None])] else AttachCounts(row, ms)
  }

  /** `df_main.merge(df_metric, on="ID Flow", how="left")`. */
  function MergeLeft(rows: seq<Wide>, g: seq<(Value, int)>): seq<Wide> {
    if rows == [] then [] else MergeRow(rows[0], g) + MergeLeft(rows[1..], g)
  }

  /** The participants table as the start of the chain. */
  function Start(ps: seq<(Value, int)>): (rows: seq<Wide>)
    ensures |rows| == |ps| && forall i :: 0 <= i < |ps| ==> rows[i] == (ps[i].0, [Some(ps[i].1)])
  {
    if ps == [] then [] else [(ps[0].0, [Some(ps[0].1)])] + Start(ps[1..])
  }

  /** `fillna(0)` of column `k`. */
  function FilledAt(cols: seq<Option<int>>, k: nat): int {
    if k < |cols| && cols[k].Some? then cols[k].value else 0
  }

  /** `astype(str)` of a flow id. */
  function ValueText(v: Value): string {
    match v
    case Int(i) => IntToString(i)
    case Str(s) => s
    case Stamp(d) => Pad4(d.year) + "-" + Pad2(d.month) + "-" + Pad2(d.day)
    case Null => "nan"
  }

  function ToKpi(row: Wide): Kpi {
    Kpi(ValueText(row.0), FilledAt(row.1, 0), FilledAt(row.1, 1), FilledAt(row.1, 2),
        FilledAt(row.1, 3), FilledAt(row.1, 4), FilledAt(row.1, 5))
  }

  function ToKpis(rows: seq<Wide>): (k: seq<Kpi>)
    ensures |k| == |rows| && forall i :: 0 <= i < |rows| ==> k[i] == ToKpi(rows[i])
  {
    if rows == [] then [] else [ToKpi(rows[0])] + ToKpis(rows[1..])
  }

  /** The left merges applied in order, each on the result of the previous one. */
  function Chain(rows: seq<Wide>, gs: seq<seq<(Value, int)>>): seq<Wide>
    decreases |gs|
  {
    if gs == [] then rows else Chain(MergeLeft(rows, gs[0]), gs[1..])
  }

  /** The metrics merged onto the participants, in the order of the merges. */
  function Merged(f: AllFrames): seq<seq<(Value, int)>> {
    [f.applications, f.votes, f.shares, f.uniqueViews, f.totalViews]
  }

  /**
   * `transform_metrics`: participants left-merged with applications, votes,
   * shares, unique and total views, nulls filled with 0, flow ids as text.
   */
  function TransformMetrics(f: AllFrames): seq<Kpi> {
    ToKpis(Chain(Start(f.participants), Merged(f)))
  }

  /** No flow appears twice. */
  predicate UniqueFlows(g: seq<(Value, int)>) {
    forall i, j :: 0 <= i < j < |g| ==> g[i].0 != g[j].0
  }

  /** The count of the first row of flow `v` in `g`, if it has one. */
  function Lookup(g: seq<(Value, int)>, v: Value): Option<int> {
    if g == [] then None
    else if g[0].0 == v then Some(g[0].1)
    else Lookup(g[1..], v)
  }

  /** `Lookup` finds a row exactly when flow `v` has one, and what it finds is such a row's count. */
  lemma {:induction false} LookupSpec(g: seq<(Value, int)>, v: Value)
    ensures Lookup(g, v).Some? <==> exists i :: 0 <= i < |g| && g[i].0 == v
    ensures Lookup(g, v).Some? ==> exists i :: 0 <= i < |g| && g[i] == (v, Lookup(g, v).value)
  {
    if g != [] && g[0].0 != v {
      LookupSpec(g[1..], v);
      if Lookup(g, v).Some? {
        var i :| 0 <= i < |g[1..]| && g[1..][i] == (v, Lookup(g, v).value);
        assert g[i + 1] == (v, Lookup(g, v).value);
      } else {
        forall i | 0 <= i < |g| ensures g[i].0 != v {
          if i > 0 { assert g[i] == g[1..][i - 1]; }
        }
      }
    }
  }

  /** The count of flow `v`, 0 without a row: what the merge and the zero fill leave in a column. */
  function CountOr0(g: seq<(Value, int)>, v: Value): int {
    match Lookup(g, v)
    case Some(n) => n
    case None => 0
  }

  /** With unique flows, a flow matches exactly the row `Lookup` finds, or none. */
  lemma {:induction false} MatchesUnique(g: seq<(Value, int)>, v: Value)
    requires UniqueFlows(g)
    ensures Matches(g, v) == match Lookup(g, v) case Some(n) => [n] case None => []
  {
    if g != [] {
      assert UniqueFlows(g[1..]) by {
        forall i, j | 0 <= i < j < |g[1..]| ensures g[1..][i].0 != g[1..][j].0 {
          assert g[1..][i] == g[i + 1] && g[1..][j] == g[j + 1];
        }
      }
      MatchesUnique(g[1..], v);
      if g[0].0 == v {
        LookupSpec(g[1..], v);
        forall i | 0 <= i < |g[1..]| ensures g[1..][i].0 != v {
          assert g[1..][i] == g[i + 1];
        }
      }
    }
  }

  /** With unique flows on the right, a left row merges into exactly one row, extended by its lookup. */
  lemma MergeRowUnique(row: Wide, g: seq<(Value, int)>)
    requires UniqueFlows(g)
    ensures MergeRow(row, g) == [(row.0, row.1 + [Lookup(g, row.0)])]
  {
    MatchesUnique(g, row.0);
    match Lookup(g, row.0)
    case Some(n) =>
      assert Matches(g, row.0) == [n];
      assert AttachCounts(row, [n]) == [(row.0, row.1 + [Some(n)])] + AttachCounts(row, []);
    case None =>
  }

  /** With unique flows on the right, a left merge keeps the rows one for one. */
  lemma {:induction false} MergeLeftLength(rows: seq<Wide>, g: seq<(Value, int)>)
    requires UniqueFlows(g)
    ensures |MergeLeft(rows, g)| == |rows|
  {
    if rows != [] {
      MergeRowUnique(rows[0], g);
      MergeLeftLength(rows[1..], g);
    }
  }

  /** With unique flows on the right, row `i` of a left merge is left row `i` extended by its lookup. */
  lemma {:induction false} MergeLeftAt(rows: seq<Wide>, g: seq<(Value, int)>, i: nat)
    requires UniqueFlows(g) && i < |rows|
    ensures |MergeLeft(rows, g)| == |rows|
    ensures MergeLeft(rows, g)[i] == (rows[i].0, rows[i].1 + [Lookup(g, rows[i].0)])
  {
    MergeLeftLength(rows, g);
    MergeRowUnique(rows[0], g);
    if i > 0 {
      MergeLeftAt(rows[1..], g, i - 1);
      assert MergeLeft(rows, g)[i] == MergeLeft(rows[1..], g)[i - 1];
    }
  }

  /** The looked-up count of flow `v` in each table of `gs`. */
  function Lookups(gs: seq<seq<(Value, int)>>, v: Value): (cs: seq<Option<int>>)
    ensures |cs| == |gs| && forall k :: 0 <= k < |gs| ==> cs[k] == Lookup(gs[k], v)
  {
    if gs == [] then [] else [Lookup(gs[0], v)] + Lookups(gs[1..], v)
  }

  /** Every table of `gs` has unique flows. */
  predicate AllUnique(gs: seq<seq<(Value, int)>>) {
    forall k :: 0 <= k < |gs| ==> UniqueFlows(gs[k])
  }

  lemma AllUniqueTail(gs: seq<seq<(Value, int)>>)
    requires AllUnique(gs) && gs != []
    ensures UniqueFlows(gs[0]) && AllUnique(gs[1..])
  {
    forall k | 0 <= k < |gs[1..]| ensures UniqueFlows(gs[1..][k]) {
      assert gs[1..][k] == gs[k + 1];
    }
  }

  /** With unique flows in every merged table, the chain keeps the rows one for one. */
  lemma {:induction false} ChainLength(rows: seq<Wide>, gs: seq<seq<(Value, int)>>)
    requires AllUnique(gs)
    ensures |Chain(rows, gs)| == |rows|
    decreases |gs|
  {
    if gs != [] {
      AllUniqueTail(gs);
      MergeLeftLength(rows, gs[0]);
      ChainLength(MergeLeft(rows, gs[0]), gs[1..]);
    }
  }

  /** With unique flows in every merged table, row `i` of the chain is row `i` with one looked-up column per table. */
  lemma {:induction false} ChainAt(rows: seq<Wide>, gs: seq<seq<(Value, int)>>, i: nat)
    requires AllUnique(gs) && i < |rows|
    ensures |Chain(rows, gs)| == |rows|
    ensures Chain(rows, gs)[i] == (rows[i].0, rows[i].1 + Lookups(gs, rows[i].0))
    decreases |gs|
  {
    ChainLength(rows, gs);
    var v := rows[i].0;
    if gs == [] {
      assert rows[i].1 + [] == rows[i].1;
    } else {
      AllUniqueTail(gs);
      var next := MergeLeft(rows, gs[0]);
      assert Chain(rows, gs) == Chain(next, gs[1..]);
      MergeLeftAt(rows, gs[0], i);
      ChainAt(next, gs[1..], i);
      var first, rest := [Lookup(gs[0], v)], Lookups(gs[1..], v);
      assert Lookups(gs, v) == first + rest;
      Assoc(rows[i].1, first, rest);
    }
  }

  /**
   * When every merged metric has unique flows, the KPI table has exactly the
   * participants' flows, in their order, and each figure is that flow's
   * count in its metric, 0 when the metric has no row for it.
   */
  lemma KpiTable(f: AllFrames)
    requires UniqueFlows(f.applications) && UniqueFlows(f.votes) && UniqueFlows(f.shares)
    requires UniqueFlows(f.uniqueViews) && UniqueFlows(f.totalViews)
    ensures var k, ps := TransformMetrics(f), f.participants;
            && |k| == |ps|
            && forall i :: 0 <= i < |ps| ==>
                 k[i] == Kpi(ValueText(ps[i].0), ps[i].1, CountOr0(f.applications, ps[i].0),
                             CountOr0(f.votes, ps[i].0), CountOr0(f.shares, ps[i].0),
                             CountOr0(f.uniqueViews, ps[i].0), CountOr0(f.totalViews, ps[i].0))
  {
    var gs := Merged(f);
    var rows := Chain(Start(f.participants), gs);
    ChainLength(Start(f.participants), gs);
    forall i | 0 <= i < |f.participants|
      ensures ToKpi(rows[i]) == Kpi(ValueText(f.participants[i].0), f.participants[i].1,
                                  CountOr0(f.applications, f.participants[i].0), CountOr0(f.votes, f.participants[i].0),
                                  CountOr0(f.shares, f.participants[i].0), CountOr0(f.uniqueViews, f.participants[i].0),
                                  CountOr0(f.totalViews, f.participants[i].0))
    {
      var v := f.participants[i].0;
      var cols := [Some(f.participants[i].1)] + Lookups(gs, v);
      ChainAt(Start(f.participants), gs, i);
      assert rows[i] == (v, cols);
      assert forall k :: 0 <= k < 5 ==> FilledAt(cols, k + 1) == CountOr0(gs[k], v);
    }
  }

  /** A per-flow group-by has one row per flow. */
  lemma GroupByUnique(t: Table, k: string, c: string, agg: Agg)
    requires GroupBy(t, k, c, agg).Ok?
    ensures UniqueFlows(GroupBy(t, k, c, agg).value)
  {
    var g := GroupBy(t, k, c, agg).value;
    GroupAggSpec(t.rows, k, c, agg);
    forall i, j | 0 <= i < j < |g| ensures g[i].0 != g[j].0 {
      LessIrreflexive(g[i].0);
    }
  }

  /**
   * On the frames of a successful metrics run, every merged metric is a
   * per-flow group-by, so the KPI table holds one row per participating flow
   * with its figures, 0 where a metric has no row for the flow.
   */
  lemma KpiOfRun(data: RecordSet, year: int, parse: Value -> Option<Date>)
    requires AllMetrics(data, year, parse).Ok?
    ensures var f := AllMetrics(data, year, parse).value;
            var k, ps := TransformMetrics(f), f.participants;
            && |k| == |ps|
            && forall i :: 0 <= i < |ps| ==>
                 k[i] == Kpi(ValueText(ps[i].0), ps[i].1, CountOr0(f.applications, ps[i].0),
                             CountOr0(f.votes, ps[i].0), CountOr0(f.shares, ps[i].0),
                             CountOr0(f.uniqueViews, ps[i].0), CountOr0(f.totalViews, ps[i].0))
  {
    AllMetricsEntries(data, year, parse);
    GroupByUnique(data["resumes_exhibited"], "model_id", "id", Count);
    GroupByUnique(data["votes"], "model_id", "value", Sum);
    GroupByUnique(data["shares"], "model_id", "id", Count);
    GroupByUnique(data["views"], "model_id", "user_id", NUnique);
    GroupByUnique(data["views"], "model_id", "id", Count);
    KpiTable(AllMetrics(data, year, parse).value);
  }

  // ---- the analysed period ----

  /** `min()` of the keys of a non-empty table. */
  function MinKey(g: seq<(Value, int)>): Value
    requires g != []
  {
    if |g| == 1 then g[0].0
    else
      var rest := MinKey(g[1..]);
      if Less(g[0].0, rest) then g[0].0 else rest
  }

  /** `max()` of the keys of a non-empty table. */
  function MaxKey(g: seq<(Value, int)>): Value
    requires g != []
  {
    if |g| == 1 then g[0].0
    else
      var rest := MaxKey(g[1..]);
      if Less(rest, g[0].0) then g[0].0 else rest
  }

  /** The minimum and the maximum are keys of the table, and no key lies below the one or above the other. */
  lemma {:induction false} KeyBounds(g: seq<(Value, int)>)
    requires g != []
    ensures IsGroupKey(g, MinKey(g)) && forall i :: 0 <= i < |g| ==> LessEq(MinKey(g), g[i].0)
    ensures IsGroupKey(g, MaxKey(g)) && forall i :: 0 <= i < |g| ==> LessEq(g[i].0, MaxKey(g))
  {
    LessIrreflexive(g[0].0);
    if |g| > 1 {
      var tail := g[1..];
      KeyBounds(tail);
      var lo, hi := MinKey(tail), MaxKey(tail);
      var i :| 0 <= i < |tail| && tail[i].0 == lo;
      var j :| 0 <= j < |tail| && tail[j].0 == hi;
      assert g[i + 1].0 == lo && g[j + 1].0 == hi;
      forall k | 0 < k < |g| ensures LessEq(MinKey(g), g[k].0) && LessEq(g[k].0, MaxKey(g)) {
        assert g[k] == tail[k - 1];
        if Less(g[k].0, g[0].0) && Less(g[0].0, lo) { LessTransitive(g[k].0, g[0].0, lo); }
        if Less(hi, g[0].0) && Less(g[0].0, g[k].0) { LessTransitive(hi, g[0].0, g[k].0); }
      }
    }
  }

  /** The period paragraph for a period from `start` to `end`. */
  function Period(start: string, end: string): string {
    "Período analizado: " + start + " a " + end
  }

  /** The period paragraph when there is no monthly data. */
  const NoPeriod := "Período analizado: No disponible"

  /** The period paragraph of the PDF report, from the monthly metric. */
  function PeriodLine(months: seq<(Value, int)>): string {
    if months == [] then NoPeriod
    else Period(ValueText(MinKey(months)), ValueText(MaxKey(months)))
  }

  /** On ascending keys the minimum is the first key and the maximum the last. */
  lemma PeriodOfSorted(g: seq<(Value, int)>)
    requires g != []
    requires forall i, j :: 0 <= i < j < |g| ==> Less(g[i].0, g[j].0)
    ensures MinKey(g) == g[0].0 && MaxKey(g) == g[|g| - 1].0
  {
    KeyBounds(g);
    var lo :| 0 <= lo < |g| && g[lo].0 == MinKey(g);
    var hi :| 0 <= hi < |g| && g[hi].0 == MaxKey(g);
    var last := |g| - 1;
    assert !Less(g[0].0, g[lo].0) && !Less(g[hi].0, g[last].0);
    assert forall j :: 0 < j < |g| ==> Less(g[0].0, g[j].0);
    assert forall j :: 0 <= j < last ==> Less(g[j].0, g[last].0);
  }

  /** The monthly metric has a row exactly when there is an exhibition. */
  lemma MonthsEmpty(ex: Table, parse: Value -> Option<Date>)
    requires MetricsPerMonth(ex, parse).Ok?
    ensures MetricsPerMonth(ex, parse).value == [] <==> ex.rows == []
  {
    var g := MetricsPerMonth(ex, parse).value;
    MonthKeys(ex, parse);
    if ex.rows != [] {
      assert IsGroupKey(g, MonthLabel(Cell(ex.rows[0], "created_at"), parse));
    }
  }

  /** The month labels are ascending, and "NaT" is the last one as soon as one exhibition date does not parse. */
  lemma MonthsOrder(ex: Table, parse: Value -> Option<Date>)
    requires MetricsPerMonth(ex, parse).Ok?
    ensures var g := MetricsPerMonth(ex, parse).value;
            && (forall i, j :: 0 <= i < j < |g| ==> Less(g[i].0, g[j].0))
            && ((exists r :: r in ex.rows && parse(Cell(r, "created_at")).None?) ==> g != [] && g[|g| - 1].0 == Str("NaT"))
  {
    MonthKeys(ex, parse);
  }

  /** On ascending keys, the period line names the first and the last key. */
  lemma PeriodLineSorted(g: seq<(Value, int)>)
    requires g != []
    requires forall i, j :: 0 <= i < j < |g| ==> Less(g[i].0, g[j].0)
    ensures PeriodLine(g) == Period(ValueText(g[0].0), ValueText(g[|g| - 1].0))
  {
    PeriodOfSorted(g);
  }

  /**
   * For a monthly metric the period is unavailable exactly when there are no
   * exhibitions; otherwise it runs from the first to the last month label,
   * and ends at "NaT" as soon as one exhibition date does not parse.
   */
  lemma PeriodOfMonths(ex: Table, parse: Value -> Option<Date>)
    requires MetricsPerMonth(ex, parse).Ok?
    ensures var g := MetricsPerMonth(ex, parse).value;
            && (g == [] <==> ex.rows == [])
            && (ex.rows == [] ==> PeriodLine(g) == NoPeriod)
            && (ex.rows != [] ==> PeriodLine(g) == Period(ValueText(g[0].0), ValueText(g[|g| - 1].0)))
            && ((exists r :: r in ex.rows && parse(Cell(r, "created_at")).None?) ==>
                  PeriodLine(g) == Period(ValueText(g[0].0), "NaT"))
  {
    var g := MetricsPerMonth(ex, parse).value;
    MonthsEmpty(ex, parse);
    MonthsOrder(ex, parse);
    if g != [] {
      PeriodLineSorted(g);
    }
  }

  /** The period line of a successful metrics run, as `PeriodOfMonths` describes it for the exhibitions. */
  lemma PeriodOfRun(data: RecordSet, year: int, parse: Value -> Option<Date>)
    requires AllMetrics(data, year, parse).Ok?
    ensures var g, ex := AllMetrics(data, year, parse).value.months, data["resumes_exhibited"].rows;
            && (g == [] <==> ex == [])
            && (ex == [] ==> PeriodLine(g) == NoPeriod)
            && (ex != [] ==> PeriodLine(g) == Period(ValueText(g[0].0), ValueText(g[|g| - 1].0)))
            && ((exists r :: r in ex && parse(Cell(r, "created_at")).None?) ==>
                  PeriodLine(g) == Period(ValueText(g[0].0), "NaT"))
  {
    AllMetricsEntries(data, year, parse);
    PeriodOfMonths(data["resumes_exhibited"], parse);
  }
}
