/**
 * The metrics engine: per-flow aggregations over the validated tables, the
 * age distribution, the conversion rate, the skills ranking, the monthly
 * and weekly application counts, and the dictionary that collects the
 * twelve of them. Dates arrive through a `parse` function standing for
 * `pd.to_datetime(..., errors="coerce")`, and the current year is a
 * parameter.
 */
module Metrics {
  import opened Common
  import opened Calendar
  import opened Sequences
  import opened Tables
  import opened Grouping
  import opened Skills

  // ---- per-flow aggregations ----

  /** `application_total`: exhibitions with a non-null `id`, per `model_id`. */
  function ApplicationTotal(exhibited: Table): (r: Result<seq<(Value, int)>, Error>)
    ensures r.Ok? <==> "model_id" in exhibited.columns && "id" in exhibited.columns
  {
    GroupBy(exhibited, "model_id", "id", Count)
  }

  /** `total_votes`: the sum of the non-null `value`s, per `model_id`. */
  function TotalVotes(votes: Table): (r: Result<seq<(Value, int)>, Error>)
    ensures r.Ok? <==> "model_id" in votes.columns && "value" in votes.columns
  {
    GroupBy(votes, "model_id", "value", Sum)
  }

  /** `total_shared`: shares with a non-null `id`, per `model_id`. */
  function TotalShared(shares: Table): (r: Result<seq<(Value, int)>, Error>)
    ensures r.Ok? <==> "model_id" in shares.columns && "id" in shares.columns
  {
    GroupBy(shares, "model_id", "id", Count)
  }

  /** `unique_views`: distinct non-null viewers, per `model_id`. */
  function UniqueViews(views: Table): (r: Result<seq<(Value, int)>, Error>)
    ensures r.Ok? <==> "model_id" in views.columns && "user_id" in views.columns
  {
    GroupBy(views, "model_id", "user_id", NUnique)
  }

  /** `total_views`: views with a non-null `id`, per `model_id`. */
  function TotalViews(views: Table): (r: Result<seq<(Value, int)>, Error>)
    ensures r.Ok? <==> "model_id" in views.columns && "id" in views.columns
  {
    GroupBy(views, "model_id", "id", Count)
  }

  /** `group_by_gender`: users with a non-null `id`, per `gender`. */
  function GroupByGender(users: Table): (r: Result<seq<(Value, int)>, Error>)
    ensures r.Ok? <==> "gender" in users.columns && "id" in users.columns
  {
    GroupBy(users, "gender", "id", Count)
  }

  /** The votes of all flows add up to the votes of every row that names a flow. */
  lemma TotalVotesSum(votes: Table)
    requires TotalVotes(votes).Ok?
    ensures SumCounts(TotalVotes(votes).value) == NonNullTotal(votes.rows, "model_id", IntValue("value"))
  {
    GroupTotal(votes.rows, "model_id", "value", Sum);
  }

  /**
   * `unique_views` and `total_views` have the same flows in the same order,
   * and when every view has an `id`, no flow has more distinct viewers than views.
   */
  lemma UniqueViewsBounded(views: Table)
    requires UniqueViews(views).Ok? && TotalViews(views).Ok?
    requires forall r :: r in views.rows ==> Cell(r, "id") != Null
    ensures var u, n := UniqueViews(views).value, TotalViews(views).value;
            && |u| == |n|
            && forall i :: 0 <= i < |u| ==> u[i].0 == n[i].0 && u[i].1 <= n[i].1
  {
    var ks := GroupKeys(views.rows, "model_id");
    TabulateAt(views.rows, "model_id", "user_id", NUnique, ks);
    TabulateAt(views.rows, "model_id", "id", Count, ks);
    forall i | 0 <= i < |ks| ensures |ValuesAt(views.rows, "model_id", ks[i], "user_id")|
                                     <= TotalIn(views.rows, KeyOf("model_id"), {ks[i]}, Present("id")) {
      DistinctAtMostCount(views.rows, "model_id", ks[i], "user_id", "id");
    }
  }

  // ---- the left join of unique_participants ----

  /** The right rows whose `rkey` equals `v` (a merge matches a null key with a null key). */
  function Matching(right: seq<Row>, rkey: string, v: Value): seq<Row> {
    FilterRows(right, r => Cell(r, rkey) == v)
  }

  /** The left row once per match, carrying the match's `col`. */
  function Attach(l: Row, matches: seq<Row>, col: string): seq<Row> {
    if matches == [] then [] else [l[col := Cell(matches[0], col)]] + Attach(l, matches[1..], col)
  }

  /** One left row joined: once per match, or once with a null `col` when nothing matches. */
  function JoinRow(l: Row, matches: seq<Row>, col: string): seq<Row> {
    if matches == [] then [l[col := Null]] else Attach(l, matches, col)
  }

  /**
   * `left.merge(right[[rkey, col]], left_on=lkey, right_on=rkey, how="left")`,
   * left rows in order, each followed by its matches in right order.
   */
  function LeftJoin(left: seq<Row>, right: seq<Row>, lkey: string, rkey: string, col: string): seq<Row> {
    if left == [] then []
    else JoinRow(left[0], Matching(right, rkey, Cell(left[0], lkey)), col) + LeftJoin(left[1..], right, lkey, rkey, col)
  }

  /**
   * `unique_participants`: exhibitions left-joined to resumes on
   * `resume_id = id`, then distinct non-null `user_id` per `model_id`.
   * A missing table (`data.get` gives `None`) or column raises; a `user_id`
   * on the left as well would be renamed by the merge, so the group-by
   * would not find it.
   */
  function UniqueParticipants(data: RecordSet): (r: Result<seq<(Value, int)>, Error>)
    ensures r.Ok? ==> "resumes_exhibited" in data && "resumes" in data
  {
    if "resumes_exhibited" !in data then Err(MissingTable("resumes_exhibited"))
    else if "resumes" !in data then Err(MissingTable("resumes"))
    else
      var ex, res := data["resumes_exhibited"], data["resumes"];
      if "id" !in res.columns then Err(MissingColumn("id"))
      else if "user_id" !in res.columns then Err(MissingColumn("user_id"))
      else if "resume_id" !in ex.columns then Err(MissingColumn("resume_id"))
      else if "user_id" in ex.columns then Err(MissingColumn("user_id"))
      else
        var joined := LeftJoin(ex.rows, res.rows, "resume_id", "id", "user_id");
        GroupBy(Table(ex.columns + {"user_id"}, joined), "model_id", "user_id", NUnique)
  }

  /** The distinct users of the resumes that a flow's exhibitions point to. */
  ghost function Participants(ex: seq<Row>, res: seq<Row>, flow: Value): set<Value> {
    set l, m | l in ex && m in res && Cell(l, "model_id") == flow && Cell(m, "id") == Cell(l, "resume_id")
                 && Cell(m, "user_id") != Null :: Cell(m, "user_id")
  }

  lemma {:induction false} ValuesAtAppend(a: seq<Row>, b: seq<Row>, k: string, key: Value, c: string)
    ensures ValuesAt(a + b, k, key, c) == ValuesAt(a, k, key, c) + ValuesAt(b, k, key, c)
  {
    if a != [] {
      assert (a + b)[1..] == a[1..] + b;
      ValuesAtAppend(a[1..], b, k, key, c);
    } else {
      assert a + b == b;
    }
  }

  /** The users an attached row group contributes: the non-null `col`s of the matches. */
  lemma {:induction false} AttachValues(l: Row, ms: seq<Row>, k: string, key: Value, col: string)
    requires k != col
    ensures ValuesAt(Attach(l, ms, col), k, key, col)
            == if Cell(l, k) == key then (set m | m in ms && Cell(m, col) != Null :: Cell(m, col)) else {}
  {
    if ms != [] {
      AttachValues(l, ms[1..], k, key, col);
      assert forall m :: m in ms <==> m == ms[0] || m in ms[1..];
    }
  }

  lemma JoinRowValues(l: Row, right: seq<Row>, lkey: string, rkey: string, k: string, key: Value, col: string)
    requires k != col
    ensures ValuesAt(JoinRow(l, Matching(right, rkey, Cell(l, lkey)), col), k, key, col)
            == if Cell(l, k) == key
               then (set m | m in right && Cell(m, rkey) == Cell(l, lkey) && Cell(m, col) != Null :: Cell(m, col))
               else {}
  {
    var ms := Matching(right, rkey, Cell(l, lkey));
    if ms != [] {
      AttachValues(l, ms, k, key, col);
    }
    assert forall m :: m in ms <==> m in right && Cell(m, rkey) == Cell(l, lkey);
  }

  /** The distinct users of the resumes whose `id` is `x`. */
  ghost function ResumeUsers(res: seq<Row>, x: Value): set<Value> {
    set m | m in res && Cell(m, "id") == x && Cell(m, "user_id") != Null :: Cell(m, "user_id")
  }

  /** Peeling off the first exhibition. */
  lemma ParticipantsCons(ex: seq<Row>, res: seq<Row>, flow: Value)
    requires ex != []
    ensures Participants(ex, res, flow)
            == (if Cell(ex[0], "model_id") == flow then ResumeUsers(res, Cell(ex[0], "resume_id")) else {})
               + Participants(ex[1..], res, flow)
  {
    var l := ex[0];
    var head := if Cell(l, "model_id") == flow then ResumeUsers(res, Cell(l, "resume_id")) else {};
    forall u | u in Participants(ex, res, flow) ensures u in head + Participants(ex[1..], res, flow) {
      var x, m :| x in ex && m in res && Cell(x, "model_id") == flow && Cell(m, "id") == Cell(x, "resume_id")
                  && Cell(m, "user_id") != Null && Cell(m, "user_id") == u;
      if x != l { assert x in ex[1..]; }
    }
    forall u | u in head + Participants(ex[1..], res, flow) ensures u in Participants(ex, res, flow) {
      if u in head {
        var m :| m in res && Cell(m, "id") == Cell(l, "resume_id") && Cell(m, "user_id") != Null && Cell(m, "user_id") == u;
        assert l in ex;
      } else {
        var x, m :| x in ex[1..] && m in res && Cell(x, "model_id") == flow && Cell(m, "id") == Cell(x, "resume_id")
                    && Cell(m, "user_id") != Null && Cell(m, "user_id") == u;
        assert x in ex;
      }
    }
  }

  /** After the join, the users of a flow are those of the resumes its exhibitions match. */
  lemma {:induction false} LeftJoinValues(ex: seq<Row>, res: seq<Row>, flow: Value)
    ensures ValuesAt(LeftJoin(ex, res, "resume_id", "id", "user_id"), "model_id", flow, "user_id")
            == Participants(ex, res, flow)
  {
    if ex != [] {
      var l := ex[0];
      LeftJoinValues(ex[1..], res, flow);
      ValuesAtAppend(JoinRow(l, Matching(res, "id", Cell(l, "resume_id")), "user_id"),
                     LeftJoin(ex[1..], res, "resume_id", "id", "user_id"), "model_id", flow, "user_id");
      JoinRowValues(l, res, "resume_id", "id", "model_id", flow, "user_id");
      ParticipantsCons(ex, res, flow);
    } else {
      assert Participants(ex, res, flow) == {};
    }
  }

  lemma {:induction false} AttachKeys(l: Row, ms: seq<Row>, col: string, k: string)
    requires k != col
    ensures forall r :: r in Attach(l, ms, col) ==> Cell(r, k) == Cell(l, k)
  {
    if ms != [] { AttachKeys(l, ms[1..], col, k); }
  }

  /** A joined row group is never empty and keeps the left row's other cells. */
  lemma JoinRowKeys(l: Row, ms: seq<Row>, col: string, k: string)
    requires k != col
    ensures JoinRow(l, ms, col) != []
    ensures forall r :: r in JoinRow(l, ms, col) ==> Cell(r, k) == Cell(l, k)
  {
    AttachKeys(l, ms, col, k);
  }

  /** Every exhibition's flow is a key of the join, and the join has no other. */
  lemma {:induction false} LeftJoinKeys(left: seq<Row>, right: seq<Row>, lkey: string, rkey: string, col: string, k: string)
    requires k != col
    ensures forall v :: HasKey(LeftJoin(left, right, lkey, rkey, col), k, v) <==> HasKey(left, k, v)
  {
    if left != [] {
      var l := left[0];
      LeftJoinKeys(left[1..], right, lkey, rkey, col, k);
      var ms := Matching(right, rkey, Cell(l, lkey));
      var head := JoinRow(l, ms, col);
      var tail := LeftJoin(left[1..], right, lkey, rkey, col);
      JoinRowKeys(l, ms, col, k);
      forall v ensures HasKey(head + tail, k, v) <==> HasKey(left, k, v) {
        if HasKey(left, k, v) {
          var x :| x in left && Cell(x, k) == v;
          if x == l {
            assert head[0] in head + tail && Cell(head[0], k) == v;
          } else {
            assert x in left[1..];
            assert HasKey(tail, k, v);
            var r :| r in tail && Cell(r, k) == v;
            assert r in head + tail;
          }
        }
        if HasKey(head + tail, k, v) {
          var r :| r in head + tail && Cell(r, k) == v;
          if r in head {
            assert l in left && Cell(l, k) == v;
          } else {
            assert HasKey(tail, k, v);
            var x :| x in left[1..] && Cell(x, k) == v;
            assert x in left;
          }
        }
      }
    }
  }

  /**
   * `unique_participants` as a whole: one row per flow named by an exhibition,
   * ascending, counting the distinct users of the resumes that flow's
   * exhibitions point to.
   */
  lemma ParticipantsSpec(data: RecordSet)
    requires UniqueParticipants(data).Ok?
    ensures var g, ex, res := UniqueParticipants(data).value, data["resumes_exhibited"].rows, data["resumes"].rows;
            && (forall i, j :: 0 <= i < j < |g| ==> Less(g[i].0, g[j].0))
            && (forall v :: IsGroupKey(g, v) <==> v != Null && HasKey(ex, "model_id", v))
            && (forall i :: 0 <= i < |g| ==> g[i].1 == |Participants(ex, res, g[i].0)|)
  {
    var ex, res := data["resumes_exhibited"].rows, data["resumes"].rows;
    var joined := LeftJoin(ex, res, "resume_id", "id", "user_id");
    var g := GroupAgg(joined, "model_id", "user_id", NUnique);
    GroupAggSpec(joined, "model_id", "user_id", NUnique);
    LeftJoinKeys(ex, res, "resume_id", "id", "user_id", "model_id");
    forall i | 0 <= i < |g| ensures g[i].1 == |Participants(ex, res, g[i].0)| {
      LeftJoinValues(ex, res, g[i].0);
    }
  }

  // ---- group_by_age ----

  /** The labels of the four age bands, youngest first. */
  const AgeLabels: seq<string> := ["<18", "18-25", "26-55", "56+"]

  /** The birth year `parse` reads from a row, if any. */
  function BirthYear(r: Row, parse: Value -> Option<Date>): Option<int> {
    match parse(Cell(r, "birth_date"))
    case Some(d) => Some(d.year)
    case None => None
  }

  /**
   * The row after `group_by_age` rewrote it: `birth_date` coerced (null when
   * it does not parse) and `age` set to the current year minus the birth year.
   */
  function WithAge(r: Row, year: int, parse: Value -> Option<Date>): (a: Row)
    ensures Cell(a, "age").Int? <==> BirthYear(r, parse).Some?
    ensures Cell(a, "age").Int? ==> Cell(a, "age").i == year - BirthYear(r, parse).value
  {
    match parse(Cell(r, "birth_date"))
    case Some(d) => r["birth_date" := Stamp(d)]["age" := Int(year - d.year)]
    case None => r["birth_date" := Null]["age" := Null]
  }

  /** The users' rows after that rewrite. */
  function AgedRows(rows: seq<Row>, year: int, parse: Value -> Option<Date>): (a: seq<Row>)
    ensures |a| == |rows|
  {
    if rows == [] then [] else [WithAge(rows[0], year, parse)] + AgedRows(rows[1..], year, parse)
  }

  /**
   * The rewrite leaves every other column alone, coerces `birth_date`, and
   * keeps the users in order.
   */
  lemma {:induction false} AgedRowsSpec(rows: seq<Row>, year: int, parse: Value -> Option<Date>)
    ensures var a := AgedRows(rows, year, parse);
            forall i :: 0 <= i < |rows| ==>
              && Cell(a[i], "birth_date") == Coerced(Cell(rows[i], "birth_date"), parse)
              && (forall c :: c != "birth_date" && c != "age" ==> Cell(a[i], c) == Cell(rows[i], c))
  {
    if rows != [] {
      AgedRowsSpec(rows[1..], year, parse);
      var a := AgedRows(rows, year, parse);
      assert a[1..] == AgedRows(rows[1..], year, parse);
      assert forall i :: 0 < i < |rows| ==> a[i] == a[1..][i - 1] && rows[i] == rows[1..][i - 1];
    }
  }

  /** `age.between(lo, hi)`, or `age >= lo` when there is no `hi`; a null age is in no band. */
  predicate InBand(v: Value, lo: int, hi: Option<int>) {
    v.Int? && lo <= v.i && (hi.None? || v.i <= hi.value)
  }

  /** `df[mask].shape[0]`: the rows whose `age` is in the band. */
  function CountAged(rows: seq<Row>, lo: int, hi: Option<int>): nat {
    |FilterRows(rows, r => InBand(Cell(r, "age"), lo, hi))|
  }

  /**
   * `group_by_age`: the number of users in each band, in the order of
   * `AgeLabels`. A table without `birth_date` raises.
   */
  function GroupByAge(users: Table, year: int, parse: Value -> Option<Date>): (r: Result<seq<(string, int)>, Error>)
    ensures r.Ok? <==> "birth_date" in users.columns
    ensures r.Err? ==> r.error == MissingColumn("birth_date")
    ensures r.Ok? ==> |r.value| == |AgeLabels| && forall i :: 0 <= i < |r.value| ==> r.value[i].0 == AgeLabels[i] && r.value[i].1 >= 0
  {
    if "birth_date" !in users.columns then Err(MissingColumn("birth_date"))
    else
      var aged := AgedRows(users.rows, year, parse);
      Ok([("<18", CountAged(aged, 0, Some(17))), ("18-25", CountAged(aged, 18, Some(25))),
          ("26-55", CountAged(aged, 26, Some(55))), ("56+", CountAged(aged, 56, None))])
  }

  /** Users whose birth year puts their age in the band, counted on the input rows. */
  function BornInBand(rows: seq<Row>, year: int, parse: Value -> Option<Date>, lo: int, hi: Option<int>): (n: nat)
    ensures n <= |rows|
  {
    if rows == [] then 0
    else
      var b := BirthYear(rows[0], parse);
      (if b.Some? && InBand(Int(year - b.value), lo, hi) then 1 else 0) + BornInBand(rows[1..], year, parse, lo, hi)
  }

  lemma {:induction false} CountAgedBorn(rows: seq<Row>, year: int, parse: Value -> Option<Date>, lo: int, hi: Option<int>)
    ensures CountAged(AgedRows(rows, year, parse), lo, hi) == BornInBand(rows, year, parse, lo, hi)
  {
    if rows != [] {
      CountAgedBorn(rows[1..], year, parse, lo, hi);
      var a := AgedRows(rows, year, parse);
      assert a[0] == WithAge(rows[0], year, parse) && a[1..] == AgedRows(rows[1..], year, parse);
    }
  }

  /** Each band counts the users whose parsed birth date gives an age in it. */
  lemma AgeBands(users: Table, year: int, parse: Value -> Option<Date>)
    requires "birth_date" in users.columns
    ensures var g := GroupByAge(users, year, parse).value;
            && g[0].1 == BornInBand(users.rows, year, parse, 0, Some(17))
            && g[1].1 == BornInBand(users.rows, year, parse, 18, Some(25))
            && g[2].1 == BornInBand(users.rows, year, parse, 26, Some(55))
            && g[3].1 == BornInBand(users.rows, year, parse, 56, None)
  {
    CountAgedBorn(users.rows, year, parse, 0, Some(17));
    CountAgedBorn(users.rows, year, parse, 18, Some(25));
    CountAgedBorn(users.rows, year, parse, 26, Some(55));
    CountAgedBorn(users.rows, year, parse, 56, None);
  }

  lemma {:induction false} BandsPartition(rows: seq<Row>, year: int, parse: Value -> Option<Date>)
    ensures BornInBand(rows, year, parse, 0, Some(17)) + BornInBand(rows, year, parse, 18, Some(25))
            + BornInBand(rows, year, parse, 26, Some(55)) + BornInBand(rows, year, parse, 56, None)
            == BornInBand(rows, year, parse, 0, None)
  {
    if rows != [] { BandsPartition(rows[1..], year, parse); }
  }

  /**
   * The bands do not overlap and leave no gap: together they count every
   * user with a readable birth date that is not in a later year, so never
   * more than there are users.
   */
  lemma AgeTotal(users: Table, year: int, parse: Value -> Option<Date>)
    requires "birth_date" in users.columns
    ensures var g := GroupByAge(users, year, parse).value;
            && g[0].1 + g[1].1 + g[2].1 + g[3].1 == BornInBand(users.rows, year, parse, 0, None)
            && g[0].1 + g[1].1 + g[2].1 + g[3].1 <= |users.rows|
  {
    AgeBands(users, year, parse);
    BandsPartition(users.rows, year, parse);
  }

  /** A band that holds every user counts them all; one that holds none counts zero. */
  lemma {:induction false} BornAllOrNone(rows: seq<Row>, year: int, parse: Value -> Option<Date>, lo: int, hi: Option<int>)
    ensures (forall r :: r in rows ==> BirthYear(r, parse).Some? && InBand(Int(year - BirthYear(r, parse).value), lo, hi))
            ==> BornInBand(rows, year, parse, lo, hi) == |rows|
    ensures (forall r :: r in rows ==> !(BirthYear(r, parse).Some? && InBand(Int(year - BirthYear(r, parse).value), lo, hi)))
            ==> BornInBand(rows, year, parse, lo, hi) == 0
  {
    if rows != [] {
      BornAllOrNone(rows[1..], year, parse, lo, hi);
      assert forall r :: r in rows[1..] ==> r in rows;
    }
  }

  /** `to_datetime` of a column that already holds timestamps. */
  function StampDate(v: Value): (d: Option<Date>)
    ensures d.Some? <==> v.Stamp?
  {
    if v.Stamp? then Some(v.d) else None
  }

  /** When every user's age is in 26..55, all of them land in that band and the others are empty. */
  lemma AllMiddleAged(users: Table, year: int, parse: Value -> Option<Date>)
    requires "birth_date" in users.columns
    requires forall r :: r in users.rows ==> BirthYear(r, parse).Some? && 26 <= year - BirthYear(r, parse).value <= 55
    ensures GroupByAge(users, year, parse) == Ok([("<18", 0), ("18-25", 0), ("26-55", |users.rows|), ("56+", 0)])
  {
    AgeBands(users, year, parse);
    BornAllOrNone(users.rows, year, parse, 0, Some(17));
    BornAllOrNone(users.rows, year, parse, 18, Some(25));
    BornAllOrNone(users.rows, year, parse, 26, Some(55));
    BornAllOrNone(users.rows, year, parse, 56, None);
  }

  /** A user row holding only a birth date. */
  function BornOn(y: int, m: int, d: int): (r: Row)
    requires 1000 <= y <= 9999 && 1 <= m <= 12 && 1 <= d <= 28
    ensures BirthYear(r, StampDate) == Some(y)
  {
    map["birth_date" := Stamp(CivilDate(y, m, d))]
  }

  /** Five users born between 1990 and 1993 are all in the 26-55 band from 2019 to 2045. */
  lemma AgeExample(year: int)
    requires 2019 <= year <= 2045
    ensures var users := Table({"birth_date"}, [BornOn(1990, 5, 15), BornOn(1992, 12, 11), BornOn(1990, 6, 6),
                                                BornOn(1992, 7, 22), BornOn(1993, 2, 14)]);
            GroupByAge(users, year, StampDate) == Ok([("<18", 0), ("18-25", 0), ("26-55", 5), ("56+", 0)])
  {
    var users := Table({"birth_date"}, [BornOn(1990, 5, 15), BornOn(1992, 12, 11), BornOn(1990, 6, 6),
                                        BornOn(1992, 7, 22), BornOn(1993, 2, 14)]);
    assert forall r :: r in users.rows ==> BirthYear(r, StampDate).Some? && 1990 <= BirthYear(r, StampDate).value <= 1993;
    AllMiddleAged(users, year, StampDate);
  }

  // ---- calculate_conversion_rate ----

  /** A row of the merged frame: the flow, both counts and `participants / applications * 100`. */
  datatype Conversion = Conversion(flow: Value, participants: int, applications: int, rate: Option<real>)

  /** The percentage; `None` stands for the infinity or NaN a zero denominator gives. */
  function Rate(p: int, a: int): (r: Option<real>)
    ensures r.Some? <==> a != 0
    ensures r.Some? ==> r.value * (a as real) == (p as real) * 100.0
  {
    if a == 0 then None else Some((p as real / a as real) * 100.0)
  }

  /** One participants row merged with every applications row of the same flow, in their order. */
  function MatchApps(p: (Value, int), apps: seq<(Value, int)>): (r: seq<Conversion>)
    ensures forall c :: c in r ==> c.flow == p.0
  {
    if apps == [] then []
    else (if apps[0].0 == p.0 then [Conversion(p.0, p.1, apps[0].1, Rate(p.1, apps[0].1))] else [])
         + MatchApps(p, apps[1..])
  }

  /**
   * `calculate_conversion_rate`: the inner merge on the flow, participants'
   * rows in order, each followed by its matches, and the rate column.
   */
  function ConversionRate(ps: seq<(Value, int)>, apps: seq<(Value, int)>): seq<Conversion> {
    if ps == [] then [] else MatchApps(ps[0], apps) + ConversionRate(ps[1..], apps)
  }

  /** The rows of one participant's merge are exactly its pairings with same-flow applications rows. */
  lemma {:induction false} MatchAppsMembers(p: (Value, int), apps: seq<(Value, int)>)
    ensures forall c :: c in MatchApps(p, apps)
                        <==> exists j :: 0 <= j < |apps| && apps[j].0 == p.0
                                          && c == Conversion(p.0, p.1, apps[j].1, Rate(p.1, apps[j].1))
  {
    if apps != [] {
      MatchAppsMembers(p, apps[1..]);
      forall c | c in MatchApps(p, apps[1..])
        ensures exists j :: 0 <= j < |apps| && apps[j].0 == p.0 && c == Conversion(p.0, p.1, apps[j].1, Rate(p.1, apps[j].1))
      {
        var j :| 0 <= j < |apps[1..]| && apps[1..][j].0 == p.0 && c == Conversion(p.0, p.1, apps[1..][j].1, Rate(p.1, apps[1..][j].1));
        assert apps[j + 1] == apps[1..][j];
      }
      forall j | 0 <= j < |apps| && apps[j].0 == p.0
        ensures Conversion(p.0, p.1, apps[j].1, Rate(p.1, apps[j].1)) in MatchApps(p, apps)
      {
        if j > 0 { assert apps[1..][j - 1] == apps[j]; }
      }
    }
  }

  /**
   * The merge holds exactly one row per pair of a participants row and an
   * applications row with the same flow, carrying both counts and the rate.
   */
  lemma {:induction false} ConversionMembers(ps: seq<(Value, int)>, apps: seq<(Value, int)>)
    ensures forall c :: c in ConversionRate(ps, apps)
                        <==> exists i, j :: 0 <= i < |ps| && 0 <= j < |apps| && ps[i].0 == apps[j].0
                                             && c == Conversion(ps[i].0, ps[i].1, apps[j].1, Rate(ps[i].1, apps[j].1))
  {
    if ps != [] {
      ConversionMembers(ps[1..], apps);
      MatchAppsMembers(ps[0], apps);
      forall c | c in ConversionRate(ps[1..], apps)
        ensures exists i, j :: 0 <= i < |ps| && 0 <= j < |apps| && ps[i].0 == apps[j].0
                               && c == Conversion(ps[i].0, ps[i].1, apps[j].1, Rate(ps[i].1, apps[j].1))
      {
        var i, j :| 0 <= i < |ps[1..]| && 0 <= j < |apps| && ps[1..][i].0 == apps[j].0
                    && c == Conversion(ps[1..][i].0, ps[1..][i].1, apps[j].1, Rate(ps[1..][i].1, apps[j].1));
        assert ps[i + 1] == ps[1..][i];
      }
      forall i, j | 0 <= i < |ps| && 0 <= j < |apps| && ps[i].0 == apps[j].0
        ensures Conversion(ps[i].0, ps[i].1, apps[j].1, Rate(ps[i].1, apps[j].1)) in ConversionRate(ps, apps)
      {
        if i > 0 { assert ps[1..][i - 1] == ps[i]; }
      }
    }
  }

  /** Flows strictly ascending (the order a group-by gives). */
  predicate AscendingFlows(rs: seq<Conversion>) {
    forall a, b :: 0 <= a < b < |rs| ==> Less(rs[a].flow, rs[b].flow)
  }

  lemma {:induction false} MatchAppsNone(p: (Value, int), apps: seq<(Value, int)>)
    requires forall j :: 0 <= j < |apps| ==> apps[j].0 != p.0
    ensures MatchApps(p, apps) == []
  {
    if apps != [] {
      assert forall j :: 0 <= j < |apps[1..]| ==> apps[1..][j] == apps[j + 1];
      MatchAppsNone(p, apps[1..]);
    }
  }

  lemma {:induction false} MatchAppsAtMostOne(p: (Value, int), apps: seq<(Value, int)>)
    requires forall i, j :: 0 <= i < j < |apps| ==> apps[i].0 != apps[j].0
    ensures |MatchApps(p, apps)| <= 1
  {
    if apps != [] {
      MatchAppsAtMostOne(p, apps[1..]);
      if apps[0].0 == p.0 {
        forall j | 0 <= j < |apps[1..]| ensures apps[1..][j].0 != p.0 {
          assert apps[1..][j] == apps[j + 1];
        }
        MatchAppsNone(p, apps[1..]);
      }
    }
  }

  /**
   * When both frames come from a group-by (distinct, ascending flows), the
   * merge keeps that order: one row per shared flow, ascending.
   */
  lemma {:induction false} ConversionAscending(ps: seq<(Value, int)>, apps: seq<(Value, int)>)
    requires forall i, j :: 0 <= i < j < |ps| ==> Less(ps[i].0, ps[j].0)
    requires forall i, j :: 0 <= i < j < |apps| ==> apps[i].0 != apps[j].0
    ensures AscendingFlows(ConversionRate(ps, apps))
  {
    if ps != [] {
      ConversionAscending(ps[1..], apps);
      ConversionAbove(ps[1..], apps, ps[0].0);
      MatchAppsAtMostOne(ps[0], apps);
      var head, tail := MatchApps(ps[0], apps), ConversionRate(ps[1..], apps);
      var r := head + tail;
      forall a, b | 0 <= a < b < |r| ensures Less(r[a].flow, r[b].flow) {
        assert r[b] == tail[b - |head|] && r[b] in tail;
        if a < |head| {
          assert r[a] in head;
        } else {
          assert r[a] == tail[a - |head|];
        }
      }
    }
  }

  /** Every flow of the merge is one of the participants' flows, so it lies above any bound they all lie above. */
  lemma {:induction false} ConversionAbove(ps: seq<(Value, int)>, apps: seq<(Value, int)>, v: Value)
    requires forall i :: 0 <= i < |ps| ==> Less(v, ps[i].0)
    ensures forall c :: c in ConversionRate(ps, apps) ==> Less(v, c.flow)
  {
    if ps != [] {
      assert forall i :: 0 <= i < |ps[1..]| ==> ps[1..][i] == ps[i + 1];
      ConversionAbove(ps[1..], apps, v);
    }
  }

  // ---- bounds of the conversion rate ----

  /** With unique resume ids, an exhibition points to at most one user. */
  lemma ResumeUsersAtMostOne(res: seq<Row>, x: Value)
    requires DistinctBy(res, KeyOf("id"))
    ensures |ResumeUsers(res, x)| <= 1
  {
    var s := ResumeUsers(res, x);
    if u :| u in s {
      var m :| m in res && Cell(m, "id") == x && Cell(m, "user_id") != Null && Cell(m, "user_id") == u;
      var i :| 0 <= i < |res| && res[i] == m;
      forall u' | u' in s ensures u' == u {
        var m' :| m' in res && Cell(m', "id") == x && Cell(m', "user_id") != Null && Cell(m', "user_id") == u';
        var i' :| 0 <= i' < |res| && res[i'] == m';
        assert KeyOf("id")(res[i]) == KeyOf("id")(res[i']);
        assert i == i';
      }
      assert s == {u};
    } else {
      assert s == {};
    }
  }

  /** The applications of a flow: its exhibitions with a non-null `id`. */
  lemma {:induction false} CountedPositive(rows: seq<Row>, flow: Value)
    requires forall r :: r in rows ==> Cell(r, "id") != Null
    ensures TotalIn(rows, KeyOf("model_id"), {flow}, Present("id")) >= 0
    ensures HasKey(rows, "model_id", flow) ==> TotalIn(rows, KeyOf("model_id"), {flow}, Present("id")) >= 1
  {
    if rows != [] {
      assert forall r :: r in rows[1..] ==> r in rows;
      CountedPositive(rows[1..], flow);
      if HasKey(rows, "model_id", flow) && Cell(rows[0], "model_id") != flow {
        var r :| r in rows && Cell(r, "model_id") == flow;
        assert r in rows[1..];
      }
    }
  }

  /**
   * When resume ids are unique and every exhibition has an `id`, a flow
   * never has more distinct participants than applications.
   */
  lemma {:induction false} ParticipantsAtMostApplications(ex: seq<Row>, res: seq<Row>, flow: Value)
    requires DistinctBy(res, KeyOf("id"))
    requires forall r :: r in ex ==> Cell(r, "id") != Null
    ensures |Participants(ex, res, flow)| <= TotalIn(ex, KeyOf("model_id"), {flow}, Present("id"))
  {
    if ex == [] {
      assert Participants(ex, res, flow) == {};
    } else {
      assert forall r :: r in ex[1..] ==> r in ex;
      ParticipantsAtMostApplications(ex[1..], res, flow);
      ParticipantsCons(ex, res, flow);
      ResumeUsersAtMostOne(res, Cell(ex[0], "resume_id"));
      assert ex[0] in ex;
      ApplicationsCons(ex, flow);
    }
  }

  /** Peeling off the first exhibition, which has an `id`, from the application count. */
  lemma ApplicationsCons(ex: seq<Row>, flow: Value)
    requires ex != [] && Cell(ex[0], "id") != Null
    ensures TotalIn(ex, KeyOf("model_id"), {flow}, Present("id"))
            == (if Cell(ex[0], "model_id") == flow then 1 else 0) + TotalIn(ex[1..], KeyOf("model_id"), {flow}, Present("id"))
  {
  }

  lemma RateBounds(p: int, a: int)
    requires 0 <= p <= a && 0 < a
    ensures Rate(p, a).Some? && 0.0 <= Rate(p, a).value <= 100.0
  {
    var q := p as real / a as real;
    assert q * (a as real) == p as real;
  }

  /**
   * Under unique resume ids and exhibitions that all have an `id` (what
   * validation leaves behind), every merged flow has at least one
   * application, no more participants than applications, and a rate
   * between 0 and 100.
   */
  lemma ConversionBounded(data: RecordSet)
    requires UniqueParticipants(data).Ok?
    requires ApplicationTotal(data["resumes_exhibited"]).Ok?
    requires DistinctBy(data["resumes"].rows, KeyOf("id"))
    requires forall r :: r in data["resumes_exhibited"].rows ==> Cell(r, "id") != Null
    ensures forall c :: c in ConversionRate(UniqueParticipants(data).value, ApplicationTotal(data["resumes_exhibited"]).value)
                        ==> 0 <= c.participants <= c.applications && 0 < c.applications
                            && c.rate.Some? && 0.0 <= c.rate.value <= 100.0
  {
    var ex, res := data["resumes_exhibited"].rows, data["resumes"].rows;
    var ps, apps := UniqueParticipants(data).value, ApplicationTotal(data["resumes_exhibited"]).value;
    ConversionMembers(ps, apps);
    ParticipantsSpec(data);
    GroupAggSpec(ex, "model_id", "id", Count);
    forall c | c in ConversionRate(ps, apps)
      ensures 0 <= c.participants <= c.applications && 0 < c.applications && c.rate.Some? && 0.0 <= c.rate.value <= 100.0
    {
      var i, j :| 0 <= i < |ps| && 0 <= j < |apps| && ps[i].0 == apps[j].0
                  && c == Conversion(ps[i].0, ps[i].1, apps[j].1, Rate(ps[i].1, apps[j].1));
      var flow := ps[i].0;
      ParticipantsAtMostApplications(ex, res, flow);
      assert IsGroupKey(apps, flow);
      CountedPositive(ex, flow);
      RateBounds(ps[i].1, apps[j].1);
    }
  }

  // ---- metrics_per_month / metrics_per_week ----

  /** `to_datetime(..., errors="coerce")`: the parsed timestamp, or null. */
  function Coerced(v: Value, parse: Value -> Option<Date>): (c: Value)
    ensures c.Null? <==> parse(v).None?
  {
    match parse(v)
    case Some(d) => Stamp(d)
    case None => Null
  }

  /**
   * `to_period("M").astype(str)`: "YYYY-MM", and for a date that does not
   * parse the text of the missing period, "NaT", which is a string and so a
   * group of its own.
   */
  function MonthLabel(v: Value, parse: Value -> Option<Date>): (l: Value)
    ensures l.Str?
  {
    match parse(v)
    case Some(d) => Str(MonthKey(d))
    case None => Str("NaT")
  }

  /** `dt.strftime("%Y-W%U")`: "YYYY-Www", and null for a date that does not parse. */
  function WeekLabel(v: Value, parse: Value -> Option<Date>): (l: Value)
    ensures l.Null? <==> parse(v).None?
  {
    match parse(v)
    case Some(d) => Str(WeekKey(d))
    case None => Null
  }

  function MonthOf(parse: Value -> Option<Date>): Value -> Value {
    v => MonthLabel(v, parse)
  }

  function WeekOf(parse: Value -> Option<Date>): Value -> Value {
    v => WeekLabel(v, parse)
  }

  /** A copy of the rows with `created_at` coerced and the period label in column `col`. */
  function Labelled(rows: seq<Row>, parse: Value -> Option<Date>, col: string, period: Value -> Value): (a: seq<Row>)
    requires col != "created_at"
    ensures |a| == |rows|
    ensures forall i :: 0 <= i < |rows| ==> Cell(a[i], col) == period(Cell(rows[i], "created_at"))
    ensures forall i, c :: 0 <= i < |rows| && c != col && c != "created_at" ==> Cell(a[i], c) == Cell(rows[i], c)
  {
    if rows == [] then []
    else
      var r := rows[0];
      [r["created_at" := Coerced(Cell(r, "created_at"), parse)][col := period(Cell(r, "created_at"))]]
      + Labelled(rows[1..], parse, col, period)
  }

  /** `metrics_per_month`: exhibitions with a non-null `id`, per month label. */
  function MetricsPerMonth(ex: Table, parse: Value -> Option<Date>): (r: Result<seq<(Value, int)>, Error>)
    ensures r.Ok? <==> "created_at" in ex.columns && "id" in ex.columns
    ensures r.Err? ==> r.error == MissingColumn(if "created_at" !in ex.columns then "created_at" else "id")
  {
    if "created_at" !in ex.columns then Err(MissingColumn("created_at"))
    else
      var rows := Labelled(ex.rows, parse, "year_month", MonthOf(parse));
      GroupBy(Table(ex.columns + {"year_month"}, rows), "year_month", "id", Count)
  }

  /** `metrics_per_week`: exhibitions with a non-null `id`, per week label. */
  function MetricsPerWeek(ex: Table, parse: Value -> Option<Date>): (r: Result<seq<(Value, int)>, Error>)
    ensures r.Ok? <==> "created_at" in ex.columns && "id" in ex.columns
    ensures r.Err? ==> r.error == MissingColumn(if "created_at" !in ex.columns then "created_at" else "id")
  {
    if "created_at" !in ex.columns then Err(MissingColumn("created_at"))
    else
      var rows := Labelled(ex.rows, parse, "year_week", WeekOf(parse));
      GroupBy(Table(ex.columns + {"year_week"}, rows), "year_week", "id", Count)
  }

  /** The labels of a relabelled copy are the labels of the original rows. */
  lemma LabelledKeys(rows: seq<Row>, parse: Value -> Option<Date>, col: string, period: Value -> Value)
    requires col != "created_at"
    ensures forall v :: HasKey(Labelled(rows, parse, col, period), col, v)
                        <==> exists r :: r in rows && period(Cell(r, "created_at")) == v
  {
    var a := Labelled(rows, parse, col, period);
    forall v ensures HasKey(a, col, v) <==> exists r :: r in rows && period(Cell(r, "created_at")) == v {
      if HasKey(a, col, v) {
        var x :| x in a && Cell(x, col) == v;
        var i :| 0 <= i < |a| && a[i] == x;
        assert rows[i] in rows;
      }
      if exists r :: r in rows && period(Cell(r, "created_at")) == v {
        var r :| r in rows && period(Cell(r, "created_at")) == v;
        var i :| 0 <= i < |rows| && rows[i] == r;
        assert a[i] in a;
      }
    }
  }

  /** A month label sorts before "NaT": its first character is a digit. */
  lemma MonthBeforeNaT(d: Date)
    ensures Less(Str(MonthKey(d)), Str("NaT"))
  {
    var s := MonthKey(d);
    assert IsDigit(s[0]);
  }

  /** The label is "NaT" exactly when the date does not parse. */
  lemma MonthLabelNaT(v: Value, parse: Value -> Option<Date>)
    ensures MonthLabel(v, parse) == Str("NaT") <==> parse(v).None?
  {
    if parse(v).Some? {
      MonthBeforeNaT(parse(v).value);
      LessIrreflexive(Str("NaT"));
    }
  }

  /** In an ascending sequence, a key that every other key is below comes last. */
  lemma TopIsLast(g: seq<(Value, int)>, top: Value)
    requires forall i, j :: 0 <= i < j < |g| ==> Less(g[i].0, g[j].0)
    requires forall i :: 0 <= i < |g| ==> g[i].0 == top || Less(g[i].0, top)
    ensures IsGroupKey(g, top) ==> g[|g| - 1].0 == top
  {
    if IsGroupKey(g, top) {
      var i :| 0 <= i < |g| && g[i].0 == top;
      var last := g[|g| - 1].0;
      if i < |g| - 1 {
        LessAsymmetric(top, last);
      }
    }
  }

  /** The group-by behind `metrics_per_month`. */
  function MonthGroups(ex: Table, parse: Value -> Option<Date>): seq<(Value, int)> {
    GroupAgg(Labelled(ex.rows, parse, "year_month", MonthOf(parse)), "year_month", "id", Count)
  }

  /** Month groups: ascending, one per label some exhibition has. */
  lemma MonthGroupsSpec(ex: Table, parse: Value -> Option<Date>)
    ensures var g := MonthGroups(ex, parse);
            && (forall i, j :: 0 <= i < j < |g| ==> Less(g[i].0, g[j].0))
            && (forall v :: IsGroupKey(g, v) <==> exists r :: r in ex.rows && MonthLabel(Cell(r, "created_at"), parse) == v)
  {
    var rows := Labelled(ex.rows, parse, "year_month", MonthOf(parse));
    GroupAggSpec(rows, "year_month", "id", Count);
    LabelledKeys(ex.rows, parse, "year_month", MonthOf(parse));
    assert forall r :: MonthOf(parse)(Cell(r, "created_at")) == MonthLabel(Cell(r, "created_at"), parse);
  }

  /** "NaT" is a month group exactly when some date does not parse, and then the last one. */
  lemma MonthNaT(ex: Table, parse: Value -> Option<Date>)
    ensures var g := MonthGroups(ex, parse);
            && (IsGroupKey(g, Str("NaT")) <==> exists r :: r in ex.rows && parse(Cell(r, "created_at")).None?)
            && (IsGroupKey(g, Str("NaT")) ==> g[|g| - 1].0 == Str("NaT"))
  {
    var g := MonthGroups(ex, parse);
    MonthGroupsSpec(ex, parse);
    forall r | r in ex.rows ensures MonthLabel(Cell(r, "created_at"), parse) == Str("NaT") <==> parse(Cell(r, "created_at")).None? {
      MonthLabelNaT(Cell(r, "created_at"), parse);
    }
    forall i | 0 <= i < |g| ensures g[i].0 == Str("NaT") || Less(g[i].0, Str("NaT")) {
      assert IsGroupKey(g, g[i].0);
      var r :| r in ex.rows && MonthLabel(Cell(r, "created_at"), parse) == g[i].0;
      if parse(Cell(r, "created_at")).Some? {
        MonthBeforeNaT(parse(Cell(r, "created_at")).value);
      }
    }
    TopIsLast(g, Str("NaT"));
  }

  /**
   * The months of `metrics_per_month`: ascending, one per label some
   * exhibition has, "NaT" among them exactly when a date does not parse,
   * and then last.
   */
  lemma MonthKeys(ex: Table, parse: Value -> Option<Date>)
    requires MetricsPerMonth(ex, parse).Ok?
    ensures var g := MetricsPerMonth(ex, parse).value;
            && (forall i, j :: 0 <= i < j < |g| ==> Less(g[i].0, g[j].0))
            && (forall v :: IsGroupKey(g, v) <==> exists r :: r in ex.rows && MonthLabel(Cell(r, "created_at"), parse) == v)
            && (IsGroupKey(g, Str("NaT")) <==> exists r :: r in ex.rows && parse(Cell(r, "created_at")).None?)
            && (IsGroupKey(g, Str("NaT")) ==> g[|g| - 1].0 == Str("NaT"))
  {
    assert MetricsPerMonth(ex, parse).value == MonthGroups(ex, parse);
    MonthGroupsSpec(ex, parse);
    MonthNaT(ex, parse);
  }

  /** Rows with a readable date and an `id`. */
  function DatedWithId(rows: seq<Row>, parse: Value -> Option<Date>): (n: nat)
    ensures n <= |rows|
  {
    if rows == [] then 0
    else (if parse(Cell(rows[0], "created_at")).Some? && Cell(rows[0], "id") != Null then 1 else 0)
         + DatedWithId(rows[1..], parse)
  }

  /** Rows with an `id`. */
  function WithId(rows: seq<Row>): (n: nat)
    ensures n <= |rows|
  {
    if rows == [] then 0 else (if Cell(rows[0], "id") != Null then 1 else 0) + WithId(rows[1..])
  }

  lemma {:induction false} MonthRowsTotal(rows: seq<Row>, parse: Value -> Option<Date>)
    ensures NonNullTotal(Labelled(rows, parse, "year_month", MonthOf(parse)), "year_month", Present("id"))
            == WithId(rows)
  {
    if rows != [] {
      MonthRowsTotal(rows[1..], parse);
      var a := Labelled(rows, parse, "year_month", MonthOf(parse));
      assert a[1..] == Labelled(rows[1..], parse, "year_month", MonthOf(parse));
    }
  }

  lemma {:induction false} WeekRowsTotal(rows: seq<Row>, parse: Value -> Option<Date>)
    ensures NonNullTotal(Labelled(rows, parse, "year_week", WeekOf(parse)), "year_week", Present("id"))
            == DatedWithId(rows, parse)
  {
    if rows != [] {
      WeekRowsTotal(rows[1..], parse);
      var a := Labelled(rows, parse, "year_week", WeekOf(parse));
      assert a[1..] == Labelled(rows[1..], parse, "year_week", WeekOf(parse));
    }
  }

  /**
   * The months add up to every exhibition with an `id`, the unreadable
   * dates included (under "NaT"); the weeks only to those whose date reads.
   */
  lemma PeriodTotals(ex: Table, parse: Value -> Option<Date>)
    requires "created_at" in ex.columns && "id" in ex.columns
    ensures SumCounts(MetricsPerMonth(ex, parse).value) == WithId(ex.rows)
    ensures SumCounts(MetricsPerWeek(ex, parse).value) == DatedWithId(ex.rows, parse)
  {
    var months := Labelled(ex.rows, parse, "year_month", MonthOf(parse));
    var weeks := Labelled(ex.rows, parse, "year_week", WeekOf(parse));
    GroupTotal(months, "year_month", "id", Count);
    GroupTotal(weeks, "year_week", "id", Count);
    MonthRowsTotal(ex.rows, parse);
    WeekRowsTotal(ex.rows, parse);
  }

  /** The group-by behind `metrics_per_week`. */
  function WeekGroups(ex: Table, parse: Value -> Option<Date>): seq<(Value, int)> {
    GroupAgg(Labelled(ex.rows, parse, "year_week", WeekOf(parse)), "year_week", "id", Count)
  }

  lemma WeekGroupsSpec(ex: Table, parse: Value -> Option<Date>)
    ensures var g := WeekGroups(ex, parse);
            && (forall i, j :: 0 <= i < j < |g| ==> Less(g[i].0, g[j].0))
            && (forall v :: IsGroupKey(g, v) <==> exists r :: r in ex.rows && WeekLabel(Cell(r, "created_at"), parse) == v && v != Null)
  {
    var rows := Labelled(ex.rows, parse, "year_week", WeekOf(parse));
    GroupAggSpec(rows, "year_week", "id", Count);
    LabelledKeys(ex.rows, parse, "year_week", WeekOf(parse));
    assert forall r :: WeekOf(parse)(Cell(r, "created_at")) == WeekLabel(Cell(r, "created_at"), parse);
  }

  /**
   * The weeks of `metrics_per_week`: ascending, one per week of a date that
   * parses; an unreadable date gives no week.
   */
  lemma WeekKeys(ex: Table, parse: Value -> Option<Date>)
    requires MetricsPerWeek(ex, parse).Ok?
    ensures var g := MetricsPerWeek(ex, parse).value;
            && (forall i, j :: 0 <= i < j < |g| ==> Less(g[i].0, g[j].0))
            && (forall v :: IsGroupKey(g, v)
                  <==> exists r :: r in ex.rows && parse(Cell(r, "created_at")).Some?
                                   && v == Str(WeekKey(parse(Cell(r, "created_at")).value)))
  {
    assert MetricsPerWeek(ex, parse).value == WeekGroups(ex, parse);
    WeekGroupsSpec(ex, parse);
  }

  // ---- get_all_metrics_as_dict ----

  /** One metric's table. */
  datatype Frame =
    | Counts(counts: seq<(Value, int)>)     // a key column and a count column
    | Bands(bands: seq<(string, int)>)      // the age distribution
    | Rates(rates: seq<Conversion>)         // the conversion-rate merge

  /** The twelve metrics, one per dictionary key. */
  datatype Metric =
    | UniqueParticipantsMetric | ApplicationsMetric | VotesMetric | SharesMetric
    | UniqueViewsMetric | TotalViewsMetric | GenderMetric | AgeMetric
    | ConversionMetric | SkillsMetric | MonthMetric | WeekMetric

  /** The order in which the dictionary is filled. */
  const MetricOrder: seq<Metric> := [
    UniqueParticipantsMetric, ApplicationsMetric, VotesMetric, SharesMetric,
    UniqueViewsMetric, TotalViewsMetric, GenderMetric, AgeMetric,
    ConversionMetric, SkillsMetric, MonthMetric, WeekMetric]

  /** The dictionary key of a metric. */
  function Title(m: Metric): string {
    match m
    case UniqueParticipantsMetric => "Participantes Únicos"
    case ApplicationsMetric => "Total Aplicaciones"
    case VotesMetric => "Votos Totales"
    case SharesMetric => "Compartidos"
    case UniqueViewsMetric => "Visualizaciones Únicas"
    case TotalViewsMetric => "Visualizaciones Totales"
    case GenderMetric => "Distribución por Género"
    case AgeMetric => "Distribución por Edad"
    case ConversionMetric => "Tasa de Conversión"
    case SkillsMetric => "Top Skills"
    case MonthMetric => "Métricas por Mes"
    case WeekMetric => "Métricas por Semana"
  }

  /** `data[name]`, which raises when the table is missing. */
  function TableNamed(data: RecordSet, name: string): (r: Result<Table, Error>)
    ensures r.Ok? <==> name in data
    ensures r.Ok? ==> r.value == data[name]
    ensures r.Err? ==> r.error == MissingTable(name)
  {
    if name in data then Ok(data[name]) else Err(MissingTable(name))
  }

  /** The twelve metric tables of one run. */
  datatype AllFrames = AllFrames(
    participants: seq<(Value, int)>, applications: seq<(Value, int)>, votes: seq<(Value, int)>,
    shares: seq<(Value, int)>, uniqueViews: seq<(Value, int)>, totalViews: seq<(Value, int)>,
    gender: seq<(Value, int)>, ages: seq<(string, int)>, conversion: seq<Conversion>,
    skills: seq<(Value, int)>, months: seq<(Value, int)>, weeks: seq<(Value, int)>)

  /**
   * The metrics computed in the order `get_all_metrics_as_dict` computes
   * them, stopping at the first error one of them raises.
   */
  function AllMetrics(data: RecordSet, year: int, parse: Value -> Option<Date>): (r: Result<AllFrames, Error>)
    ensures r.Ok? ==> r.value.conversion == ConversionRate(r.value.participants, r.value.applications)
  {
    var participants :- UniqueParticipants(data);
    var ex := data["resumes_exhibited"];
    var applications :- ApplicationTotal(ex);
    var votesTable :- TableNamed(data, "votes");
    var votes :- TotalVotes(votesTable);
    var sharesTable :- TableNamed(data, "shares");
    var shares :- TotalShared(sharesTable);
    var views :- TableNamed(data, "views");
    var unique :- UniqueViews(views);
    var total :- TotalViews(views);
    var users :- TableNamed(data, "users");
    var gender :- GroupByGender(users);
    var ages :- GroupByAge(users, year, parse);
    var conversion := ConversionRate(participants, applications);
    var skills :- TopSkills(data["resumes"]);
    var months :- MetricsPerMonth(ex, parse);
    // reads the same two columns as the month metric, so it cannot fail here
    var weeks := MetricsPerWeek(ex, parse).value;
    Ok(AllFrames(participants, applications, votes, shares, unique, total, gender, ages,
                 conversion, skills, months, weeks))
  }

  /** The dictionary: each metric's title with its table, in the order the entries are filled. */
  function AsDict(f: AllFrames): (d: seq<(Metric, Frame)>)
    ensures |d| == |MetricOrder| && forall i :: 0 <= i < |d| ==> d[i].0 == MetricOrder[i]
  {
    [(UniqueParticipantsMetric, Counts(f.participants))] + [(ApplicationsMetric, Counts(f.applications))]
    + [(VotesMetric, Counts(f.votes))] + [(SharesMetric, Counts(f.shares))]
    + [(UniqueViewsMetric, Counts(f.uniqueViews))] + [(TotalViewsMetric, Counts(f.totalViews))]
    + [(GenderMetric, Counts(f.gender))] + [(AgeMetric, Bands(f.ages))]
    + [(ConversionMetric, Rates(f.conversion))] + [(SkillsMetric, Counts(f.skills))]
    + [(MonthMetric, Counts(f.months))] + [(WeekMetric, Counts(f.weeks))]
  }

  /**
   * Every table and column the metrics up to the age distribution read, and
   * no `user_id` on the exhibitions.
   */
  predicate AgesComputable(data: RecordSet) {
    && "resumes_exhibited" in data && "resumes" in data && "votes" in data
    && "shares" in data && "views" in data && "users" in data
    && "resume_id" in data["resumes_exhibited"].columns && "model_id" in data["resumes_exhibited"].columns
    && "id" in data["resumes_exhibited"].columns && "user_id" !in data["resumes_exhibited"].columns
    && "id" in data["resumes"].columns && "user_id" in data["resumes"].columns
    && "model_id" in data["votes"].columns && "value" in data["votes"].columns
    && "model_id" in data["shares"].columns && "id" in data["shares"].columns
    && "model_id" in data["views"].columns && "user_id" in data["views"].columns && "id" in data["views"].columns
    && "gender" in data["users"].columns && "id" in data["users"].columns && "birth_date" in data["users"].columns
  }

  /** Every table and column the twelve metrics read. */
  predicate Computable(data: RecordSet) {
    && AgesComputable(data)
    && "skills" in data["resumes"].columns && "created_at" in data["resumes_exhibited"].columns
  }

  lemma AllMetricsOk(data: RecordSet, year: int, parse: Value -> Option<Date>)
    ensures Computable(data) ==> AllMetrics(data, year, parse).Ok?
  {
  }

  lemma AllMetricsNeeds(data: RecordSet, year: int, parse: Value -> Option<Date>)
    ensures AllMetrics(data, year, parse).Ok? ==> Computable(data)
  {
  }

  /** Each entry is the metric of the table it names. */
  lemma AllMetricsEntries(data: RecordSet, year: int, parse: Value -> Option<Date>)
    requires AllMetrics(data, year, parse).Ok?
    ensures var f := AllMetrics(data, year, parse).value;
            && f.participants == UniqueParticipants(data).value
            && f.applications == ApplicationTotal(data["resumes_exhibited"]).value
            && f.votes == TotalVotes(data["votes"]).value
            && f.shares == TotalShared(data["shares"]).value
            && f.uniqueViews == UniqueViews(data["views"]).value
            && f.totalViews == TotalViews(data["views"]).value
            && f.gender == GroupByGender(data["users"]).value
            && f.ages == GroupByAge(data["users"], year, parse).value
            && f.skills == TopSkills(data["resumes"]).value
            && f.months == MetricsPerMonth(data["resumes_exhibited"], parse).value
            && f.weeks == MetricsPerWeek(data["resumes_exhibited"], parse).value
  {
    AllMetricsNeeds(data, year, parse);
  }

  /** The dictionary has twelve distinct keys: no two metrics share a title. */
  lemma TitleInjective(a: Metric, b: Metric)
    ensures Title(a) == Title(b) <==> a == b
  {
  }

  /** Each metric is filled exactly once. */
  lemma MetricOrderDistinct()
    ensures forall i, j :: 0 <= i < j < |MetricOrder| ==> MetricOrder[i] != MetricOrder[j]
  {
  }

  // ---- the run over the caller's dictionary ----

  /** The caller's dictionary of tables, which `group_by_age` writes into. */
  class DataStore {
    var tables: RecordSet

    constructor(tables: RecordSet)
      ensures this.tables == tables
    {
      this.tables := tables;
    }
  }

  /** The users table after `group_by_age`: `birth_date` coerced and an `age` column added. */
  function AgeTable(users: Table, year: int, parse: Value -> Option<Date>): Table {
    Table(users.columns + {"age"}, AgedRows(users.rows, year, parse))
  }

  /**
   * `get_all_metrics_as_dict`: fills the dictionary entry by entry and stops
   * at the first error. Reaching the age distribution rewrites the caller's
   * users table in place, and that write stays even when a later metric
   * fails.
   */
  method GetAllMetricsAsDict(data: DataStore, year: int, parse: Value -> Option<Date>)
    returns (r: Result<seq<(Metric, Frame)>, Error>)
    modifies data
    ensures var f := AllMetrics(old(data.tables), year, parse);
            r == if f.Ok? then Ok(AsDict(f.value)) else Err(f.error)
    ensures data.tables == if AgesComputable(old(data.tables))
                           then old(data.tables)["users" := AgeTable(old(data.tables)["users"], year, parse)]
                           else old(data.tables)
  {
    var participants := UniqueParticipants(data.tables);
    if participants.Err? { return Err(participants.error); }
    var metrics := [(UniqueParticipantsMetric, Counts(participants.value))];
    var ex := data.tables["resumes_exhibited"];
    var applications := ApplicationTotal(ex);
    if applications.Err? { return Err(applications.error); }
    metrics := metrics + [(ApplicationsMetric, Counts(applications.value))];
    if "votes" !in data.tables { return Err(MissingTable("votes")); }
    var votes := TotalVotes(data.tables["votes"]);
    if votes.Err? { return Err(votes.error); }
    metrics := metrics + [(VotesMetric, Counts(votes.value))];
    if "shares" !in data.tables { return Err(MissingTable("shares")); }
    var shares := TotalShared(data.tables["shares"]);
    if shares.Err? { return Err(shares.error); }
    metrics := metrics + [(SharesMetric, Counts(shares.value))];
    if "views" !in data.tables { return Err(MissingTable("views")); }
    var unique := UniqueViews(data.tables["views"]);
    if unique.Err? { return Err(unique.error); }
    metrics := metrics + [(UniqueViewsMetric, Counts(unique.value))];
    var total := TotalViews(data.tables["views"]);
    if total.Err? { return Err(total.error); }
    metrics := metrics + [(TotalViewsMetric, Counts(total.value))];
    if "users" !in data.tables { return Err(MissingTable("users")); }
    var users := data.tables["users"];
    var gender := GroupByGender(users);
    if gender.Err? { return Err(gender.error); }
    metrics := metrics + [(GenderMetric, Counts(gender.value))];
    var ages := GroupByAge(users, year, parse);
    if ages.Err? { return Err(ages.error); }
    data.tables := data.tables["users" := AgeTable(users, year, parse)];
    metrics := metrics + [(AgeMetric, Bands(ages.value))];
    metrics := metrics + [(ConversionMetric, Rates(ConversionRate(participants.value, applications.value)))];
    var skills := TopSkills(data.tables["resumes"]);
    if skills.Err? { return Err(skills.error); }
    metrics := metrics + [(SkillsMetric, Counts(skills.value))];
    var months := MetricsPerMonth(ex, parse);
    if months.Err? { return Err(months.error); }
    metrics := metrics + [(MonthMetric, Counts(months.value))];
    var weeks := MetricsPerWeek(ex, parse);
    metrics := metrics + [(WeekMetric, Counts(weeks.value))];
    assert AllMetrics(old(data.tables), year, parse).value
           == AllFrames(participants.value, applications.value, votes.value, shares.value, unique.value,
                        total.value, gender.value, ages.value, ConversionRate(participants.value, applications.value),
                        skills.value, months.value, weeks.value);
    return Ok(metrics);
  }
}
