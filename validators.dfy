/**
 * The four-stage cleaning pipeline applied to every table before it joins the
 * record set: unique emails, required fields, identity keys, foreign keys.
 */
module Validators {
  import opened Common
  import opened Calendar
  import opened Sequences
  import opened Tables
  import opened Schemas

  function EmailOf(r: Row): Value { Cell(r, "email") }

  function IdOf(r: Row): Value { Cell(r, "id") }

  function CreatedAt(r: Row): Value { Cell(r, "created_at") }

  // ---------------------------------------------------------------------------
  // Stage 1: unique emails
  // ---------------------------------------------------------------------------

  /** `validation_emails_uniques`: keeps the first row of every email; a missing email counts as one value. */
  function EmailStage(t: Table): (r: Table)
    ensures r.columns == t.columns
  {
    if "email" in t.columns then Table(t.columns, KeepFirst(t.rows, EmailOf, {})) else t
  }

  /**
   * Without an `email` column the table is returned unchanged. With one, the
   * output keeps the input order, no two rows share an email, every email of
   * the input is still present, and the first row of each email survives.
   */
  lemma EmailStageSpec(t: Table)
    ensures "email" !in t.columns ==> EmailStage(t) == t
    ensures "email" in t.columns ==>
              && Subseq(EmailStage(t).rows, t.rows)
              && DistinctBy(EmailStage(t).rows, EmailOf)
              && (forall v :: Occurs(EmailStage(t).rows, v, EmailOf) <==> Occurs(t.rows, v, EmailOf))
              && (forall i :: 0 <= i < |t.rows| && FirstOccurrence(t.rows, i, EmailOf) ==> t.rows[i] in EmailStage(t).rows)
  {
    if "email" in t.columns {
      KeepFirstSubseq(t.rows, EmailOf, {});
      KeepFirstDistinctKeys(t.rows, EmailOf, {});
      KeepFirstKeys(t.rows, EmailOf, {});
      KeepFirstKeepsFirst(t.rows, EmailOf, {});
    }
  }

  /** A table whose emails are already unique passes unchanged. */
  lemma EmailStageUnique(t: Table)
    requires DistinctBy(t.rows, EmailOf)
    ensures EmailStage(t) == t
  {
    KeepFirstAll(t.rows, EmailOf, {});
  }

  // ---------------------------------------------------------------------------
  // Stage 2: required fields
  // ---------------------------------------------------------------------------

  /** The row has a value in every required field. */
  predicate Complete(r: Row, required: seq<string>) {
    forall f :: f in required ==> Cell(r, f) != Null
  }

  /** The first required field the table lacks, if any. */
  function FirstMissing(required: seq<string>, columns: set<string>): (m: Option<string>)
    ensures m.None? <==> forall f :: f in required ==> f in columns
    ensures m.Some? ==> m.value in required && m.value !in columns
  {
    if required == [] then None
    else if required[0] !in columns then Some(required[0])
    else FirstMissing(required[1..], columns)
  }

  /** `validation_required_fields`: selecting an absent column raises `KeyError`; rows with a null required field are dropped. */
  function RequiredStage(t: Table, required: seq<string>): Result<Table, Error> {
    match FirstMissing(required, t.columns)
    case Some(f) => Err(MissingColumn(f))
    case None => Ok(Table(t.columns, FilterRows(t.rows, r => Complete(r, required))))
  }

  /**
   * The stage fails exactly when a required column is absent; otherwise it
   * keeps, in order, exactly the rows with no null required field.
   */
  lemma RequiredStageSpec(t: Table, required: seq<string>)
    ensures RequiredStage(t, required).Err? <==> exists f :: f in required && f !in t.columns
    ensures RequiredStage(t, required).Ok? ==>
              var out := RequiredStage(t, required).value;
              && out.columns == t.columns
              && Subseq(out.rows, t.rows)
              && (forall r :: r in out.rows ==> Complete(r, required))
              && (forall r :: r in t.rows && Complete(r, required) ==> r in out.rows)
  {
    if FirstMissing(required, t.columns).None? {
      FilterRowsSubseq(t.rows, r => Complete(r, required));
    }
  }

  /** A table with every required column and no null required field passes unchanged. */
  lemma RequiredStageComplete(t: Table, required: seq<string>)
    requires forall f :: f in required ==> f in t.columns
    requires forall r :: r in t.rows ==> Complete(r, required)
    ensures RequiredStage(t, required) == Ok(t)
  {
    FilterRowsAll(t.rows, r => Complete(r, required));
  }

  // ---------------------------------------------------------------------------
  // Stage 3: identity keys
  // ---------------------------------------------------------------------------

  /** The row's `id` is neither null nor the empty string. */
  predicate HasValidId(r: Row) {
    IdOf(r) != Null && IdOf(r) != Str("")
  }

  /**
   * Rows with a valid id, sorted by `created_at` (nulls last, equal timestamps
   * in input order), then only the last row of every id.
   */
  function Survivors(rows: seq<Row>): seq<Row> {
    KeepLast(SortBy(FilterRows(rows, HasValidId), CreatedAt, Less), IdOf)
  }

  /** `astype(int)` on one id: integers stay, decimal text is parsed, anything else fails. */
  function CastId(v: Value): Option<int> {
    match v
    case Int(i) => Some(i)
    case Str(s) => ParseInt(s)
    case _ => None
  }

  /** Casts every id to an integer, failing on the first id that does not convert. */
  function CastIds(rows: seq<Row>): (r: Result<seq<Row>, Error>)
    ensures r.Ok? <==> forall k :: 0 <= k < |rows| ==> CastId(IdOf(rows[k])).Some?
    ensures r.Ok? ==> |r.value| == |rows|
    ensures r.Ok? ==> forall k :: 0 <= k < |rows| ==> r.value[k] == rows[k]["id" := Int(CastId(IdOf(rows[k])).value)]
    ensures r.Err? ==> exists k :: 0 <= k < |rows| && CastId(IdOf(rows[k])).None? && r.error == InvalidId(IdOf(rows[k]))
  {
    if rows == [] then Ok([])
    else match CastId(IdOf(rows[0]))
      case None => Err(InvalidId(IdOf(rows[0])))
      case Some(n) =>
        var rest :- CastIds(rows[1..]);
        Ok([rows[0]["id" := Int(n)]] + rest)
  }

  /** `validation_valid_ids`. */
  function IdStage(t: Table): Result<Table, Error> {
    if "id" !in t.columns then Ok(t)
    else if "created_at" !in t.columns then Err(MissingColumn("created_at"))
    else
      var cast :- CastIds(Survivors(t.rows));
      Ok(Table(t.columns, cast))
  }

  /** Every valid id of the input is an integer already. */
  predicate IntIds(rows: seq<Row>) {
    forall r :: r in rows && HasValidId(r) ==> IdOf(r).Int?
  }

  /**
   * The survivors are input rows with valid ids, sorted by `created_at`, one per
   * id, covering every valid id, and each is a latest row of its id.
   */
  lemma SurvivorsSpec(rows: seq<Row>)
    ensures multiset(Survivors(rows)) <= multiset(rows)
    ensures forall o :: o in Survivors(rows) ==> o in rows && HasValidId(o)
    ensures DistinctBy(Survivors(rows), IdOf)
    ensures SortedBy(Survivors(rows), CreatedAt, Less)
    ensures forall r :: r in rows && HasValidId(r) ==> Occurs(Survivors(rows), IdOf(r), IdOf)
    ensures forall o, q :: o in Survivors(rows) && q in rows && HasValidId(q) && IdOf(q) == IdOf(o) ==>
              !Less(CreatedAt(o), CreatedAt(q))
  {
    SurvivorsFrom(rows);
    SurvivorsDistinctSorted(rows);
    SurvivorsCover(rows);
    SurvivorsLatest(rows);
  }

  /** Survivors are input rows with valid ids, each taken at most as often as it occurs. */
  lemma SurvivorsFrom(rows: seq<Row>)
    ensures multiset(Survivors(rows)) <= multiset(rows)
    ensures forall o :: o in Survivors(rows) ==> o in rows && HasValidId(o)
  {
    var valid := FilterRows(rows, HasValidId);
    var sorted := SortBy(valid, CreatedAt, Less);
    FilterRowsSubseq(rows, HasValidId);
    SubseqMultiset(valid, rows);
    KeepLastSubseq(sorted, IdOf);
    SubseqMultiset(Survivors(rows), sorted);
    forall o | o in Survivors(rows) ensures o in rows && HasValidId(o) {
      assert o in multiset(Survivors(rows));
      assert o in multiset(valid);
    }
  }

  /** Survivors have distinct ids and come in `created_at` order. */
  lemma SurvivorsDistinctSorted(rows: seq<Row>)
    ensures DistinctBy(Survivors(rows), IdOf)
    ensures SortedBy(Survivors(rows), CreatedAt, Less)
  {
    var valid := FilterRows(rows, HasValidId);
    var sorted := SortBy(valid, CreatedAt, Less);
    KeepLastSubseq(sorted, IdOf);
    KeepLastDistinctKeys(sorted, IdOf);
    LessIsStrictOrder();
    SortBySorted(valid, CreatedAt, Less);
    SubseqSorted(Survivors(rows), sorted, CreatedAt, Less);
  }

  /** Every valid input row is among the rows that are sorted and deduplicated. */
  lemma ValidSorted(rows: seq<Row>, q: Row)
    requires q in rows && HasValidId(q)
    ensures q in SortBy(FilterRows(rows, HasValidId), CreatedAt, Less)
  {
    var valid := FilterRows(rows, HasValidId);
    var sorted := SortBy(valid, CreatedAt, Less);
    assert q in multiset(sorted);
  }

  /** Every valid id of the input has a survivor. */
  lemma SurvivorsCover(rows: seq<Row>)
    ensures forall r :: r in rows && HasValidId(r) ==> Occurs(Survivors(rows), IdOf(r), IdOf)
  {
    var sorted := SortBy(FilterRows(rows, HasValidId), CreatedAt, Less);
    KeepLastKeys(sorted, IdOf);
    forall r | r in rows && HasValidId(r) ensures Occurs(Survivors(rows), IdOf(r), IdOf) {
      ValidSorted(rows, r);
      var k :| 0 <= k < |sorted| && sorted[k] == r;
      assert Occurs(sorted, IdOf(r), IdOf);
    }
  }

  /** No valid input row with a survivor's id is later than the survivor. */
  lemma SurvivorsLatest(rows: seq<Row>)
    ensures forall o, q :: o in Survivors(rows) && q in rows && HasValidId(q) && IdOf(q) == IdOf(o) ==>
              !Less(CreatedAt(o), CreatedAt(q))
  {
    var sorted := SortBy(FilterRows(rows, HasValidId), CreatedAt, Less);
    LessIsStrictOrder();
    SortBySorted(FilterRows(rows, HasValidId), CreatedAt, Less);
    KeepLastLatest(sorted, IdOf, CreatedAt, Less);
    forall q | q in rows && HasValidId(q) ensures q in sorted {
      ValidSorted(rows, q);
    }
  }

  /**
   * Without an `id` column the table passes unchanged (so duplicate keys of an
   * id-less table such as profiles are kept). With one, a missing `created_at`
   * raises, and otherwise the stage fails exactly when a valid id does not
   * convert to an integer.
   */
  lemma IdStageOutcome(t: Table)
    ensures "id" !in t.columns ==> IdStage(t) == Ok(t)
    ensures "id" in t.columns && "created_at" !in t.columns ==> IdStage(t) == Err(MissingColumn("created_at"))
    ensures "id" in t.columns && "created_at" in t.columns ==>
              (IdStage(t).Ok? <==> forall r :: r in t.rows && HasValidId(r) ==> CastId(IdOf(r)).Some?)
  {
    if "id" in t.columns && "created_at" in t.columns {
      var s := Survivors(t.rows);
      SurvivorsSpec(t.rows);
      if IdStage(t).Ok? {
        forall r | r in t.rows && HasValidId(r) ensures CastId(IdOf(r)).Some? {
          var k :| 0 <= k < |s| && IdOf(s[k]) == IdOf(r);
        }
      }
      if forall r :: r in t.rows && HasValidId(r) ==> CastId(IdOf(r)).Some? {
        forall k | 0 <= k < |s| ensures CastId(IdOf(s[k])).Some? {
          assert s[k] in s;
        }
      }
    }
  }

  /** On success the output rows are the survivors with their ids cast, position by position. */
  lemma IdStageRows(t: Table)
    requires "id" in t.columns && IdStage(t).Ok?
    ensures IdStage(t).value.columns == t.columns
    ensures |IdStage(t).value.rows| == |Survivors(t.rows)|
    ensures forall k :: 0 <= k < |Survivors(t.rows)| ==>
              CastId(IdOf(Survivors(t.rows)[k])).Some? &&
              IdStage(t).value.rows[k] == Survivors(t.rows)[k]["id" := Int(CastId(IdOf(Survivors(t.rows)[k])).value)]
  {
  }

  /**
   * On success every output row is an input row with a valid id, cast to an
   * integer id, that has the latest `created_at` among the input rows sharing
   * its raw id.
   */
  lemma IdStageKeepsLatest(t: Table)
    requires "id" in t.columns && IdStage(t).Ok?
    ensures forall o :: o in IdStage(t).value.rows ==>
              exists r :: && r in t.rows && HasValidId(r)
                          && CastId(IdOf(r)) == Some(IdOf(o).i) && o == r["id" := IdOf(o)]
                          && forall q :: q in t.rows && HasValidId(q) && IdOf(q) == IdOf(r) ==> !Less(CreatedAt(r), CreatedAt(q))
  {
    var s := Survivors(t.rows);
    var out := IdStage(t).value.rows;
    SurvivorsSpec(t.rows);
    IdStageRows(t);
    forall o | o in out
      ensures exists r :: && r in t.rows && HasValidId(r)
                          && CastId(IdOf(r)) == Some(IdOf(o).i) && o == r["id" := IdOf(o)]
                          && forall q :: q in t.rows && HasValidId(q) && IdOf(q) == IdOf(r) ==> !Less(CreatedAt(r), CreatedAt(q))
    {
      var k :| 0 <= k < |out| && out[k] == o;
      assert s[k] in s;
      assert IdOf(o) == Int(CastId(IdOf(s[k])).value);
    }
  }

  /** On success the output is sorted by `created_at`, and every id is an integer. */
  lemma IdStageSorted(t: Table)
    requires "id" in t.columns && IdStage(t).Ok?
    ensures SortedBy(IdStage(t).value.rows, CreatedAt, Less)
    ensures forall o :: o in IdStage(t).value.rows ==> IdOf(o).Int?
  {
    var s := Survivors(t.rows);
    var out := IdStage(t).value.rows;
    SurvivorsSpec(t.rows);
    IdStageRows(t);
    forall k | 0 <= k < |out| ensures CreatedAt(out[k]) == CreatedAt(s[k]) {
      CastKeepsOtherCells(s[k], CastId(IdOf(s[k])).value, "created_at");
    }
  }

  /** Casting the id leaves every other cell alone. */
  lemma CastKeepsOtherCells(r: Row, n: int, c: string)
    requires c != "id"
    ensures Cell(r["id" := Int(n)], c) == Cell(r, c)
  {
  }

  /** On success every valid input id converts, and its integer appears among the output ids. */
  lemma IdStageCoversIds(t: Table)
    requires "id" in t.columns && IdStage(t).Ok?
    ensures forall r :: r in t.rows && HasValidId(r) ==>
              CastId(IdOf(r)).Some? && Occurs(IdStage(t).value.rows, Int(CastId(IdOf(r)).value), IdOf)
  {
    var s := Survivors(t.rows);
    var out := IdStage(t).value.rows;
    SurvivorsCover(t.rows);
    IdStageRows(t);
    forall r | r in t.rows && HasValidId(r)
      ensures CastId(IdOf(r)).Some? && Occurs(out, Int(CastId(IdOf(r)).value), IdOf)
    {
      var k :| 0 <= k < |s| && IdOf(s[k]) == IdOf(r);
      assert out[k] == s[k]["id" := Int(CastId(IdOf(s[k])).value)];
      assert IdOf(out[k]) == Int(CastId(IdOf(r)).value);
    }
  }

  /** Rows whose ids are integers are not changed by the cast. */
  lemma CastIdsIdentity(rows: seq<Row>)
    requires forall r :: r in rows ==> HasValidId(r) && IdOf(r).Int?
    ensures CastIds(rows) == Ok(rows)
  {
    forall k | 0 <= k < |rows| ensures CastId(IdOf(rows[k])).Some? {
      assert rows[k] in rows;
    }
    var out := CastIds(rows).value;
    forall k | 0 <= k < |rows| ensures out[k] == rows[k] {
      assert rows[k] in rows;
      assert "id" in rows[k];
      assert rows[k]["id"] == Int(CastId(IdOf(rows[k])).value);
    }
    assert out == rows;
  }

  /**
   * When every valid input id is already an integer, the stage only removes
   * rows (it never invents or changes one), and the ids it keeps are distinct.
   */
  lemma IdStageIntIds(t: Table)
    requires IdStage(t).Ok? && IntIds(t.rows)
    ensures multiset(IdStage(t).value.rows) <= multiset(t.rows)
    ensures "id" in t.columns ==> IdStage(t).value.rows == Survivors(t.rows) && DistinctBy(IdStage(t).value.rows, IdOf)
  {
    if "id" in t.columns {
      SurvivorsSpec(t.rows);
      CastIdsIdentity(Survivors(t.rows));
    }
  }

  /** A table already cleaned by the stage passes through it unchanged. */
  lemma IdStageStable(t: Table)
    requires "created_at" in t.columns
    requires forall r :: r in t.rows ==> HasValidId(r) && IdOf(r).Int?
    requires SortedBy(t.rows, CreatedAt, Less) && DistinctBy(t.rows, IdOf)
    ensures IdStage(t) == Ok(t)
  {
    if "id" in t.columns {
      FilterRowsAll(t.rows, HasValidId);
      SortByIdentity(t.rows, CreatedAt, Less);
      KeepLastAll(t.rows, IdOf);
      CastIdsIdentity(t.rows);
    }
  }

  /** Two rows whose text ids spell the same number differently. */
  const TextIdOne: Row := map["id" := Str("1"), "created_at" := Str("a")]
  const TextIdZeroOne: Row := map["id" := Str("01"), "created_at" := Str("b")]

  lemma TextIdsFiltered()
    ensures FilterRows([TextIdOne, TextIdZeroOne], HasValidId) == [TextIdOne, TextIdZeroOne]
  {
    var r1, r2 := TextIdOne, TextIdZeroOne;
    assert [r1, r2][1..] == [r2];
    assert FilterRows([r2], HasValidId) == [r2] by { assert [r2][1..] == []; }
  }

  lemma TextIdsSorted()
    ensures SortBy([TextIdOne, TextIdZeroOne], CreatedAt, Less) == [TextIdOne, TextIdZeroOne]
  {
    var r1, r2 := TextIdOne, TextIdZeroOne;
    assert [r1, r2][..1] == [r1];
    assert SortBy([r1], CreatedAt, Less) == [r1] by { assert [r1][..0] == []; }
    assert CreatedAt(r1) == Str("a") && CreatedAt(r2) == Str("b");
    assert !StrLess("b", "a");
  }

  lemma TextIdsKept()
    ensures KeepLast([TextIdOne, TextIdZeroOne], IdOf) == [TextIdOne, TextIdZeroOne]
  {
    var r1, r2 := TextIdOne, TextIdZeroOne;
    assert KeepLast([r2], IdOf) == [r2] by { assert [r2][1..] == []; }
    assert [r1, r2][1..] == [r2];
    assert IdOf(r1) != IdOf(r2) by { assert |"1"| != |"01"|; }
    assert !Occurs([r2], IdOf(r1), IdOf);
  }

  lemma TextIdsParsed()
    ensures CastId(IdOf(TextIdOne)) == Some(1) && CastId(IdOf(TextIdZeroOne)) == Some(1)
  {
    assert ReadDigits("1") == 1;
    assert ReadDigits("01") == 10 * ReadDigits("0") + 1;
  }

  /**
   * Text ids are deduplicated before they are cast, so two spellings of one
   * number ("1" and "01") both survive and end up sharing the id 1.
   */
  lemma IdStageTextIdsCollide()
    ensures var t := Table({"id", "created_at"}, [TextIdOne, TextIdZeroOne]);
            IdStage(t).Ok? && |IdStage(t).value.rows| == 2 && !DistinctBy(IdStage(t).value.rows, IdOf)
  {
    var t := Table({"id", "created_at"}, [TextIdOne, TextIdZeroOne]);
    TextIdsFiltered();
    TextIdsSorted();
    TextIdsKept();
    TextIdsParsed();
    assert Survivors(t.rows) == [TextIdOne, TextIdZeroOne];
    var out := IdStage(t).value.rows;
    assert IdOf(out[0]) == Int(1) == IdOf(out[1]);
  }

  // ---------------------------------------------------------------------------
  // Stage 4: foreign keys
  // ---------------------------------------------------------------------------

  /** The key column of a referenced table: `id` when present, `user_id` otherwise. */
  function RefKey(ref: Table): string {
    if "id" in ref.columns then "id" else "user_id"
  }

  /** A foreign key can be checked: its column is absent, or the referenced table and key column exist. */
  predicate Resolvable(columns: set<string>, fk: (string, Entity), data: RecordSet) {
    fk.0 !in columns || (Name(fk.1) in data && RefKey(data[Name(fk.1)]) in data[Name(fk.1)].columns)
  }

  /** The key values of the referenced table (none when it is not loaded). */
  function ReferencedKeys(data: RecordSet, ref: Entity): set<Value> {
    if Name(ref) in data then ColumnValues(data[Name(ref)], RefKey(data[Name(ref)])) else {}
  }

  /** Every foreign key whose column is present holds a value found in the referenced table. */
  predicate References(r: Row, columns: set<string>, fks: seq<(string, Entity)>, data: RecordSet) {
    forall k :: 0 <= k < |fks| && fks[k].0 in columns ==> Cell(r, fks[k].0) in ReferencedKeys(data, fks[k].1)
  }

  /** The loop of `validation_foreign_keys`, one declared key at a time. */
  function ForeignKeyFold(t: Table, fks: seq<(string, Entity)>, data: RecordSet): Result<Table, Error>
    decreases |fks|
  {
    if fks == [] then Ok(t)
    else
      var (field, ref) := fks[0];
      if field !in t.columns then ForeignKeyFold(t, fks[1..], data)
      else if Name(ref) !in data then Err(MissingTable(Name(ref)))
      else if RefKey(data[Name(ref)]) !in data[Name(ref)].columns then Err(MissingColumn(RefKey(data[Name(ref)])))
      else
        var keys := ReferencedKeys(data, ref);
        ForeignKeyFold(Table(t.columns, FilterRows(t.rows, r => Cell(r, field) in keys)), fks[1..], data)
  }

  /** `validation_foreign_keys`: tables with no declared foreign keys pass unchanged. */
  function ForeignKeyStage(t: Table, e: Entity, data: RecordSet): Result<Table, Error> {
    match ForeignKeys(e)
    case None => Ok(t)
    case Some(fks) => ForeignKeyFold(t, fks, data)
  }

  /**
   * The fold fails exactly when some present foreign-key column refers to a
   * missing table or key column; otherwise it keeps, in order, exactly the rows
   * whose present foreign keys all resolve.
   */
  lemma {:induction false} ForeignKeyFoldSpec(t: Table, fks: seq<(string, Entity)>, data: RecordSet)
    ensures ForeignKeyFold(t, fks, data).Err? <==> exists k :: 0 <= k < |fks| && !Resolvable(t.columns, fks[k], data)
    ensures ForeignKeyFold(t, fks, data).Ok? ==>
              var out := ForeignKeyFold(t, fks, data).value;
              && out.columns == t.columns
              && Subseq(out.rows, t.rows)
              && forall x :: x in t.rows ==> (x in out.rows <==> References(x, t.columns, fks, data))
    decreases |fks|
  {
    if fks == [] {
      SubseqReflexive(t.rows);
    } else {
      var (field, ref) := fks[0];
      if field !in t.columns {
        ForeignKeyFoldSpec(t, fks[1..], data);
        ReferencesTail(t.columns, fks, data);
        if ForeignKeyFold(t, fks, data).Err? {
          var k :| 0 <= k < |fks[1..]| && !Resolvable(t.columns, fks[1..][k], data);
          assert fks[1..][k] == fks[k + 1];
        }
        if exists k :: 0 <= k < |fks| && !Resolvable(t.columns, fks[k], data) {
          var k :| 0 <= k < |fks| && !Resolvable(t.columns, fks[k], data);
          assert fks[1..][k - 1] == fks[k];
        }
      } else if Name(ref) !in data || RefKey(data[Name(ref)]) !in data[Name(ref)].columns {
        assert !Resolvable(t.columns, fks[0], data);
      } else {
        var keep := (r: Row) => Cell(r, field) in ReferencedKeys(data, ref);
        var t' := Table(t.columns, FilterRows(t.rows, keep));
        assert ForeignKeyFold(t, fks, data) == ForeignKeyFold(t', fks[1..], data);
        ForeignKeyFoldSpec(t', fks[1..], data);
        ReferencesTail(t.columns, fks, data);
        if ForeignKeyFold(t, fks, data).Err? {
          var k :| 0 <= k < |fks[1..]| && !Resolvable(t.columns, fks[1..][k], data);
          assert fks[1..][k] == fks[k + 1];
        }
        if exists k :: 0 <= k < |fks| && !Resolvable(t.columns, fks[k], data) {
          var k :| 0 <= k < |fks| && !Resolvable(t.columns, fks[k], data);
          assert fks[1..][k - 1] == fks[k];
        }
        if ForeignKeyFold(t, fks, data).Ok? {
          var out := ForeignKeyFold(t, fks, data).value;
          FilterRowsSubseq(t.rows, keep);
          SubseqTransitive(out.rows, t'.rows, t.rows);
          SubseqMembers(out.rows, t'.rows);
        }
      }
    }
  }

  /** `References` over a list of keys is the first key's condition and `References` over the rest. */
  lemma ReferencesTail(columns: set<string>, fks: seq<(string, Entity)>, data: RecordSet)
    requires fks != []
    ensures forall x :: References(x, columns, fks, data) <==>
              (fks[0].0 in columns ==> Cell(x, fks[0].0) in ReferencedKeys(data, fks[0].1)) && References(x, columns, fks[1..], data)
  {
    forall x ensures References(x, columns, fks, data) <==>
              (fks[0].0 in columns ==> Cell(x, fks[0].0) in ReferencedKeys(data, fks[0].1)) && References(x, columns, fks[1..], data)
    {
      if References(x, columns, fks, data) {
        forall k | 0 <= k < |fks[1..]| && fks[1..][k].0 in columns
          ensures Cell(x, fks[1..][k].0) in ReferencedKeys(data, fks[1..][k].1)
        {
          assert fks[1..][k] == fks[k + 1];
        }
      }
      if (fks[0].0 in columns ==> Cell(x, fks[0].0) in ReferencedKeys(data, fks[0].1)) && References(x, columns, fks[1..], data) {
        forall k | 0 <= k < |fks| && fks[k].0 in columns ensures Cell(x, fks[k].0) in ReferencedKeys(data, fks[k].1) {
          if k > 0 { assert fks[1..][k - 1] == fks[k]; }
        }
      }
    }
  }

  /** When every key resolves and every row already references existing rows, the fold keeps the table. */
  lemma {:induction false} ForeignKeyFoldKeepsAll(t: Table, fks: seq<(string, Entity)>, data: RecordSet)
    requires forall k :: 0 <= k < |fks| ==> Resolvable(t.columns, fks[k], data)
    requires forall x :: x in t.rows ==> References(x, t.columns, fks, data)
    ensures ForeignKeyFold(t, fks, data) == Ok(t)
    decreases |fks|
  {
    if fks != [] {
      var (field, ref) := fks[0];
      ReferencesTail(t.columns, fks, data);
      forall k | 0 <= k < |fks[1..]| ensures Resolvable(t.columns, fks[1..][k], data) {
        assert fks[1..][k] == fks[k + 1];
      }
      assert Resolvable(t.columns, fks[0], data);
      if field in t.columns {
        FilterRowsAll(t.rows, (r: Row) => Cell(r, field) in ReferencedKeys(data, ref));
      }
      ForeignKeyFoldKeepsAll(t, fks[1..], data);
    }
  }

  /** The same stage as a loop over the declared foreign keys, narrowing the table in place. */
  method ValidateForeignKeys(t: Table, e: Entity, data: RecordSet) returns (r: Result<Table, Error>)
    ensures r == ForeignKeyStage(t, e, data)
  {
    if ForeignKeys(e).None? {
      return Ok(t);
    }
    var fks := ForeignKeys(e).value;
    var df := t;
    var k := 0;
    while k < |fks|
      invariant 0 <= k <= |fks|
      invariant ForeignKeyFold(df, fks[k..], data) == ForeignKeyFold(t, fks, data)
    {
      assert fks[k..][0] == fks[k] && fks[k..][1..] == fks[k + 1..];
      var (field, ref) := fks[k];
      if field in df.columns {
        if Name(ref) !in data {
          return Err(MissingTable(Name(ref)));
        }
        var refTable := data[Name(ref)];
        var refKey := RefKey(refTable);
        if refKey !in refTable.columns {
          return Err(MissingColumn(refKey));
        }
        var keys := ReferencedKeys(data, ref);
        df := Table(df.columns, FilterRows(df.rows, r => Cell(r, field) in keys));
      }
      k := k + 1;
    }
    return Ok(df);
  }

  // ---------------------------------------------------------------------------
  // The whole pipeline
  // ---------------------------------------------------------------------------

  /** `complete_validations`: emails, then required fields, then ids, then foreign keys. */
  function Validated(t: Table, e: Entity, data: RecordSet, required: seq<string>): Result<Table, Error> {
    var s2 :- RequiredStage(EmailStage(t), required);
    var s3 :- IdStage(s2);
    ForeignKeyStage(s3, e, data)
  }

  method CompleteValidations(t: Table, e: Entity, data: RecordSet, required: seq<string>)
    returns (r: Result<Table, Error>)
    ensures r == Validated(t, e, data, required)
  {
    var s1 := EmailStage(t);
    var s2 := RequiredStage(s1, required);
    if s2.Err? {
      return Err(s2.error);
    }
    var s3 := IdStage(s2.value);
    if s3.Err? {
      return Err(s3.error);
    }
    r := ValidateForeignKeys(s3.value, e, data);
  }

  /** The id stage keeps every non-id cell of the rows it keeps, so completeness carries over. */
  lemma IdStageKeepsComplete(t: Table, required: seq<string>)
    requires IdStage(t).Ok? && forall r :: r in t.rows ==> Complete(r, required)
    ensures forall o :: o in IdStage(t).value.rows ==> Complete(o, required)
  {
    if "id" in t.columns {
      var s := Survivors(t.rows);
      var out := IdStage(t).value.rows;
      SurvivorsSpec(t.rows);
      IdStageRows(t);
      forall o | o in out ensures Complete(o, required) {
        var k :| 0 <= k < |out| && out[k] == o;
        assert s[k] in s;
        forall f | f in required ensures Cell(o, f) != Null {
          if f != "id" { CastKeepsOtherCells(s[k], CastId(IdOf(s[k])).value, f); }
        }
      }
    }
  }

  /** The id stage never makes two rows share an email. */
  lemma IdStageKeepsEmailsDistinct(t: Table)
    requires IdStage(t).Ok? && DistinctBy(t.rows, EmailOf)
    ensures DistinctBy(IdStage(t).value.rows, EmailOf)
  {
    if "id" in t.columns {
      var s := Survivors(t.rows);
      var out := IdStage(t).value.rows;
      SurvivorsSpec(t.rows);
      DistinctSubMultiset(s, t.rows, EmailOf);
      IdStageRows(t);
      forall k | 0 <= k < |out| ensures EmailOf(out[k]) == EmailOf(s[k]) {
        CastKeepsOtherCells(s[k], CastId(IdOf(s[k])).value, "email");
      }
    }
  }

  /** The intermediate tables of a successful run. */
  lemma ValidatedSteps(t: Table, e: Entity, data: RecordSet, required: seq<string>) returns (s2: Table, s3: Table)
    requires Validated(t, e, data, required).Ok?
    ensures RequiredStage(EmailStage(t), required) == Ok(s2)
    ensures IdStage(s2) == Ok(s3)
    ensures ForeignKeyStage(s3, e, data) == Validated(t, e, data, required)
  {
    s2 := RequiredStage(EmailStage(t), required).value;
    s3 := IdStage(s2).value;
  }

  /**
   * The foreign-key stage keeps the columns and the order of the rows; when the
   * table declares foreign keys, a successful run leaves only rows whose
   * present foreign keys resolve, and every declared key was checkable.
   */
  lemma ForeignKeyStageSpec(t: Table, e: Entity, data: RecordSet)
    requires ForeignKeyStage(t, e, data).Ok?
    ensures ForeignKeyStage(t, e, data).value.columns == t.columns
    ensures Subseq(ForeignKeyStage(t, e, data).value.rows, t.rows)
    ensures ForeignKeys(e).Some? ==>
              && (forall k :: 0 <= k < |ForeignKeys(e).value| ==> Resolvable(t.columns, ForeignKeys(e).value[k], data))
              && (forall x :: x in t.rows ==>
                    (x in ForeignKeyStage(t, e, data).value.rows <==> References(x, t.columns, ForeignKeys(e).value, data)))
  {
    if ForeignKeys(e).Some? {
      ForeignKeyFoldSpec(t, ForeignKeys(e).value, data);
    } else {
      SubseqReflexive(t.rows);
    }
  }

  lemma ValidatedComplete(t: Table, e: Entity, data: RecordSet, required: seq<string>)
    requires Validated(t, e, data, required).Ok?
    ensures Validated(t, e, data, required).value.columns == t.columns
    ensures forall f :: f in required ==> f in t.columns
    ensures forall r :: r in Validated(t, e, data, required).value.rows ==> Complete(r, required)
  {
    var s2, s3 := ValidatedSteps(t, e, data, required);
    RequiredStageSpec(EmailStage(t), required);
    IdStageOutcome(s2);
    IdStageKeepsComplete(s2, required);
    ForeignKeyStageSpec(s3, e, data);
    SubseqMembers(Validated(t, e, data, required).value.rows, s3.rows);
  }

  lemma ValidatedEmails(t: Table, e: Entity, data: RecordSet, required: seq<string>)
    requires Validated(t, e, data, required).Ok? && "email" in t.columns
    ensures DistinctBy(Validated(t, e, data, required).value.rows, EmailOf)
  {
    var s2, s3 := ValidatedSteps(t, e, data, required);
    var s1 := EmailStage(t);
    EmailStageSpec(t);
    RequiredStageSpec(s1, required);
    SubseqMultiset(s2.rows, s1.rows);
    DistinctSubMultiset(s2.rows, s1.rows, EmailOf);
    IdStageKeepsEmailsDistinct(s2);
    ForeignKeyStageSpec(s3, e, data);
    SubseqMultiset(Validated(t, e, data, required).value.rows, s3.rows);
    DistinctSubMultiset(Validated(t, e, data, required).value.rows, s3.rows, EmailOf);
  }

  lemma ValidatedIds(t: Table, e: Entity, data: RecordSet, required: seq<string>)
    requires Validated(t, e, data, required).Ok? && "id" in t.columns
    ensures SortedBy(Validated(t, e, data, required).value.rows, CreatedAt, Less)
    ensures forall r :: r in Validated(t, e, data, required).value.rows ==> IdOf(r).Int?
  {
    var s2, s3 := ValidatedSteps(t, e, data, required);
    RequiredStageSpec(EmailStage(t), required);
    IdStageSorted(s2);
    ForeignKeyStageSpec(s3, e, data);
    SubseqSorted(Validated(t, e, data, required).value.rows, s3.rows, CreatedAt, Less);
    SubseqMembers(Validated(t, e, data, required).value.rows, s3.rows);
  }

  lemma ValidatedReferences(t: Table, e: Entity, data: RecordSet, required: seq<string>)
    requires Validated(t, e, data, required).Ok? && ForeignKeys(e).Some?
    ensures forall r :: r in Validated(t, e, data, required).value.rows ==> References(r, t.columns, ForeignKeys(e).value, data)
    ensures forall k :: 0 <= k < |ForeignKeys(e).value| ==> Resolvable(t.columns, ForeignKeys(e).value[k], data)
  {
    var s2, s3 := ValidatedSteps(t, e, data, required);
    RequiredStageSpec(EmailStage(t), required);
    IdStageOutcome(s2);
    if "id" in s2.columns { IdStageRows(s2); }
    ForeignKeyStageSpec(s3, e, data);
    SubseqMembers(Validated(t, e, data, required).value.rows, s3.rows);
  }

  /**
   * What a successful run guarantees: the output has the input's columns, which
   * include every required field; no required field is null; emails are unique;
   * ids are integers in `created_at` order; and every present foreign key of
   * every row resolves in the record set.
   */
  lemma ValidatedSpec(t: Table, e: Entity, data: RecordSet, required: seq<string>)
    requires Validated(t, e, data, required).Ok?
    ensures var out := Validated(t, e, data, required).value;
      && out.columns == t.columns
      && (forall f :: f in required ==> f in t.columns)
      && (forall r :: r in out.rows ==> Complete(r, required))
      && ("email" in t.columns ==> DistinctBy(out.rows, EmailOf))
      && ("id" in t.columns ==> SortedBy(out.rows, CreatedAt, Less) && forall r :: r in out.rows ==> IdOf(r).Int?)
      && (ForeignKeys(e).Some? ==> forall r :: r in out.rows ==> References(r, t.columns, ForeignKeys(e).value, data))
  {
    ValidatedComplete(t, e, data, required);
    if "email" in t.columns { ValidatedEmails(t, e, data, required); }
    if "id" in t.columns { ValidatedIds(t, e, data, required); }
    if ForeignKeys(e).Some? { ValidatedReferences(t, e, data, required); }
  }

  /**
   * When every valid input id is already an integer, a successful run only
   * removes rows, and the ids it keeps are distinct.
   */
  lemma ValidatedIntIds(t: Table, e: Entity, data: RecordSet, required: seq<string>)
    requires Validated(t, e, data, required).Ok? && IntIds(t.rows)
    ensures multiset(Validated(t, e, data, required).value.rows) <= multiset(t.rows)
    ensures "id" in t.columns ==> DistinctBy(Validated(t, e, data, required).value.rows, IdOf)
  {
    var s2, s3 := ValidatedSteps(t, e, data, required);
    var s1 := EmailStage(t);
    var out := Validated(t, e, data, required).value;
    assert multiset(s1.rows) <= multiset(t.rows) by {
      EmailStageSpec(t);
      if "email" in t.columns { SubseqMultiset(s1.rows, t.rows); }
    }
    RequiredStageSpec(s1, required);
    SubseqMultiset(s2.rows, s1.rows);
    forall r | r in s2.rows && HasValidId(r) ensures IdOf(r).Int? {
      assert r in multiset(s2.rows);
      assert r in multiset(t.rows);
    }
    IdStageIntIds(s2);
    ForeignKeyStageSpec(s3, e, data);
    SubseqMultiset(out.rows, s3.rows);
    if "id" in t.columns {
      DistinctSubMultiset(out.rows, s3.rows, IdOf);
    }
  }

  /**
   * Running the pipeline again on its own output, with the same record set,
   * changes nothing, provided the valid input ids were integers (text ids can
   * collide after the cast: see `IdStageTextIdsCollide`).
   */
  lemma ValidatedIdempotent(t: Table, e: Entity, data: RecordSet, required: seq<string>)
    requires Validated(t, e, data, required).Ok? && IntIds(t.rows)
    ensures Validated(Validated(t, e, data, required).value, e, data, required) == Validated(t, e, data, required)
  {
    var s2, s3 := ValidatedSteps(t, e, data, required);
    var out := Validated(t, e, data, required).value;
    ValidatedSpec(t, e, data, required);
    ValidatedIntIds(t, e, data, required);
    assert EmailStage(out) == out by {
      if "email" in out.columns { EmailStageUnique(out); }
    }
    RequiredStageComplete(out, required);
    assert IdStage(out) == Ok(out) by {
      if "id" in out.columns {
        RequiredStageSpec(EmailStage(t), required);
        IdStageOutcome(s2);
        IdStageStable(out);
      }
    }
    assert ForeignKeyStage(out, e, data) == Ok(out) by {
      if ForeignKeys(e).Some? {
        ValidatedReferences(t, e, data, required);
        ForeignKeyFoldKeepsAll(out, ForeignKeys(e).value, data);
      }
    }
  }
}
