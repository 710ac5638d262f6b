/**
 * Loading the record set: every known table, in schema order, is read from
 * its file when the file exists, staged raw under its name, validated against
 * the record set loaded so far, and stored.
 */
module Loader {
  import opened Common
  import opened Tables
  import opened Schemas
  import opened Validators

  /**
   * The contents of the data directory: an entity is absent when its file does
   * not exist, and maps to `None` when the file exists but cannot be parsed.
   */
  type Files = map<Entity, Option<Table>>

  /** `read_file`: a file that cannot be parsed reads as a table with no columns and no rows. */
  function ReadFile(parsed: Option<Table>): Table {
    match parsed
    case Some(t) => t
    case None => Table({}, [])
  }

  /** `load_data` from the entity list `es` on, starting from the record set `data`. */
  function LoadFrom(files: Files, es: seq<Entity>, data: RecordSet): Result<RecordSet, Error>
    decreases |es|
  {
    if es == [] then Ok(data)
    else if es[0] !in files then LoadFrom(files, es[1..], data)
    else
      var raw := ReadFile(files[es[0]]);
      var staged := data[Name(es[0]) := raw];
      var clean :- Validated(raw, es[0], staged, RequiredFields(es[0]));
      LoadFrom(files, es[1..], staged[Name(es[0]) := clean])
  }

  /** `load_data` as a loop over the schema's entities. */
  method LoadData(files: Files) returns (r: Result<RecordSet, Error>)
    ensures r == LoadFrom(files, Entities, map[])
  {
    var data: RecordSet := map[];
    var i := 0;
    while i < |Entities|
      invariant 0 <= i <= |Entities|
      invariant LoadFrom(files, Entities[i..], data) == LoadFrom(files, Entities, map[])
    {
      assert Entities[i..][0] == Entities[i] && Entities[i..][1..] == Entities[i + 1..];
      var e := Entities[i];
      if e in files {
        var raw := ReadFile(files[e]);
        data := data[Name(e) := raw];
        var clean := CompleteValidations(raw, e, data, RequiredFields(e));
        if clean.Err? {
          return Err(clean.error);
        }
        data := data[Name(e) := clean.value];
      }
      i := i + 1;
    }
    return Ok(data);
  }

  /** Loading `a + b` is loading `a`, then loading `b` from its result. */
  lemma {:induction false} LoadFromAppend(files: Files, a: seq<Entity>, b: seq<Entity>, data: RecordSet)
    ensures LoadFrom(files, a + b, data) ==
            match LoadFrom(files, a, data)
            case Err(x) => Err(x)
            case Ok(d) => LoadFrom(files, b, d)
    decreases |a|
  {
    if a != [] {
      assert (a + b)[0] == a[0] && (a + b)[1..] == a[1..] + b;
      if a[0] !in files {
        LoadFromAppend(files, a[1..], b, data);
      } else {
        var raw := ReadFile(files[a[0]]);
        var staged := data[Name(a[0]) := raw];
        var v := Validated(raw, a[0], staged, RequiredFields(a[0]));
        if v.Ok? {
          LoadFromAppend(files, a[1..], b, staged[Name(a[0]) := v.value]);
        }
      }
    } else {
      assert a + b == b;
    }
  }

  /** The names of the listed entities whose file exists. */
  function ExistingNames(files: Files, es: seq<Entity>): set<string> {
    set e | e in es && e in files :: Name(e)
  }

  /** Peeling off the first entity from `ExistingNames`. */
  lemma ExistingNamesCons(files: Files, es: seq<Entity>)
    requires es != []
    ensures ExistingNames(files, es)
            == (if es[0] in files then {Name(es[0])} else {}) + ExistingNames(files, es[1..])
  {
    assert forall e :: e in es <==> e == es[0] || e in es[1..];
  }

  /** The names a successful load adds are exactly those of the entities whose file exists. */
  lemma {:induction false} LoadFromKeys(files: Files, es: seq<Entity>, data: RecordSet)
    requires LoadFrom(files, es, data).Ok?
    ensures LoadFrom(files, es, data).value.Keys == data.Keys + ExistingNames(files, es)
    decreases |es|
  {
    if es != [] {
      ExistingNamesCons(files, es);
      if es[0] !in files {
        LoadFromKeys(files, es[1..], data);
      } else {
        var raw := ReadFile(files[es[0]]);
        var staged := data[Name(es[0]) := raw];
        var v := Validated(raw, es[0], staged, RequiredFields(es[0])).value;
        LoadFromKeys(files, es[1..], staged[Name(es[0]) := v]);
      }
    }
  }

  /** Tables whose names the remaining entities do not use keep their value. */
  lemma {:induction false} LoadFromKeeps(files: Files, es: seq<Entity>, data: RecordSet, n: string)
    requires LoadFrom(files, es, data).Ok? && n in data
    requires forall e :: e in es ==> Name(e) != n
    ensures n in LoadFrom(files, es, data).value && LoadFrom(files, es, data).value[n] == data[n]
    decreases |es|
  {
    if es != [] {
      assert es[0] in es;
      if es[0] !in files {
        LoadFromKeeps(files, es[1..], data, n);
      } else {
        var raw := ReadFile(files[es[0]]);
        var staged := data[Name(es[0]) := raw];
        var v := Validated(raw, es[0], staged, RequiredFields(es[0])).value;
        LoadFromKeeps(files, es[1..], staged[Name(es[0]) := v], n);
      }
    }
  }

  /** The record set in place when `e` is validated: what the entities before it loaded. */
  function Before(files: Files, e: Entity): Result<RecordSet, Error> {
    LoadFrom(files, Entities[..Position(e)], map[])
  }

  /** Splits the full load at entity `e`. */
  lemma LoadSplitAt(files: Files, e: Entity)
    ensures LoadFrom(files, Entities, map[]) ==
            match Before(files, e)
            case Err(x) => Err(x)
            case Ok(d) => LoadFrom(files, [e] + Entities[Position(e) + 1..], d)
  {
    var p := Position(e);
    assert Entities == Entities[..p] + ([e] + Entities[p + 1..]);
    LoadFromAppend(files, Entities[..p], [e] + Entities[p + 1..], map[]);
  }

  /** A successful load holds exactly one table per existing file, named after its entity. */
  lemma LoadedKeys(files: Files)
    requires LoadFrom(files, Entities, map[]).Ok?
    ensures LoadFrom(files, Entities, map[]).value.Keys == set x | x in files :: Name(x)
  {
    EntitiesDistinct();
    LoadFromKeys(files, Entities, map[]);
    assert ExistingNames(files, Entities) == set x | x in files :: Name(x);
  }

  /**
   * When the whole load succeeds, so does the part before any entity `e`, and
   * it holds exactly the existing files among the entities before `e`.
   */
  lemma BeforeKeys(files: Files, e: Entity)
    requires LoadFrom(files, Entities, map[]).Ok?
    ensures Before(files, e).Ok?
    ensures Before(files, e).value.Keys == ExistingNames(files, Entities[..Position(e)])
  {
    LoadSplitAt(files, e);
    LoadFromKeys(files, Entities[..Position(e)], map[]);
  }

  /** One step of the load, for an entity whose file exists. */
  lemma LoadFromStep(files: Files, e: Entity, rest: seq<Entity>, data: RecordSet)
    requires e in files
    ensures var raw := ReadFile(files[e]);
            var v := Validated(raw, e, data[Name(e) := raw], RequiredFields(e));
            LoadFrom(files, [e] + rest, data) ==
              if v.Err? then Err(v.error) else LoadFrom(files, rest, data[Name(e) := raw][Name(e) := v.value])
  {
    assert ([e] + rest)[0] == e && ([e] + rest)[1..] == rest;
  }

  /** No entity after `e` in the load order shares its table name. */
  lemma NamesAfterDiffer(e: Entity)
    ensures forall x :: x in Entities[Position(e) + 1..] ==> Name(x) != Name(e)
  {
    var p := Position(e);
    var rest := Entities[p + 1..];
    EntitiesDistinct();
    forall x | x in rest ensures Name(x) != Name(e) {
      var k :| 0 <= k < |rest| && rest[k] == x;
      assert Entities[p + 1 + k] == x;
      NameInjective(x, e);
    }
  }

  /**
   * The table stored for an existing file is the raw file validated against the
   * tables loaded before it, with itself staged raw under its own name.
   */
  lemma LoadedTableValidated(files: Files, e: Entity)
    requires LoadFrom(files, Entities, map[]).Ok? && e in files
    ensures Before(files, e).Ok?
    ensures var raw := ReadFile(files[e]);
            var v := Validated(raw, e, Before(files, e).value[Name(e) := raw], RequiredFields(e));
            && v.Ok?
            && Name(e) in LoadFrom(files, Entities, map[]).value
            && LoadFrom(files, Entities, map[]).value[Name(e)] == v.value
  {
    LoadSplitAt(files, e);
    var p := Position(e);
    var pre := Before(files, e).value;
    var raw := ReadFile(files[e]);
    var rest := Entities[p + 1..];
    LoadFromStep(files, e, rest, pre);
    var v := Validated(raw, e, pre[Name(e) := raw], RequiredFields(e)).value;
    NamesAfterDiffer(e);
    LoadFromKeeps(files, rest, pre[Name(e) := raw][Name(e) := v], Name(e));
  }

  /**
   * Validating a table that declares a foreign key to a table that is not in
   * the record set never succeeds: either a required field is missing or null
   * checks fail first, or the key column is present and the lookup raises.
   */
  lemma ValidatedNeedsReferencedTables(t: Table, e: Entity, data: RecordSet)
    requires ForeignKeys(e).Some?
    requires Validated(t, e, data, RequiredFields(e)).Ok?
    ensures forall k :: 0 <= k < |ForeignKeys(e).value| ==> Name(ForeignKeys(e).value[k].1) in data
  {
    ValidatedComplete(t, e, data, RequiredFields(e));
    ValidatedReferences(t, e, data, RequiredFields(e));
    ForeignKeysAreRequired(e);
  }

  /**
   * If a table's file exists but the file of a table it references does not,
   * loading fails.
   */
  lemma MissingReferenceAborts(files: Files, e: Entity, k: int)
    requires e in files && ForeignKeys(e).Some? && 0 <= k < |ForeignKeys(e).value|
    requires ForeignKeys(e).value[k].1 !in files
    ensures LoadFrom(files, Entities, map[]).Err?
  {
    var ref := ForeignKeys(e).value[k].1;
    LoadSplitAt(files, e);
    if Before(files, e).Ok? {
      var pre := Before(files, e).value;
      LoadFromKeys(files, Entities[..Position(e)], map[]);
      ForeignKeysPointBackwards(e);
      var raw := ReadFile(files[e]);
      var staged := pre[Name(e) := raw];
      assert Name(ref) !in staged by {
        NameInjective(ref, e);
        forall x | x in Entities[..Position(e)] && x in files ensures Name(x) != Name(ref) {
          NameInjective(x, ref);
        }
      }
      assert ([e] + Entities[Position(e) + 1..])[0] == e;
      if Validated(raw, e, staged, RequiredFields(e)).Ok? {
        ValidatedNeedsReferencedTables(raw, e, staged);
        assert false;
      }
    }
  }

  /** The case the tables were designed around: resumes cannot be loaded without users. */
  lemma ResumesNeedUsers(files: Files)
    requires Resumes in files && Users !in files
    ensures LoadFrom(files, Entities, map[]).Err?
  {
    MissingReferenceAborts(files, Resumes, 0);
  }

  /**
   * A file that exists but cannot be parsed aborts the load: the empty table it
   * reads as lacks every required column.
   */
  lemma ReadFailureAborts(files: Files, e: Entity)
    requires e in files && files[e] == None
    ensures LoadFrom(files, Entities, map[]).Err?
  {
    LoadSplitAt(files, e);
    if Before(files, e).Ok? {
      var staged := Before(files, e).value[Name(e) := Table({}, [])];
      assert RequiredFields(e) != [] && RequiredFields(e)[0] !in Table({}, []).columns;
      assert RequiredStage(EmailStage(Table({}, [])), RequiredFields(e)).Err?;
      assert ([e] + Entities[Position(e) + 1..])[0] == e;
    }
  }
}
