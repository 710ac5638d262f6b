/**
 * The static configuration: the columns each entity file must provide, the
 * foreign-key edges each entity is checked against, the order in which the
 * entities are declared (which is also the loading order), and the entities
 * that are persisted. The dictionaries are indexed by an enumerated entity.
 */
module Schemas {
  import opened Common

  datatype Entity = Flows | Users | Resumes | ResumesExhibited | Votes | Shares | Views | Profiles

  /** The keys of `FIELDS_FILES`, in declaration order. */
  const Entities: seq<Entity> := [Flows, Users, Resumes, ResumesExhibited, Votes, Shares, Views, Profiles]

  /** The entity's key in the record set and its file name stem. */
  function Name(e: Entity): string {
    match e
    case Flows => "flows"
    case Users => "users"
    case Resumes => "resumes"
    case ResumesExhibited => "resumes_exhibited"
    case Votes => "votes"
    case Shares => "shares"
    case Views => "views"
    case Profiles => "profiles"
  }

  /** `FIELDS_FILES[e]`: the columns that must be present and non-null. */
  function RequiredFields(e: Entity): seq<string> {
    match e
    case Flows => ["id", "name", "slug", "description", "status", "created_at", "views"]
    case Users => ["id", "name", "email", "slug", "phone", "country", "city", "gender", "birth_date", "created_at"]
    case Resumes => ["id", "user_id", "name", "slug", "video", "views", "level_experience", "status", "role_name", "skills", "created_at"]
    case ResumesExhibited => ["id", "resume_id", "model_id", "model_type", "sent_at", "created_at"]
    case Votes => ["id", "model_id", "model_type", "user_id", "value", "created_at"]
    case Shares => ["id", "model_id", "model_type", "user_id", "created_at"]
    case Views => ["id", "model_id", "model_type", "user_id", "type", "created_at"]
    case Profiles => ["user_id", "skills", "tools", "languages", "dream_brands", "dream_roles", "areas_of_interest"]
  }

  /** `FIELDS_FK.get(e)`: (foreign-key column, referenced entity) pairs in order; `None` without an entry. */
  function ForeignKeys(e: Entity): Option<seq<(string, Entity)>> {
    match e
    case Flows => None
    case Users => None
    case Resumes => Some([("user_id", Users)])
    case ResumesExhibited => Some([("resume_id", Resumes), ("model_id", Flows)])
    case Votes => Some([("model_id", Flows), ("user_id", Users)])
    case Shares => Some([("model_id", Flows), ("user_id", Users)])
    case Views => Some([("model_id", Flows), ("user_id", Users)])
    case Profiles => Some([("user_id", Users)])
  }

  /** The keys of `TABLES_MAP`: the entities that are persisted. */
  const Persisted: seq<Entity> := [Flows, Users, Resumes, ResumesExhibited, Votes, Views, Profiles]

  /** Position of an entity in declaration order. */
  function Position(e: Entity): (i: int)
    ensures 0 <= i < |Entities| && Entities[i] == e
  {
    match e
    case Flows => 0
    case Users => 1
    case Resumes => 2
    case ResumesExhibited => 3
    case Votes => 4
    case Shares => 5
    case Views => 6
    case Profiles => 7
  }

  /** Entity names are distinct, so the record set has one key per entity. */
  lemma NameInjective(a: Entity, b: Entity)
    ensures Name(a) == Name(b) <==> a == b
  {
  }

  /** Each entity is declared exactly once. */
  lemma EntitiesDistinct()
    ensures forall i, j :: 0 <= i < j < |Entities| ==> Entities[i] != Entities[j]
    ensures forall e: Entity :: e in Entities
  {
    forall e: Entity ensures e in Entities { assert Entities[Position(e)] == e; }
  }

  /** Every foreign-key column is also a required column of its entity. */
  lemma ForeignKeysAreRequired(e: Entity)
    requires ForeignKeys(e).Some?
    ensures forall k :: 0 <= k < |ForeignKeys(e).value| ==> ForeignKeys(e).value[k].0 in RequiredFields(e)
  {
    var fks, fields := ForeignKeys(e).value, RequiredFields(e);
    match e
    case Resumes => assert fields[1] == fks[0].0;
    case ResumesExhibited => assert fields[1] == fks[0].0 && fields[2] == fks[1].0;
    case Votes => assert fields[1] == fks[0].0 && fields[3] == fks[1].0;
    case Shares => assert fields[1] == fks[0].0 && fields[3] == fks[1].0;
    case Views => assert fields[1] == fks[0].0 && fields[3] == fks[1].0;
    case Profiles => assert fields[0] == fks[0].0;
  }

  /** Every referenced entity is declared before the entity that references it. */
  lemma ForeignKeysPointBackwards(e: Entity)
    requires ForeignKeys(e).Some?
    ensures forall k :: 0 <= k < |ForeignKeys(e).value| ==> Position(ForeignKeys(e).value[k].1) < Position(e)
  {
  }

  /** `users` and `flows` have no foreign keys. */
  lemma UsersAndFlowsHaveNoForeignKeys()
    ensures ForeignKeys(Users).None? && ForeignKeys(Flows).None?
  {
  }

  /** Every entity but `profiles` lists `id` and `created_at`; `profiles` lists neither. */
  lemma IdAndCreatedAtColumns(e: Entity)
    ensures e != Profiles <==> "id" in RequiredFields(e)
    ensures e != Profiles <==> "created_at" in RequiredFields(e)
  {
    var f := RequiredFields(e);
    if e != Profiles {
      assert f[0] == "id";
      match e
      case Flows => assert f[5] == "created_at";
      case Users => assert f[9] == "created_at";
      case Resumes => assert f[10] == "created_at";
      case ResumesExhibited => assert f[5] == "created_at";
      case Votes => assert f[5] == "created_at";
      case Shares => assert f[4] == "created_at";
      case Views => assert f[5] == "created_at";
    } else {
      forall k | 0 <= k < |f| ensures f[k] != "id" && f[k] != "created_at" { }
    }
  }

  /** Persisted entities are the declared ones except `shares`, in the same order. */
  lemma PersistedEntities()
    ensures Persisted == Entities[..5] + Entities[6..]
    ensures Entities[5] == Shares && Shares !in Persisted
  {
  }
}
