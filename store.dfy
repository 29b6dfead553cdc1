/**
 * The record store both front ends write to, seen abstractly: a unique index
 * from questionnaire name to id, the next id to hand out, and the question
 * records in insertion order. `Db` is the value; `RecordStore` is the
 * store as the importers mutate it.
 */
module Store {

  datatype Db<Q> = Db(names: map<string, nat>, nextId: nat, questions: seq<Q>)

  /** Ids are below the next one to hand out, and no two names share one. */
  ghost predicate ValidDb<Q>(db: Db<Q>) {
    && (forall n :: n in db.names ==> db.names[n] < db.nextId)
    && (forall a, b :: a in db.names && b in db.names && a != b ==> db.names[a] != db.names[b])
  }

  function EmptyDb<Q>(): (db: Db<Q>)
    ensures ValidDb(db) && db.names == map[] && db.questions == []
  {
    Db(map[], 1, [])
  }

  /** The SQLite store after `init_db`: empty but for the `Favoritos` questionnaire it seeds. */
  function InitDb<Q>(): (db: Db<Q>)
    ensures ValidDb(db) && db.names.Keys == {"Favoritos"} && db.questions == []
  {
    Ensure(EmptyDb(), "Favoritos").0
  }

  /**
   * Find the questionnaire by exact name, creating it when absent; returns
   * the new store and the questionnaire's id.
   */
  function Ensure<Q>(db: Db<Q>, name: string): (r: (Db<Q>, nat))
    ensures r.0.questions == db.questions
    ensures name in r.0.names && r.1 == r.0.names[name]
    ensures r.0.names.Keys == db.names.Keys + {name}
    ensures forall n :: n in db.names ==> n in r.0.names && r.0.names[n] == db.names[n]
    ensures name in db.names ==> r.0 == db
    ensures ValidDb(db) ==> ValidDb(r.0)
    ensures ValidDb(db) && name !in db.names ==> r.1 !in db.names.Values
  {
    if name in db.names then (db, db.names[name])
    else (Db(db.names[name := db.nextId], db.nextId + 1, db.questions), db.nextId)
  }

  /** Append one question record. */
  function Insert<Q>(db: Db<Q>, q: Q): (r: Db<Q>)
    ensures r.names == db.names && r.nextId == db.nextId
    ensures r.questions == db.questions + [q]
  {
    db.(questions := db.questions + [q])
  }

  /** Ensuring a name a second time changes nothing and yields the same id. */
  lemma EnsureIdempotent<Q>(db: Db<Q>, name: string)
    ensures Ensure(Ensure(db, name).0, name) == Ensure(db, name)
  {
  }

  /** Distinct new names get distinct ids. */
  lemma EnsureDistinct<Q>(db: Db<Q>, a: string, b: string)
    requires ValidDb(db) && a != b
    ensures var (db1, ia) := Ensure(db, a); Ensure(db1, b).1 != ia
  {
  }

  class RecordStore<Q> {
    var names: map<string, nat>
    var nextId: nat
    var questions: seq<Q>

    function State(): Db<Q>
      reads this
    {
      Db(names, nextId, questions)
    }

    ghost predicate Valid()
      reads this
    {
      ValidDb(State())
    }

    constructor ()
      ensures Valid() && State() == EmptyDb()
    {
      names, nextId, questions := map[], 1, [];
    }

    /** Find by name, else insert a questionnaire with the next id. */
    method EnsureQuestionnaire(name: string) returns (id: nat)
      requires Valid()
      modifies this
      ensures Valid()
      ensures (State(), id) == Ensure(old(State()), name)
    {
      if name in names {
        id := names[name];
      } else {
        id := nextId;
        names := names[name := id];
        nextId := nextId + 1;
      }
    }

    /** Insert one question record. */
    method AddQuestion(q: Q)
      requires Valid()
      modifies this
      ensures Valid()
      ensures State() == Insert(old(State()), q)
    {
      questions := questions + [q];
    }
  }
}
