/** The document store as the handlers see it: what a save and an
    update-by-id return, given the schema of Model/contactData.js, its
    unique indexes on email and phoneNumber, and whether the engine can be
    reached. The database engine itself is abstracted to a map from id to
    record. */
module ContactStore {
  import opened Wrappers
  import opened ContactSchema

  /** Whether the engine answers. A failing engine (lost connection, an id
      it cannot cast) rejects the operation with an error whose `message`
      may be missing. */
  datatype Engine = Reachable | Failing(message: Option<string>)

  /** The key pattern of a duplicate-key error always names at least one path. */
  type KeyPattern = s: seq<string> | |s| > 0 witness ["_id"]

  /** How a write is rejected: by the schema's validators (one entry per
      failing path), by a unique index (error code 11000, with the index's
      key pattern and the colliding values), or for any other reason. */
  datatype StoreError =
    | Validation(errs: seq<FieldErr>)
    | Duplicate(keyPattern: KeyPattern, keyValue: map<string, string>)
    | Other(message: Option<string>)

  /** The shapes the store actually produces: a validation error names at
      least one path, and a duplicate-key error gives the value of its
      first key. */
  predicate WellFormedError(e: StoreError) {
    match e
    case Validation(errs) => errs != []
    case Duplicate(keys, values) => keys[0] in values
    case Other(_) => true
  }

  /** Another record than `rec` already holds its email. */
  predicate EmailTaken(records: map<Id, Contact>, rec: Contact) {
    exists id :: id in records && id != rec.id && records[id].email == rec.email
  }

  /** Another record than `rec` already holds its phone number. */
  predicate PhoneTaken(records: map<Id, Contact>, rec: Contact) {
    exists id :: id in records && id != rec.id && records[id].phoneNumber == rec.phoneNumber
  }

  /** The unique index a write of `rec` violates, if any, checked in index
      order: `_id` (only an insert can collide on it), email, phoneNumber. */
  function Conflict(records: map<Id, Contact>, rec: Contact, insert: bool): (r: Option<StoreError>)
    ensures r == None <==> (insert ==> rec.id !in records) && !EmailTaken(records, rec) && !PhoneTaken(records, rec)
    ensures r.Some? ==> r.value.Duplicate? && WellFormedError(r.value) && |r.value.keyPattern| == 1
    ensures r.Some? && r.value.keyPattern[0] == "_id" ==> insert && rec.id in records && r.value.keyValue["_id"] == rec.id
    ensures r.Some? && r.value.keyPattern[0] == "email" ==>
      !(insert && rec.id in records) && EmailTaken(records, rec) && r.value.keyValue["email"] == rec.email
    ensures r.Some? && r.value.keyPattern[0] == "phoneNumber" ==>
      !(insert && rec.id in records) && !EmailTaken(records, rec) && PhoneTaken(records, rec)
      && r.value.keyValue["phoneNumber"] == rec.phoneNumber
    ensures r.Some? ==> r.value.keyPattern[0] in {"_id", "email", "phoneNumber"}
  {
    if insert && rec.id in records then Some(Duplicate(["_id"], map["_id" := rec.id]))
    else if EmailTaken(records, rec) then Some(Duplicate(["email"], map["email" := rec.email]))
    else if PhoneTaken(records, rec) then Some(Duplicate(["phoneNumber"], map["phoneNumber" := rec.phoneNumber]))
    else None
  }

  /** What the store keeps true: every record under its own id, satisfying
      the field rules, and no two sharing an email or a phone number. */
  ghost predicate StoreInvariant(records: map<Id, Contact>) {
    && KeyedById(records)
    && UniqueKeys(records)
    && forall id :: id in records ==> WellFormed(records[id])
  }

  /** `new contactData(body).save()`: validation of the whole document
      first, then the engine, then the unique indexes; on success the new
      record carries the fresh id and both timestamps at `now`. */
  function SaveOutcome(records: map<Id, Contact>, c: Candidate, freshId: Id, now: Time, engine: Engine)
    : (out: Result<Contact, StoreError>)
    ensures Validate(c, OnCreate) != [] ==> out == Err(Validation(Validate(c, OnCreate)))
    ensures Validate(c, OnCreate) == [] && engine.Failing? ==> out == Err(Other(engine.message))
    ensures out.Ok? <==>
      Validate(c, OnCreate) == [] && engine.Reachable? && Conflict(records, NewContact(freshId, c, now), true).None?
    ensures out.Ok? ==> out.value == NewContact(freshId, c, now) && freshId !in records
    ensures Validate(c, OnCreate) == [] && engine.Reachable? && Conflict(records, NewContact(freshId, c, now), true).Some? ==>
      out == Err(Conflict(records, NewContact(freshId, c, now), true).value)
    ensures out.Err? ==> WellFormedError(out.error)
  {
    var errs := Validate(c, OnCreate);
    if errs != [] then Err(Validation(errs))
    else if engine.Failing? then Err(Other(engine.message))
    else
      var rec := NewContact(freshId, c, now);
      match Conflict(records, rec, true)
      case Some(e) => Err(e)
      case None => Ok(rec)
  }

  /** `findByIdAndUpdate(id, body + {updatedAt: now}, {new: true, runValidators: true})`:
      the update's validators first, then the engine, then the lookup (a
      missing id yields no document, not an error), then the unique
      indexes; on success the merged record. */
  function UpdateOutcome(records: map<Id, Contact>, id: Id, c: Candidate, now: Time, engine: Engine)
    : (out: Result<Option<Contact>, StoreError>)
    requires StoreInvariant(records)
    ensures Validate(c, OnUpdate) != [] ==> out == Err(Validation(Validate(c, OnUpdate)))
    ensures Validate(c, OnUpdate) == [] && engine.Failing? ==> out == Err(Other(engine.message))
    ensures out == Ok(None) <==> Validate(c, OnUpdate) == [] && engine.Reachable? && id !in records
    ensures out.Ok? && out.value.Some? ==>
      id in records && out.value.value == Merge(records[id], c, now) && !EmailTaken(records, out.value.value)
      && !PhoneTaken(records, out.value.value)
    ensures Validate(c, OnUpdate) == [] && engine.Reachable? && id in records ==>
      (Conflict(records, Merge(records[id], c, now), false).Some? ==>
         out == Err(Conflict(records, Merge(records[id], c, now), false).value))
    ensures Validate(c, OnUpdate) == [] && engine.Reachable? && id in records ==>
      (Conflict(records, Merge(records[id], c, now), false).None? ==>
         out == Ok(Some(Merge(records[id], c, now))))
    ensures out.Err? ==> WellFormedError(out.error)
  {
    var errs := Validate(c, OnUpdate);
    if errs != [] then Err(Validation(errs))
    else if engine.Failing? then Err(Other(engine.message))
    else if id !in records then Ok(None)
    else
      var rec := Merge(records[id], c, now);
      match Conflict(records, rec, false)
      case Some(e) => Err(e)
      case None => Ok(Some(rec))
  }

  /** Writing a record that collides on no unique index keeps the invariant. */
  lemma WriteKeepsInvariant(records: map<Id, Contact>, rec: Contact)
    requires StoreInvariant(records)
    requires WellFormed(rec)
    requires !EmailTaken(records, rec) && !PhoneTaken(records, rec)
    ensures StoreInvariant(records[rec.id := rec])
  {
    var next := records[rec.id := rec];
    forall a, b | a in next && b in next && a != b
      ensures next[a].email != next[b].email && next[a].phoneNumber != next[b].phoneNumber
    {
      if a == rec.id {
        assert next[b] == records[b] && next[b].id == b;
      } else if b == rec.id {
        assert next[a] == records[a] && next[a].id == a;
      }
    }
  }

  /** A successful save keeps the invariant and adds exactly the new record. */
  lemma SaveKeepsInvariant(records: map<Id, Contact>, c: Candidate, freshId: Id, now: Time, engine: Engine)
    requires StoreInvariant(records)
    requires SaveOutcome(records, c, freshId, now, engine).Ok?
    ensures var rec := SaveOutcome(records, c, freshId, now, engine).value;
      && StoreInvariant(records[freshId := rec])
      && rec.id == freshId && rec.createdAt == now && rec.updatedAt == now
  {
    WriteKeepsInvariant(records, NewContact(freshId, c, now));
  }

  /** A successful update keeps the invariant; the record keeps its id and
      `createdAt` and its `updatedAt` becomes `now`. */
  lemma UpdateKeepsInvariant(records: map<Id, Contact>, id: Id, c: Candidate, now: Time, engine: Engine)
    requires StoreInvariant(records)
    requires UpdateOutcome(records, id, c, now, engine).Ok?
    requires UpdateOutcome(records, id, c, now, engine).value.Some?
    ensures var rec := UpdateOutcome(records, id, c, now, engine).value.value;
      && StoreInvariant(records[id := rec])
      && rec.id == id && rec.createdAt == records[id].createdAt && rec.updatedAt == now
  {
    var rec := Merge(records[id], c, now);
    WriteKeepsInvariant(records, rec);
  }

  /** Removing a record keeps the invariant. */
  lemma RemoveKeepsInvariant(records: map<Id, Contact>, id: Id)
    requires StoreInvariant(records)
    ensures StoreInvariant(records - {id})
  {
  }

  /** Once a record is stored, a save with the same email on another id is
      refused on the email index, whatever its phone number. */
  lemma SecondSaveWithSameEmailIsDuplicate(records: map<Id, Contact>, c: Candidate, freshId: Id, now: Time, held: Id)
    requires Validate(c, OnCreate) == []
    requires held in records && records[held].email == c.email.value
    requires freshId !in records
    ensures SaveOutcome(records, c, freshId, now, Reachable) == Err(Duplicate(["email"], map["email" := c.email.value]))
  {
    assert EmailTaken(records, NewContact(freshId, c, now));
  }
}
