/** The five request handlers of Controller/contact.js, as methods of the
    contact collection they act on. Each handler is one atomic step: it
    asks the store for an outcome, changes the collection when the outcome
    is a success, and turns the outcome into a status and an envelope. */
module ContactHandlers {
  import opened Wrappers
  import opened ContactSchema
  import opened ContactStore
  import opened ContactResponses

  const ListOk: string := "Contacts retrieved successfully"
  const ListFailed: string := "Failed to retrieve contacts"
  const GetOk: string := "Contact retrieved successfully"
  const GetFailed: string := "Failed to retrieve contact"
  const CreateOk: string := "Contact data saved successfully"
  const UpdateOk: string := "Contact data updated successfully"
  const DeleteOk: string := "Contact deleted successfully"
  const DeleteFailed: string := "Failed to delete contact"

  predicate Distinct(s: seq<Id>) {
    forall i, j :: 0 <= i < j < |s| ==> s[i] != s[j]
  }

  lemma DistinctTail(s: seq<Id>)
    requires s != [] && Distinct(s)
    ensures Distinct(s[1..]) && s[0] !in s[1..]
  {
  }

  lemma DistinctCons(a: Id, r: seq<Id>)
    requires a !in r && Distinct(r)
    ensures Distinct([a] + r)
  {
    var s := [a] + r;
    forall i, j | 0 <= i < j < |s|
      ensures s[i] != s[j]
    {
      assert s[j] == r[j - 1];
      if i > 0 {
        assert s[i] == r[i - 1];
      }
    }
  }

  /** `s` with every occurrence of `x` taken out, the rest in order. */
  function Without(s: seq<Id>, x: Id): (r: seq<Id>)
    ensures forall y :: y in r <==> y in s && y != x
    ensures Distinct(s) ==> Distinct(r)
    ensures x !in s ==> r == s
    ensures Distinct(s) ==> forall k :: 0 <= k < |s| && s[k] == x ==> r == s[..k] + s[k + 1..]
  {
    if s == [] then []
    else if s[0] == x then
      (if Distinct(s) then DistinctTail(s); Without(s[1..], x) else Without(s[1..], x))
    else
      var rest := Without(s[1..], x);
      SplitAfterHead(s);
      if Distinct(s) then DistinctTail(s); DistinctCons(s[0], rest); [s[0]] + rest
      else [s[0]] + rest
  }

  /** Cutting position `k > 0` out of `s` is keeping the head and cutting
      position `k - 1` out of the tail. */
  lemma SplitAfterHead(s: seq<Id>)
    requires s != []
    ensures forall k :: 0 < k < |s| ==> s[..k] + s[k + 1..] == [s[0]] + (s[1..][..k - 1] + s[1..][k..])
  {
    forall k | 0 < k < |s|
      ensures s[..k] + s[k + 1..] == [s[0]] + (s[1..][..k - 1] + s[1..][k..])
    {
      assert s[..k] == [s[0]] + s[1..][..k - 1];
      assert s[k + 1..] == s[1..][k..];
    }
  }

  /** The collection's invariant: the store invariant, and `order` lists
      every stored id exactly once. */
  ghost predicate CollectionInvariant(records: map<Id, Contact>, order: seq<Id>) {
    && StoreInvariant(records)
    && Distinct(order)
    && (forall i :: 0 <= i < |order| ==> order[i] in records)
    && (forall id :: id in records ==> id in order)
  }

  /** The records listed one per id of `order`, in that order. */
  function Listing(records: map<Id, Contact>, order: seq<Id>): (rs: seq<Contact>)
    requires forall i :: 0 <= i < |order| ==> order[i] in records
    ensures |rs| == |order|
    ensures forall i :: 0 <= i < |order| ==> rs[i] == records[order[i]]
  {
    seq(|order|, i requires 0 <= i < |order| => records[order[i]])
  }

  lemma {:induction false} DistinctCardinality(s: seq<Id>)
    requires Distinct(s)
    ensures |(set x | x in s)| == |s|
  {
    if s != [] {
      DistinctCardinality(s[1..]);
      assert (set x | x in s) == (set x | x in s[1..]) + {s[0]};
      assert s[0] !in (set x | x in s[1..]);
    }
  }

  /** The listing has one entry per stored record. */
  lemma ListingCount(records: map<Id, Contact>, order: seq<Id>)
    requires CollectionInvariant(records, order)
    ensures |Listing(records, order)| == |records|
  {
    DistinctCardinality(order);
    assert records.Keys == (set x | x in order);
  }

  /** Every stored record appears in the listing. */
  lemma ListingCovers(records: map<Id, Contact>, order: seq<Id>)
    requires CollectionInvariant(records, order)
    ensures forall id :: id in records ==> records[id] in Listing(records, order)
  {
    var l := Listing(records, order);
    forall id | id in records
      ensures records[id] in l
    {
      var i :| 0 <= i < |order| && order[i] == id;
      assert l[i] == records[id];
    }
  }

  /** Everything in the listing is a stored record, under its own id. */
  lemma ListingSound(records: map<Id, Contact>, order: seq<Id>)
    requires CollectionInvariant(records, order)
    ensures forall x :: x in Listing(records, order) ==> x.id in records && records[x.id] == x
  {
    var l := Listing(records, order);
    forall x | x in l
      ensures x.id in records && records[x.id] == x
    {
      var i :| 0 <= i < |l| && l[i] == x;
      assert x == records[order[i]];
    }
  }

  /** Appending a fresh id and recording it keeps the collection invariant. */
  lemma AppendKeepsInvariant(records: map<Id, Contact>, order: seq<Id>, rec: Contact)
    requires CollectionInvariant(records, order)
    requires rec.id !in records
    requires StoreInvariant(records[rec.id := rec])
    ensures CollectionInvariant(records[rec.id := rec], order + [rec.id])
  {
  }

  /** Replacing a stored record by one that keeps the store invariant keeps
      the collection invariant, with the order unchanged. */
  lemma ReplaceKeepsInvariant(records: map<Id, Contact>, order: seq<Id>, rec: Contact)
    requires CollectionInvariant(records, order)
    requires rec.id in records
    requires StoreInvariant(records[rec.id := rec])
    ensures CollectionInvariant(records[rec.id := rec], order)
  {
    assert records[rec.id := rec].Keys == records.Keys;
  }

  /** A successful update replaces one record in place: the collection
      invariant and the set of ids are kept, and the new record keeps its id
      and `createdAt` and carries `updatedAt` = `now`. */
  lemma UpdateKeepsCollectionInvariant(records: map<Id, Contact>, order: seq<Id>, id: Id, c: Candidate, now: Time, engine: Engine)
    requires CollectionInvariant(records, order)
    requires UpdateOutcome(records, id, c, now, engine).Ok?
    requires UpdateOutcome(records, id, c, now, engine).value.Some?
    ensures var rec := UpdateOutcome(records, id, c, now, engine).value.value;
      && id in records && rec.id == id
      && CollectionInvariant(records[id := rec], order)
      && records[id := rec].Keys == records.Keys
      && rec.createdAt == records[id].createdAt && rec.updatedAt == now
  {
    var rec := UpdateOutcome(records, id, c, now, engine).value.value;
    UpdateKeepsInvariant(records, id, c, now, engine);
    ReplaceKeepsInvariant(records, order, rec);
  }

  /** Removing a record and its id keeps the collection invariant. */
  lemma RemoveKeepsCollectionInvariant(records: map<Id, Contact>, order: seq<Id>, id: Id)
    requires CollectionInvariant(records, order)
    ensures CollectionInvariant(records - {id}, Without(order, id))
  {
    RemoveKeepsInvariant(records, id);
    var o := Without(order, id);
    forall i | 0 <= i < |o|
      ensures o[i] in records - {id}
    {
      assert o[i] in o;
    }
  }

  class ContactCollection {
    /** The collection, keyed by record id. */
    var records: map<Id, Contact>
    /** The ids in insertion order, the order `find()` is modelled to list in. */
    var order: seq<Id>

    ghost predicate Valid()
      reads this
    {
      CollectionInvariant(records, order)
    }

    constructor ()
      ensures Valid() && records == map[] && order == []
    {
      records := map[];
      order := [];
    }

    /** getAllContacts: 200 with every record, or 500 with the raw message. */
    method GetAllContacts(engine: Engine) returns (r: Response)
      requires Valid()
      ensures engine.Failing? ==> r == ReadFailure(ListFailed, engine.message)
      ensures engine.Reachable? ==> r == Succeeded(200, ListOk, Many(Listing(records, order)))
      ensures engine.Reachable? ==> |r.body.data.contacts| == |records|
      ensures IsSuccess(r) || IsFailure(r)
    {
      match engine
      case Failing(message) =>
        r := ReadFailure(ListFailed, message);
      case Reachable =>
        ListingCount(records, order);
        r := Succeeded(200, ListOk, Many(Listing(records, order)));
    }

    /** getContactById: 200 with the record, 404 when no record has the id,
        500 with the raw message when the engine fails. */
    method GetContactById(id: Id, engine: Engine) returns (r: Response)
      requires Valid()
      ensures engine.Failing? ==> r == ReadFailure(GetFailed, engine.message)
      ensures engine.Reachable? && id !in records ==> r == NotFound(id)
      ensures engine.Reachable? ==> (r.status == 200 <==> id in records)
      ensures r.status == 200 ==> r == Succeeded(200, GetOk, One(records[id])) && records[id].id == id
      ensures IsSuccess(r) || IsFailure(r)
    {
      if engine.Failing? {
        r := ReadFailure(GetFailed, engine.message);
        return;
      }
      if id !in records {
        r := NotFound(id);
        return;
      }
      r := Succeeded(200, GetOk, One(records[id]));
    }

    /** createContact: save the body as a new record with id `freshId` and
        both timestamps at `now`, answering 201 with it; any rejection goes
        through the shared classifier and leaves the collection unchanged. */
    method CreateContact(c: Candidate, freshId: Id, now: Time, engine: Engine) returns (r: Response)
      requires Valid()
      modifies this
      ensures Valid()
      ensures var out := SaveOutcome(old(records), c, freshId, now, engine);
        && (out.Err? ==> r == WriteFailure(out.error) && records == old(records) && order == old(order))
        && (out.Ok? ==> r == Succeeded(201, CreateOk, One(out.value))
                        && records == old(records)[freshId := out.value] && order == old(order) + [freshId])
      ensures r.status == 201 ==>
        freshId !in old(records) && records[freshId].createdAt == now && records[freshId].updatedAt == now
      ensures IsSuccess(r) || IsFailure(r)
    {
      var outcome := SaveOutcome(records, c, freshId, now, engine);
      match outcome
      case Err(e) =>
        WriteFailureIsFailure(e);
        r := WriteFailure(e);
      case Ok(contact) =>
        SaveKeepsInvariant(records, c, freshId, now, engine);
        AppendKeepsInvariant(records, order, contact);
        records := records[freshId := contact];
        order := order + [freshId];
        r := Succeeded(201, CreateOk, One(contact));
    }

    /** updateContact: apply the body to the record with that id, setting
        `updatedAt` to `now`, and answer 200 with the updated record; 404
        when no record has the id; any rejection goes through the shared
        classifier. Only the updated record changes; the order is kept. */
    method UpdateContact(id: Id, c: Candidate, now: Time, engine: Engine) returns (r: Response)
      requires Valid()
      modifies this
      ensures Valid()
      ensures order == old(order)
      ensures var out := UpdateOutcome(old(records), id, c, now, engine);
        && (out.Err? ==> r == WriteFailure(out.error) && records == old(records))
        && (out == Ok(None) ==> r == NotFound(id) && records == old(records))
        && (out.Ok? && out.value.Some? ==>
              r == Succeeded(200, UpdateOk, One(out.value.value)) && records == old(records)[id := out.value.value])
      ensures r.status == 200 ==>
        id in old(records) && id in records && records == old(records)[id := records[id]]
        && records[id].updatedAt == now && records[id].createdAt == old(records)[id].createdAt
      ensures IsSuccess(r) || IsFailure(r)
    {
      var outcome := UpdateOutcome(records, id, c, now, engine);
      if outcome.Err? {
        WriteFailureIsFailure(outcome.error);
        r := WriteFailure(outcome.error);
        assert r.status != 200;
      } else if outcome.value.None? {
        r := NotFound(id);
      } else {
        var contact := outcome.value.value;
        UpdateKeepsCollectionInvariant(records, order, id, c, now, engine);
        records := records[id := contact];
        r := Succeeded(200, UpdateOk, One(contact));
      }
    }

    /** deleteContact: remove the record with that id and answer 200 with
        it; 404 and no change when there is none; 500 with the raw message
        when the engine fails. */
    method DeleteContact(id: Id, engine: Engine) returns (r: Response)
      requires Valid()
      modifies this
      ensures Valid()
      ensures engine.Failing? ==>
        r == ReadFailure(DeleteFailed, engine.message) && records == old(records) && order == old(order)
      ensures engine.Reachable? && id !in old(records) ==>
        r == NotFound(id) && records == old(records) && order == old(order)
      ensures engine.Reachable? && id in old(records) ==>
        r == Succeeded(200, DeleteOk, One(old(records)[id]))
        && records == old(records) - {id} && order == Without(old(order), id)
      ensures id !in records || records == old(records)
      ensures IsSuccess(r) || IsFailure(r)
    {
      if engine.Failing? {
        r := ReadFailure(DeleteFailed, engine.message);
        return;
      }
      if id !in records {
        r := NotFound(id);
        return;
      }
      var deleted := records[id];
      RemoveKeepsCollectionInvariant(records, order, id);
      records := records - {id};
      order := Without(order, id);
      r := Succeeded(200, DeleteOk, One(deleted));
    }
  }

  /** A delete followed by a get of the same id: the get finds nothing. */
  method DeleteThenGet(store: ContactCollection, id: Id) returns (deleted: Response, fetched: Response)
    requires store.Valid()
    modifies store
    ensures store.Valid()
    ensures id in old(store.records) ==> deleted.status == 200 && deleted.body.data == One(old(store.records)[id])
    ensures fetched == NotFound(id)
  {
    deleted := store.DeleteContact(id, Reachable);
    fetched := store.GetContactById(id, Reachable);
  }

  /** Repeating a delete: the second one answers 404. */
  method DeleteTwice(store: ContactCollection, id: Id) returns (first: Response, second: Response)
    requires store.Valid()
    modifies store
    ensures store.Valid()
    ensures second == NotFound(id)
  {
    first := store.DeleteContact(id, Reachable);
    second := store.DeleteContact(id, Reachable);
  }

  /** Listing a new, empty collection answers 200 with no records. */
  method ListEmptyCollection() returns (r: Response)
    ensures r.status == 200 && r.body.success && r.body.data == Many([])
  {
    var store := new ContactCollection();
    r := store.GetAllContacts(Reachable);
  }

  /** A second create with an email already stored answers 409 on `email`
      and stores nothing. */
  method CreateWithTakenEmail(store: ContactCollection, c: Candidate, freshId: Id, now: Time, held: Id)
    returns (r: Response)
    requires store.Valid()
    requires Validate(c, OnCreate) == []
    requires held in store.records && store.records[held].email == c.email.value
    requires freshId !in store.records
    modifies store
    ensures store.Valid()
    ensures store.records == old(store.records) && store.order == old(store.order)
    ensures r.status == 409
    ensures r.body.errors == [ErrorEntry("email", Some("Email already exists."), c.email)]
  {
    SecondSaveWithSameEmailIsDuplicate(store.records, c, freshId, now, held);
    r := store.CreateContact(c, freshId, now, Reachable);
  }

  /** An update that names only `message` on a stored record answers 200,
      keeps name, email and phone number, and moves `updatedAt` forward when
      the clock has advanced. */
  method UpdateOnlyMessage(store: ContactCollection, id: Id, m: string, now: Time) returns (r: Response)
    requires store.Valid()
    requires id in store.records && store.records[id].updatedAt < now
    modifies store
    ensures store.Valid()
    ensures r.status == 200 && id in store.records
    ensures var before, after := old(store.records)[id], store.records[id];
      && after.message == Some(m) && after.updatedAt > before.updatedAt
      && after.name == before.name && after.email == before.email && after.phoneNumber == before.phoneNumber
  {
    var c := Candidate(None, None, None, Some(m));
    ghost var rec := Merge(store.records[id], c, now);
    assert !EmailTaken(store.records, rec) && !PhoneTaken(store.records, rec) by {
      assert store.records[id].id == id;
    }
    assert UpdateOutcome(store.records, id, c, now, Reachable) == Ok(Some(rec));
    r := store.UpdateContact(id, c, now, Reachable);
  }
}
