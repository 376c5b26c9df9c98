# Contact management API — a verified model

This project models the core of a small Express/Mongoose service that stores "contact" records. The model covers two parts:

- the Mongoose schema of a contact (`Model/contactData.js`): the field rules for name, email and phone number, the required flags, the unique indexes on email and phoneNumber, and the timestamp defaults;
- the five request handlers (`Controller/contact.js`): list, get by id, create, update by id and delete by id. Each handler turns the store's outcome into an HTTP status and a `{success, message, data, errors}` envelope.

Modules:

- `Wrappers` (wrappers.dfy): `Option` and `Result`.
- `ContactSchema` (contact_schema.dfy): the record and request-body types, and the three validators, stated as executable predicates. The email and phone validators are each proved equal to a reading of their regular expression. The name rule has no regular expression: it is related to the character count (`ValidName`, `NameRule`). Also here: per-path validation with the required checks, and the uniqueness predicate.
- `ContactStore` (contact_store.dfy): what the database returns for a save and for an update by id. The engine is abstracted to a map from id to record, plus two parameters: an `Engine` parameter (the engine answers, or fails with a message) and the fresh id it would assign. This module also proves that writes keep the store invariant.
- `ContactResponses` (contact_responses.dfy): the envelope, and `WriteFailure`, the three-way classifier that create and update share. It maps a validation error to 400, a duplicate key to 409, and anything else to 500.
- `ContactHandlers` (contact_handlers.dfy): the class `ContactCollection`. Its fields are `records: map<Id, Contact>` and `order: seq<Id>`, the insertion order, which the model takes as the order `find()` lists in. The five handlers are methods that change those fields. Small client methods state the end-to-end properties: delete then get gives 404; a repeated delete gives 404; listing an empty collection gives 200 with no records; a second create with a taken email gives 409; an update of the message alone keeps the other fields and moves `updatedAt` forward.

The class invariant says:
- every record is stored under its own id;
- every stored record satisfies the three field rules;
- no two records share an email, and no two share a phone number;
- `order` lists every stored id exactly once.

In these points the model follows the code as written:

- Responses are not uniform. A success response has no `errors` key, and a failure response has no `data` key. The model writes these as `[]` and `NoData`.
- A duplicate-key error reports only the first key of the index's key pattern, not every colliding field.
- The 500 responses of list, get and delete carry the raw error message, which may be missing. Only create and update fall back to "An unexpected error occurred". They also fall back when the message is the empty string, because the code uses JavaScript's `||`.
- An update validates only the paths its body names. Validation runs before the id is looked up, so an invalid update of a missing id answers 400, not 404. Paths the body leaves out keep their stored values, because Mongoose drops `undefined` keys from an update.
- A missing value and an empty string both fail the required check, with the required message. On a save, a missing path is a required error. On an update, a missing path is not part of the update.
- The name rule compares the JavaScript `length`, which counts UTF-16 code units. A character outside the Basic Multilingual Plane counts twice. On ordinary text this is the character count (`NameRule`).

## Model

| member | source | states |
|---|---|---|
| ContactSchema.Utf16Length | Model/contactData.js:10 | the JavaScript length of a name lies between its character count and twice that |
| ContactSchema.Utf16LengthOfBmp | Model/contactData.js:10 | on Basic Multilingual Plane text the JavaScript length equals the character count |
| ContactSchema.ValidName | Model/contactData.js:10 | a name of 3 or more characters always passes, and one of fewer than 2 always fails |
| ContactSchema.NameRule | Model/contactData.js:7-13 | on ordinary text a name passes exactly when it has at least 3 characters |
| ContactSchema.ValidEmail | Model/contactData.js:22-23 | a valid email has at least 5 characters, and neither starts nor ends with '@' |
| ContactSchema.ValidEmailMatchesPattern | Model/contactData.js:19-26 | the email validator accepts exactly the strings matched by `^[^\s@]+@[^\s@]+\.[^\s@]+$`: one '@' not at the start, no whitespace, and a '.' after the '@' with at least one character on each side |
| ContactSchema.ValidEmailHasOneAt | Model/contactData.js:22-23 | a valid email contains exactly one '@', and it is not the first character |
| ContactSchema.DigitRunIsAllDigits | Model/contactData.js:35 | `\d{n}` anchored matches exactly the strings of length n made of ASCII digits |
| ContactSchema.ValidPhone | Model/contactData.js:35-36 | the phone validator accepts exactly the strings `^\d{10}$` matches |
| ContactSchema.CheckPath | Model/contactData.js:4-40 | one path gives at most one error. It gives one exactly when the path is rejected: missing on a save, empty, or refused by its validator. The error names the path and carries the rejected value, with the required message when the value is missing or empty and the validator's message otherwise |
| ContactSchema.Validate | Model/contactData.js:3-44 | validation reports at most three errors, each on name, email or phoneNumber |
| ContactSchema.ValidateErrorsAt | Model/contactData.js:3-40 | the errors validation reports at a path are exactly that path's own check |
| ContactSchema.ValidateReportsEachFailingPath | Model/contactData.js:3-40 | validation reports exactly one error for each failing path among name, email and phoneNumber, and none for a passing one |
| ContactSchema.ValidateFailsIffSomePathFails | Model/contactData.js:3-44 | validation fails exactly when some checked path fails, and the optional message never affects it |
| ContactSchema.NewContact | Model/contactData.js:45-52 | a new record carries the submitted fields, both timestamps at the creation time, and satisfies every field rule |
| ContactSchema.Merge | Controller/contact.js:139-151 | an update replaces each path the body names, keeps the others and the id and createdAt, sets updatedAt to the current time, and keeps the field rules |
| ContactStore.Conflict | Model/contactData.js:15-31 | a write collides exactly when an insert reuses a stored id or another record holds its email or phone number. The reported index is the first collision in the order _id, email, phoneNumber: an insert reusing a stored id is always reported on _id, an email collision only when there is no _id one, and a phone collision only when there is neither. The report carries the colliding value |
| ContactStore.SaveOutcome | Controller/contact.js:64-71 | a save reports all validation errors first, then an engine failure, then the duplicate key `Conflict` finds for the new record. It succeeds exactly when none of these occur, and then yields the new record under the fresh id |
| ContactStore.UpdateOutcome | Controller/contact.js:139-151 | an update by id reports validation errors first, then an engine failure. It yields no document exactly when the id is absent. Otherwise it yields the duplicate key `Conflict` finds for the merged record, and the merged record when there is none |
| ContactStore.WriteKeepsInvariant | Model/contactData.js:15-40 | writing a valid record that collides with no other record keeps every email and phone number unique |
| ContactStore.SaveKeepsInvariant | Model/contactData.js:3-53 | a successful save keeps the store invariant; the new record has createdAt = updatedAt = the creation time |
| ContactStore.UpdateKeepsInvariant | Controller/contact.js:139-151 | a successful update keeps the store invariant, keeps id and createdAt, and sets updatedAt to the current time |
| ContactStore.RemoveKeepsInvariant | Controller/contact.js:231 | removing a record keeps the store invariant |
| ContactStore.SecondSaveWithSameEmailIsDuplicate | Model/contactData.js:18 | saving a valid body whose email is already stored fails on the email index with that email |
| ContactResponses.Succeeded | Controller/contact.js:6-10 | a success response has success = true, the payload as data, and no errors |
| ContactResponses.NotFound | Controller/contact.js:29-40 | a missing id gives 404, "Contact not found", and one entry with field `id` and the requested id as value |
| ContactResponses.ReadFailure | Controller/contact.js:11-23 | a list, get or delete failure gives 500 and one `general` entry with the raw message and a null value |
| ContactResponses.DuplicateMessage | Controller/contact.js:100-107 | every duplicate-key wording ends in " already exists.", and for a path other than email and phoneNumber what precedes it is the path itself |
| ContactResponses.ToEntries | Controller/contact.js:87-91 | validation entries become `{field: path, message, value}` one for one, in the same order |
| ContactResponses.GeneralMessage | Controller/contact.js:126 | the general message is the error's message unless that is missing or empty, and is never empty |
| ContactResponses.WriteFailure | Controller/contact.js:78-131 | the create/update classifier: status 400 exactly for a validation error, 409 exactly for a duplicate key, 500 exactly for anything else; always success = false and no data |
| ContactResponses.ValidationFailureListsEveryError | Controller/contact.js:85-93 | a validation failure gives 400, "Validation failed", and one entry per error with its path, message and value, in order |
| ContactResponses.DuplicateFailureNamesFirstKey | Controller/contact.js:96-119 | a duplicate key gives 409, "Duplicate entry", and exactly one entry: the first key of the pattern, its colliding value, and "Email already exists.", "Phone number already exists." or "<field> already exists." |
| ContactResponses.OtherFailureIsGeneral | Controller/contact.js:121-131 | any other failure gives 500, "Internal server error", and one `general` entry with a null value. Its message is the error's own, or "An unexpected error occurred" when that is missing or empty |
| ContactResponses.WriteFailureIsFailure | Controller/contact.js:78-131 | every error the store produces becomes a failure with success = false, no data and a non-empty errors list |
| ContactHandlers.Without | Controller/contact.js:231 | removing an id from the insertion order keeps every other id, each once; in a list without repeats it is exactly the list with that one position cut out |
| ContactHandlers.Listing | Controller/contact.js:5 | the listing has one entry per id of the order, the record stored under that id, in the same position |
| ContactHandlers.ListingCount | Controller/contact.js:5-10 | the listing has one entry per stored record |
| ContactHandlers.ListingCovers | Controller/contact.js:5-10 | every stored record appears in the listing |
| ContactHandlers.ListingSound | Controller/contact.js:5-10 | everything listed is a stored record, under its own id |
| ContactHandlers.AppendKeepsInvariant | Controller/contact.js:71 | storing a record under a fresh id and appending the id keeps the collection invariant |
| ContactHandlers.ReplaceKeepsInvariant | Controller/contact.js:139-151 | replacing a record in place keeps the collection invariant and the order |
| ContactHandlers.UpdateKeepsCollectionInvariant | Controller/contact.js:139-151 | a successful update replaces one record in place: the collection invariant and the set of ids are kept, and the new record keeps its id and createdAt and has updatedAt = the current time |
| ContactHandlers.RemoveKeepsCollectionInvariant | Controller/contact.js:231 | removing a record and its id keeps the collection invariant |
| ContactHandlers.ContactCollection.GetAllContacts | Controller/contact.js:3-24 | 200 with every record in insertion order, or 500 with the raw message when the engine fails |
| ContactHandlers.ContactCollection.GetContactById | Controller/contact.js:25-60 | 200 exactly when the id is stored, with that record; 404 for a missing id; 500 with the raw message when the engine fails |
| ContactHandlers.ContactCollection.CreateContact | Controller/contact.js:62-133 | 201 with the new record, stored under the fresh id with createdAt = updatedAt = now; otherwise the shared classifier's response and an unchanged collection; the invariant is kept |
| ContactHandlers.ContactCollection.UpdateContact | Controller/contact.js:135-226 | 200 with the updated record, whose updatedAt = now, with every other record unchanged. A missing id gives 404. Any other outcome gives the shared classifier's response. The collection is unchanged unless the update succeeds, and the invariant is kept |
| ContactHandlers.ContactCollection.DeleteContact | Controller/contact.js:228-263 | 200 with the removed record, which is removed from records and from the order; 404 and no change for a missing id; 500 and no change when the engine fails |
| ContactHandlers.DeleteThenGet | Controller/contact.js:228-249 | after deleting an id, getting it answers 404 |
| ContactHandlers.DeleteTwice | Controller/contact.js:228-243 | a repeated delete of the same id answers 404 |
| ContactHandlers.ListEmptyCollection | Controller/contact.js:3-10 | listing an empty collection answers 200 with an empty list |
| ContactHandlers.CreateWithTakenEmail | Controller/contact.js:96-118 | creating with an email already stored answers 409 with the entry `{email, "Email already exists.", email}`, leaves records and order unchanged, and keeps the collection valid |
| ContactHandlers.UpdateOnlyMessage | Controller/contact.js:139-151 | an update naming only the message answers 200. It keeps name, email and phone number, and moves updatedAt forward when the clock has advanced |

## Left out

- Process bootstrap in index.js (Express app, CORS origins, dotenv, `mongoose.connect`, listeners, `app.listen`). Routes/contact.js is not part of this model; it only wires paths to handlers.
- `async`/`await` and interleaved requests: each handler is one atomic step on the collection.
- The database engine. It is a map from id to record. ObjectId generation is the `freshId` parameter of `CreateContact`. Connection loss, and the cast error for a malformed id, are the `Engine` parameter's `Failing` case, which becomes the generic 500 branch.
- Where the engine checks a failure: the model checks it after validation and before the id lookup and the unique indexes.
- The clock: `Date.now()` is the `now` parameter. Strictly increasing times are a precondition of `UpdateOnlyMessage`, not a fact about the clock.
- ContactSchema.NewContact: both timestamps take one clock reading. The schema evaluates `Date.now` once per default, so the two can differ by the time between those calls.
- Mongoose casting of request values: each body field is a string or absent. A JSON `null` is treated as absent, and a non-string value, which Mongoose would cast or reject, is not modelled.
- ContactHandlers.ContactCollection.UpdateContact: an update body `{name: null}` is a `$set` of name to null in Mongoose, which the required check rejects with 400 "Name is required". The model reads the null as absent, so it keeps the stored name and answers 200. The same holds for email and phoneNumber.
- The listing order: Mongoose's `find()` with no sort returns the engine's natural order, which is not promised to be insertion order. The model fixes it as insertion order; the listing properties other than order do not depend on this choice.
- The order of Mongoose's `ValidationError.errors`: the model lists failing paths in schema order (name, email, phoneNumber).
- A duplicate-key error with an empty key pattern does not occur, so `KeyPattern` is non-empty. A missing colliding value is modelled as an absent `value`.
- JSON serialisation, `res.status().json()`, and the extra document members `_id` and `__v`. The model returns a `Response` value instead.
- The in-place reassignment of the local `errorResponse` object in create and update (it starts as "Operation failed" and is overwritten in every branch) is modelled by `WriteFailure`, which builds the final value in one step. The intermediate object is never sent.
