/** The response envelope of Controller/contact.js and the classification
    of a store outcome into a status and an envelope. */
module ContactResponses {
  import opened Wrappers
  import opened ContactSchema
  import opened ContactStore

  /** The `data` of an envelope; `NoData` stands for the key being absent. */
  datatype Payload = NoData | One(contact: Contact) | Many(contacts: seq<Contact>)

  /** One `{field, message, value}` entry; `None` is an absent or null member. */
  datatype ErrorEntry = ErrorEntry(field: string, message: Option<string>, value: Option<string>)

  /** `{success, message, data, errors}`. A success response has no `errors`
      key, modelled as the empty sequence. */
  datatype Envelope = Envelope(success: bool, message: string, data: Payload, errors: seq<ErrorEntry>)

  /** A status code together with the JSON body sent with it. */
  datatype Response = Response(status: nat, body: Envelope)

  const NotFoundMessage: string := "Contact with the provided ID does not exist"
  const FallbackMessage: string := "An unexpected error occurred"

  /** A success: `success` is true, `data` carries the payload, no errors. */
  predicate IsSuccess(r: Response) {
    && (r.status == 200 || r.status == 201)
    && r.body.success
    && r.body.data != NoData
    && r.body.errors == []
  }

  /** A failure: a client or server error status, `success` false, no
      `data`, and at least one error entry. */
  predicate IsFailure(r: Response) {
    && 400 <= r.status < 600
    && !r.body.success
    && r.body.data == NoData
    && r.body.errors != []
  }

  function Succeeded(status: nat, headline: string, data: Payload): (r: Response)
    requires status == 200 || status == 201
    requires data != NoData
    ensures IsSuccess(r) && r.status == status && r.body.message == headline && r.body.data == data
  {
    Response(status, Envelope(true, headline, data, []))
  }

  /** The 404 shared by get, update and delete: one entry on `id` carrying
      the requested id. */
  function NotFound(id: Id): (r: Response)
    ensures IsFailure(r) && r.status == 404 && r.body.message == "Contact not found"
    ensures r.body.errors == [ErrorEntry("id", Some(NotFoundMessage), Some(id))]
  {
    Response(404, Envelope(false, "Contact not found", NoData, [ErrorEntry("id", Some(NotFoundMessage), Some(id))]))
  }

  /** The 500 of list, get and delete: one `general` entry with the raw
      error message (possibly missing) and a null value. */
  function ReadFailure(headline: string, message: Option<string>): (r: Response)
    ensures IsFailure(r) && r.status == 500 && r.body.message == headline
    ensures r.body.errors == [ErrorEntry("general", message, None)]
  {
    Response(500, Envelope(false, headline, NoData, [ErrorEntry("general", message, None)]))
  }

  /** The wording of a duplicate-key entry for the colliding path: a
      readable name for email and phoneNumber, the path itself otherwise,
      always followed by " already exists.". */
  function DuplicateMessage(field: string): (m: string)
    ensures |m| >= 16 && m[|m| - 16..] == " already exists."
    ensures field != "email" && field != "phoneNumber" ==> m[..|m| - 16] == field
  {
    if field == "email" then "Email already exists."
    else if field == "phoneNumber" then "Phone number already exists."
    else field + " already exists."
  }

  /** Mongoose validation entries become `{field: path, message, value}`, in order. */
  function ToEntries(errs: seq<FieldErr>): (entries: seq<ErrorEntry>)
    ensures |entries| == |errs|
    ensures forall i :: 0 <= i < |errs| ==>
      entries[i] == ErrorEntry(errs[i].path, Some(errs[i].message), errs[i].value)
  {
    if errs == [] then []
    else [ErrorEntry(errs[0].path, Some(errs[0].message), errs[0].value)] + ToEntries(errs[1..])
  }

  /** The message of the `general` entry: the error's message unless it is
      missing or empty (JavaScript's `||`), else the fallback. */
  function GeneralMessage(message: Option<string>): (m: string)
    ensures m != ""
    ensures message.Some? && message.value != "" ==> m == message.value
  {
    if message.Some? && message.value != "" then message.value else FallbackMessage
  }

  /** The three-way classifier shared by create and update: a validation
      error is a 400 with one entry per failing path, a duplicate key a 409
      with one entry naming the first key of the pattern, anything else a
      500 with one `general` entry. */
  function WriteFailure(e: StoreError): (r: Response)
    ensures !r.body.success && r.body.data == NoData
    ensures r.status == 400 <==> e.Validation?
    ensures r.status == 409 <==> e.Duplicate?
    ensures r.status == 500 <==> e.Other?
  {
    match e
    case Validation(errs) =>
      Response(400, Envelope(false, "Validation failed", NoData, ToEntries(errs)))
    case Duplicate(keyPattern, keyValue) =>
      var field := keyPattern[0];
      var value := if field in keyValue then Some(keyValue[field]) else None;
      Response(409, Envelope(false, "Duplicate entry", NoData, [ErrorEntry(field, Some(DuplicateMessage(field)), value)]))
    case Other(message) =>
      Response(500, Envelope(false, "Internal server error", NoData, [ErrorEntry("general", Some(GeneralMessage(message)), None)]))
  }

  /** A validation failure keeps every reported path, message and value, in order. */
  lemma ValidationFailureListsEveryError(errs: seq<FieldErr>)
    ensures var r := WriteFailure(Validation(errs));
      && r.status == 400 && r.body.message == "Validation failed"
      && |r.body.errors| == |errs|
      && forall i :: 0 <= i < |errs| ==>
           r.body.errors[i].field == errs[i].path
           && r.body.errors[i].message == Some(errs[i].message)
           && r.body.errors[i].value == errs[i].value
  {
  }

  /** A duplicate key gives exactly one entry: the first key of the pattern,
      its colliding value, and the wording chosen for that path. */
  lemma DuplicateFailureNamesFirstKey(keyPattern: KeyPattern, keyValue: map<string, string>)
    requires keyPattern[0] in keyValue
    ensures var r := WriteFailure(Duplicate(keyPattern, keyValue));
      && r.status == 409 && r.body.message == "Duplicate entry"
      && |r.body.errors| == 1
      && r.body.errors[0].field == keyPattern[0]
      && r.body.errors[0].value == Some(keyValue[keyPattern[0]])
      && (keyPattern[0] == "email" ==> r.body.errors[0].message == Some("Email already exists."))
      && (keyPattern[0] == "phoneNumber" ==> r.body.errors[0].message == Some("Phone number already exists."))
      && (keyPattern[0] != "email" && keyPattern[0] != "phoneNumber" ==>
            r.body.errors[0].message == Some(keyPattern[0] + " already exists."))
  {
  }

  /** Any other failure gives one `general` entry with a null value and a
      non-empty message: the error's own when it has one. */
  lemma OtherFailureIsGeneral(message: Option<string>)
    ensures var r := WriteFailure(Other(message));
      && r.status == 500 && r.body.message == "Internal server error"
      && |r.body.errors| == 1
      && r.body.errors[0].field == "general" && r.body.errors[0].value == None
      && r.body.errors[0].message.Some? && r.body.errors[0].message.value != ""
      && (message.Some? && message.value != "" ==> r.body.errors[0].message == message)
      && (message.None? || message == Some("") ==> r.body.errors[0].message == Some(FallbackMessage))
  {
  }

  /** Every error the store produces is classified as a failure response. */
  lemma WriteFailureIsFailure(e: StoreError)
    requires WellFormedError(e)
    ensures IsFailure(WriteFailure(e))
  {
  }
}
