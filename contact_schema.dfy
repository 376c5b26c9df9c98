/** The contact record and the schema's field rules (Model/contactData.js):
    the name, email and phoneNumber validators, the required flags, and the
    defaults of the two timestamps. */
module ContactSchema {
  import opened Wrappers

  /** A record identifier as it travels in a request path. */
  type Id = string

  /** A clock reading in milliseconds, standing for `Date.now()`. */
  type Time = int

  /** A stored contact. `message` is the one optional attribute. */
  datatype Contact = Contact(
    id: Id,
    name: string,
    email: string,
    phoneNumber: string,
    message: Option<string>,
    createdAt: Time,
    updatedAt: Time)

  /** The four fields of a request body; `None` is a field the body leaves out. */
  datatype Candidate = Candidate(
    name: Option<string>,
    email: Option<string>,
    phoneNumber: Option<string>,
    message: Option<string>)

  /** One entry of a validation failure: the rejected path, the rule's message and the rejected value. */
  datatype FieldErr = FieldErr(path: string, message: string, value: Option<string>)

  /** Whether the whole document is validated (a save) or only the paths the update names. */
  datatype Mode = OnCreate | OnUpdate

  const NameRequired: string := "Name is required"
  const NameTooShort: string := "Name must be at least 3 characters long"
  const EmailRequired: string := "Email is required"
  const EmailMalformed: string := "Please enter a valid email address"
  const PhoneRequired: string := "Phone number is required"
  const PhoneMalformed: string := "Phone number must be exactly 10 digits"

  // ---------------------------------------------------------------------
  // name: `v.length >= 3`, where a JavaScript length counts UTF-16 code units
  // ---------------------------------------------------------------------

  /** The JavaScript `length` of a string: characters outside the Basic
      Multilingual Plane take two UTF-16 code units. */
  function Utf16Length(s: string): (n: nat)
    ensures |s| <= n <= 2 * |s|
  {
    if s == [] then 0
    else (if s[0] as int >= 0x1_0000 then 2 else 1) + Utf16Length(s[1..])
  }

  /** The name validator: a JavaScript length of at least 3, so three
      characters always pass and fewer than two never do. */
  predicate ValidName(v: string): (ok: bool)
    ensures |v| >= 3 ==> ok
    ensures |v| < 2 ==> !ok
  {
    Utf16Length(v) >= 3
  }

  /** On text made only of Basic Multilingual Plane characters the JavaScript
      length is the number of characters. */
  lemma {:induction false} Utf16LengthOfBmp(s: string)
    requires forall k :: 0 <= k < |s| ==> s[k] as int < 0x1_0000
    ensures Utf16Length(s) == |s|
  {
    if s != [] {
      Utf16LengthOfBmp(s[1..]);
    }
  }

  /** On Basic Multilingual Plane text the name rule is exactly "at least
      three characters". */
  lemma NameRule(v: string)
    ensures (forall k :: 0 <= k < |v| ==> v[k] as int < 0x1_0000) ==> (ValidName(v) <==> |v| >= 3)
  {
    if forall k :: 0 <= k < |v| ==> v[k] as int < 0x1_0000 {
      Utf16LengthOfBmp(v);
    }
  }

  // ---------------------------------------------------------------------
  // email: /^[^\s@]+@[^\s@]+\.[^\s@]+$/
  // ---------------------------------------------------------------------

  /** The characters of the ECMAScript class `\s`: white space and line terminators. */
  predicate IsWhitespace(c: char) {
    var n := c as int;
    || (0x09 <= n <= 0x0D)
    || n == 0x20 || n == 0xA0 || n == 0x1680
    || (0x2000 <= n <= 0x200A)
    || n == 0x2028 || n == 0x2029 || n == 0x202F || n == 0x205F
    || n == 0x3000 || n == 0xFEFF
  }

  /** The class `[^\s@]`. */
  predicate EmailAtom(c: char) {
    c != '@' && !IsWhitespace(c)
  }

  /** Position of the first `c` in `s`, or `|s|` when there is none. */
  function IndexOf(s: string, c: char): (r: nat)
    ensures r <= |s|
    ensures r < |s| ==> s[r] == c
    ensures forall k :: 0 <= k < r ==> s[k] != c
  {
    if s == [] then 0
    else if s[0] == c then 0
    else 1 + IndexOf(s[1..], c)
  }

  predicate NoWhitespace(s: string) {
    forall k :: 0 <= k < |s| ==> !IsWhitespace(s[k])
  }

  /** A '.' with at least one character before it and one after it. */
  predicate HasInnerDot(d: string) {
    exists k :: 0 < k < |d| - 1 && d[k] == '.'
  }

  /** The email validator as a scan: the first '@' is not at the start, no
      other '@' follows it, nothing is white space, and the domain has an
      inner dot. */
  predicate ValidEmail(v: string): (ok: bool)
    ensures ok ==> 5 <= |v| && v[0] != '@' && v[|v| - 1] != '@'
  {
    var at := IndexOf(v, '@');
    && 0 < at < |v|
    && '@' !in v[at + 1..]
    && NoWhitespace(v)
    && HasInnerDot(v[at + 1..])
  }

  /** A reading of the regular expression itself: `v` splits as
      local '@' domain '.' tld, all three parts non-empty runs of `[^\s@]`.
      Since '.' belongs to `[^\s@]`, that is: exactly one '@', at position
      `at > 0`, every other character a `[^\s@]`, and a '.' with at least one
      character on each side after the '@'. */
  ghost predicate MatchesEmailPattern(v: string) {
    exists at, dot ::
      && 0 < at && at + 1 < dot && dot + 1 < |v|
      && v[at] == '@' && v[dot] == '.'
      && forall k :: 0 <= k < |v| && k != at ==> EmailAtom(v[k])
  }

  /** The email validator accepts exactly the strings the regular expression matches. */
  lemma ValidEmailMatchesPattern(v: string)
    ensures ValidEmail(v) <==> MatchesEmailPattern(v)
  {
    if ValidEmail(v) {
      var at := IndexOf(v, '@');
      var d := v[at + 1..];
      var k :| 0 < k < |d| - 1 && d[k] == '.';
      var dot := at + 1 + k;
      assert v[dot] == d[k];
      forall m | 0 <= m < |v| && m != at
        ensures EmailAtom(v[m])
      {
        if m > at {
          assert v[m] == d[m - at - 1];
        }
      }
    }
    if MatchesEmailPattern(v) {
      var at, dot :|
        && 0 < at && at + 1 < dot && dot + 1 < |v|
        && v[at] == '@' && v[dot] == '.'
        && forall k :: 0 <= k < |v| && k != at ==> EmailAtom(v[k]);
      assert IndexOf(v, '@') == at;
      var d := v[at + 1..];
      forall m | 0 <= m < |d|
        ensures d[m] != '@'
      {
        assert d[m] == v[at + 1 + m] && EmailAtom(v[at + 1 + m]);
      }
      assert d[dot - at - 1] == '.';
      assert HasInnerDot(d);
      forall m | 0 <= m < |v|
        ensures !IsWhitespace(v[m])
      {
        if m != at {
          assert EmailAtom(v[m]);
        }
      }
    }
  }

  /** A valid email holds exactly one '@'. */
  lemma ValidEmailHasOneAt(v: string)
    requires ValidEmail(v)
    ensures exists at :: 0 < at < |v| && v[at] == '@' && forall k :: 0 <= k < |v| && k != at ==> v[k] != '@'
  {
    ValidEmailMatchesPattern(v);
  }

  // ---------------------------------------------------------------------
  // phoneNumber: /^\d{10}$/
  // ---------------------------------------------------------------------

  /** The ECMAScript class `\d`, which is ASCII digits only. */
  predicate IsDigit(c: char) {
    '0' <= c <= '9'
  }

  /** The phone validator accepts exactly the strings `\d{10}` matches. */
  predicate ValidPhone(v: string): (ok: bool)
    ensures ok <==> DigitRun(v, 10)
  {
    DigitRunIsAllDigits(v, 10);
    |v| == 10 && forall k :: 0 <= k < |v| ==> IsDigit(v[k])
  }

  /** The anchored pattern `\d{n}`, read as `n` repetitions of `\d`. */
  ghost predicate DigitRun(v: string, n: nat) {
    if n == 0 then v == []
    else |v| > 0 && IsDigit(v[0]) && DigitRun(v[1..], n - 1)
  }

  lemma {:induction false} DigitRunIsAllDigits(v: string, n: nat)
    ensures DigitRun(v, n) <==> |v| == n && forall k :: 0 <= k < |v| ==> IsDigit(v[k])
  {
    if n > 0 && |v| > 0 {
      DigitRunIsAllDigits(v[1..], n - 1);
      assert forall k :: 1 <= k < |v| ==> v[k] == v[1..][k - 1];
    }
  }

  // ---------------------------------------------------------------------
  // Required flags and the per-path check
  // ---------------------------------------------------------------------

  /** Whether a path's value is rejected: a missing value on a save (the
      required check), an empty string (it fails the required check), or a
      value its validator refuses. On an update a missing path is not part
      of the update and is not checked. */
  predicate Rejects(v: Option<string>, mode: Mode, valid: string -> bool) {
    match v
    case None => mode == OnCreate
    case Some(s) => s == "" || !valid(s)
  }

  /** The errors one path contributes: none, or exactly one naming the path,
      carrying the required message when the value is missing or empty and
      the validator's message otherwise, and the rejected value. */
  function CheckPath(path: string, v: Option<string>, mode: Mode, valid: string -> bool,
                     requiredMsg: string, invalidMsg: string): (errs: seq<FieldErr>)
    ensures |errs| <= 1
    ensures errs == [] <==> !Rejects(v, mode, valid)
    ensures errs != [] ==> errs[0].path == path && errs[0].value == v
    ensures errs != [] ==> errs[0].message == (if v == None || v == Some("") then requiredMsg else invalidMsg)
  {
    match v
    case None => if mode == OnCreate then [FieldErr(path, requiredMsg, v)] else []
    case Some(s) =>
      if s == "" then [FieldErr(path, requiredMsg, v)]
      else if !valid(s) then [FieldErr(path, invalidMsg, v)]
      else []
  }

  /** The name path's errors: required, then length of at least 3. */
  function NameCheck(c: Candidate, mode: Mode): seq<FieldErr> {
    CheckPath("name", c.name, mode, ValidName, NameRequired, NameTooShort)
  }

  /** The email path's errors: required, then the email pattern. */
  function EmailCheck(c: Candidate, mode: Mode): seq<FieldErr> {
    CheckPath("email", c.email, mode, ValidEmail, EmailRequired, EmailMalformed)
  }

  /** The phoneNumber path's errors: required, then exactly ten digits. */
  function PhoneCheck(c: Candidate, mode: Mode): seq<FieldErr> {
    CheckPath("phoneNumber", c.phoneNumber, mode, ValidPhone, PhoneRequired, PhoneMalformed)
  }

  /** Validation of a candidate: every path is checked independently and all
      failures are collected, in schema order. `message` has no rule. */
  function Validate(c: Candidate, mode: Mode): (errs: seq<FieldErr>)
    ensures |errs| <= 3
    ensures forall e :: e in errs ==> e.path == "name" || e.path == "email" || e.path == "phoneNumber"
  {
    NameCheck(c, mode) + EmailCheck(c, mode) + PhoneCheck(c, mode)
  }

  /** The errors reported for one path. */
  function ErrorsAt(errs: seq<FieldErr>, path: string): (r: seq<FieldErr>)
    ensures forall e :: e in r ==> e in errs && e.path == path
  {
    if errs == [] then []
    else (if errs[0].path == path then [errs[0]] else []) + ErrorsAt(errs[1..], path)
  }

  lemma {:induction false} ErrorsAtAppend(a: seq<FieldErr>, b: seq<FieldErr>, path: string)
    ensures ErrorsAt(a + b, path) == ErrorsAt(a, path) + ErrorsAt(b, path)
  {
    if a == [] {
      assert a + b == b;
    } else {
      assert (a + b)[0] == a[0];
      assert (a + b)[1..] == a[1..] + b;
      ErrorsAtAppend(a[1..], b, path);
    }
  }

  /** A check's errors, all on one path, are reported at that path and no other. */
  lemma ErrorsAtOnePath(errs: seq<FieldErr>, p: string, q: string)
    requires |errs| <= 1 && forall e :: e in errs ==> e.path == p
    ensures ErrorsAt(errs, q) == if p == q then errs else []
  {
    if errs != [] {
      assert errs[1..] == [];
    }
  }

  /** The errors validation reports at one path are that path's own check. */
  lemma ValidateErrorsAt(c: Candidate, mode: Mode, path: string)
    ensures ErrorsAt(Validate(c, mode), path) ==
      (if path == "name" then NameCheck(c, mode) else [])
      + (if path == "email" then EmailCheck(c, mode) else [])
      + (if path == "phoneNumber" then PhoneCheck(c, mode) else [])
  {
    var n, e, p := NameCheck(c, mode), EmailCheck(c, mode), PhoneCheck(c, mode);
    ErrorsAtAppend(n + e, p, path);
    ErrorsAtAppend(n, e, path);
    ErrorsAtOnePath(n, "name", path);
    ErrorsAtOnePath(e, "email", path);
    ErrorsAtOnePath(p, "phoneNumber", path);
  }

  /** Validation reports exactly one error for each failing path and none for
      a path that passes. */
  lemma ValidateReportsEachFailingPath(c: Candidate, mode: Mode)
    ensures |ErrorsAt(Validate(c, mode), "name")| == if Rejects(c.name, mode, ValidName) then 1 else 0
    ensures |ErrorsAt(Validate(c, mode), "email")| == if Rejects(c.email, mode, ValidEmail) then 1 else 0
    ensures |ErrorsAt(Validate(c, mode), "phoneNumber")| == if Rejects(c.phoneNumber, mode, ValidPhone) then 1 else 0
  {
    ValidateErrorsAt(c, mode, "name");
    ValidateErrorsAt(c, mode, "email");
    ValidateErrorsAt(c, mode, "phoneNumber");
  }

  /** Validation fails exactly when some path fails and never depends on
      the optional `message`. */
  lemma ValidateFailsIffSomePathFails(c: Candidate, mode: Mode)
    ensures Validate(c, mode) == [] <==>
      !Rejects(c.name, mode, ValidName) && !Rejects(c.email, mode, ValidEmail) && !Rejects(c.phoneNumber, mode, ValidPhone)
    ensures forall m :: Validate(c.(message := m), mode) == Validate(c, mode)
  {
  }

  /** The rules a stored record satisfies. */
  predicate WellFormed(r: Contact) {
    ValidName(r.name) && ValidEmail(r.email) && ValidPhone(r.phoneNumber)
  }

  /** A fresh document: the four submitted fields, and both timestamps
      defaulted to the same clock reading. */
  function NewContact(id: Id, c: Candidate, now: Time): (r: Contact)
    requires Validate(c, OnCreate) == []
    ensures r.id == id && r.createdAt == now && r.updatedAt == now
    ensures Some(r.name) == c.name && Some(r.email) == c.email && Some(r.phoneNumber) == c.phoneNumber
    ensures r.message == c.message
    ensures WellFormed(r)
  {
    Contact(id, c.name.value, c.email.value, c.phoneNumber.value, c.message, now, now)
  }

  /** The document after an update: each path the update names is replaced,
      the others are kept, `updatedAt` takes the clock reading, and the id and
      `createdAt` never change. */
  function Merge(old_: Contact, c: Candidate, now: Time): (r: Contact)
    requires Validate(c, OnUpdate) == []
    requires WellFormed(old_)
    ensures r.id == old_.id && r.createdAt == old_.createdAt && r.updatedAt == now
    ensures r.name == (if c.name.Some? then c.name.value else old_.name)
    ensures r.email == (if c.email.Some? then c.email.value else old_.email)
    ensures r.phoneNumber == (if c.phoneNumber.Some? then c.phoneNumber.value else old_.phoneNumber)
    ensures r.message == (if c.message.Some? then c.message else old_.message)
    ensures WellFormed(r)
  {
    old_.(
      name := if c.name.Some? then c.name.value else old_.name,
      email := if c.email.Some? then c.email.value else old_.email,
      phoneNumber := if c.phoneNumber.Some? then c.phoneNumber.value else old_.phoneNumber,
      message := if c.message.Some? then c.message else old_.message,
      updatedAt := now)
  }

  // ---------------------------------------------------------------------
  // The unique constraints on email and phoneNumber
  // ---------------------------------------------------------------------

  /** No two stored records share an email, and no two share a phone number. */
  ghost predicate UniqueKeys(records: map<Id, Contact>) {
    forall a, b :: a in records && b in records && a != b ==>
      records[a].email != records[b].email && records[a].phoneNumber != records[b].phoneNumber
  }

  /** Every record is stored under its own id. */
  ghost predicate KeyedById(records: map<Id, Contact>) {
    forall id :: id in records ==> records[id].id == id
  }
}
