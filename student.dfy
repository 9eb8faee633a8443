/** The `Student` model: the stored record, the document it is written
    as, and the two validators, for the login data derived from an address
    and for a profile update sent by the client. */
module StudentModel {
  import opened Js
  import opened Text
  import EmailParser

  // ---------------------------------------------------------------------
  // The record

  /** The keys every document has; `createdAt` is added only when set. */
  const BaseDocumentKeys: set<string> :=
    {"uid", "name", "email", "department", "year", "Rollnumber", "Hosterler",
     "Block", "Roomnumber", "Gender", "lastLoginTime"}

  class Student {
    var uid: Value
    var name: Value
    var Rollnumber: Value
    var email: Value
    var Hosterler: Value
    var Block: Value
    var Roomnumber: Value
    var department: Value
    var year: Value
    var Gender: Value
    var lastLoginTime: Value
    var createdAt: Value

    /** `new Student(data)`: the defaults (`null`, and `now` for the
        `new Date()` of `lastLoginTime`) apply to the properties that are
        `undefined`. */
    constructor (data: map<string, Value>, now: Value)
      ensures uid == Get(data, "uid") && name == Get(data, "name") && email == Get(data, "email")
      ensures department == Get(data, "department") && year == Get(data, "year")
      ensures Rollnumber == OrDefault(Get(data, "Rollnumber"), Null)
      ensures Hosterler == OrDefault(Get(data, "Hosterler"), Null)
      ensures Block == OrDefault(Get(data, "Block"), Null)
      ensures Roomnumber == OrDefault(Get(data, "Roomnumber"), Null)
      ensures Gender == OrDefault(Get(data, "Gender"), Null)
      ensures lastLoginTime == OrDefault(Get(data, "lastLoginTime"), now)
      ensures createdAt == OrDefault(Get(data, "createdAt"), Null)
    {
      uid := Get(data, "uid");
      name := Get(data, "name");
      Rollnumber := OrDefault(Get(data, "Rollnumber"), Null);
      email := Get(data, "email");
      Hosterler := OrDefault(Get(data, "Hosterler"), Null);
      Block := OrDefault(Get(data, "Block"), Null);
      Roomnumber := OrDefault(Get(data, "Roomnumber"), Null);
      department := Get(data, "department");
      year := Get(data, "year");
      Gender := OrDefault(Get(data, "Gender"), Null);
      lastLoginTime := OrDefault(Get(data, "lastLoginTime"), now);
      createdAt := OrDefault(Get(data, "createdAt"), Null);
    }

    /** The student's twelve properties, by name. */
    function Properties(): map<string, Value>
      reads this
    {
      map["uid" := uid, "name" := name, "email" := email, "department" := department, "year" := year,
          "Rollnumber" := Rollnumber, "Hosterler" := Hosterler, "Block" := Block, "Roomnumber" := Roomnumber,
          "Gender" := Gender, "lastLoginTime" := lastLoginTime, "createdAt" := createdAt]
    }

    /** `toFirestoreDocument()`: the eleven base keys always, `createdAt`
        exactly when it is truthy, each key holding its field. */
    method ToFirestoreDocument() returns (doc: map<string, Value>)
      ensures doc.Keys == BaseDocumentKeys + (if Truthy(createdAt) then {"createdAt"} else {})
      ensures forall k :: k in doc ==> k in Properties() && doc[k] == Properties()[k]
    {
      doc := map[
        "uid" := uid,
        "name" := name,
        "email" := email,
        "department" := department,
        "year" := year,
        "Rollnumber" := Rollnumber,
        "Hosterler" := Hosterler,
        "Block" := Block,
        "Roomnumber" := Roomnumber,
        "Gender" := Gender,
        "lastLoginTime" := lastLoginTime
      ];
      if Truthy(createdAt) {
        doc := doc["createdAt" := createdAt];
      }
    }

    /** `toApiResponse()`: the same document as `toFirestoreDocument()`. */
    method ToApiResponse() returns (doc: map<string, Value>)
      ensures doc.Keys == BaseDocumentKeys + (if Truthy(createdAt) then {"createdAt"} else {})
      ensures forall k :: k in doc ==> k in Properties() && doc[k] == Properties()[k]
    {
      doc := ToFirestoreDocument();
    }

    // -------------------------------------------------------------------
    // Validators (static in the source)

    /** `Student.validateLoginData({uid, name, email, department, year})`,
        with an absent property passed as `Undefined`. */
    static method ValidateLoginData(uid: Value, name: Value, email: Value, department: Value, year: Value)
      returns (r: LoginValidation)
      ensures r.errors == LoginErrors(uid, name, email, department, year)
      ensures r.isValid <==> r.errors == []
    {
      var errors: seq<string> := [];
      var validations := LoginValidations(uid, name, email, department, year);
      for i := 0 to |validations|
        invariant errors == FailedMessages(validations[..i])
      {
        var validation := validations[i];
        if !validation.condition(validation.value) {
          errors := errors + [validation.message];
        }
        FailedMessagesStep(validations, i);
      }
      assert validations[..|validations|] == validations;
      LoginValidationsAgree(uid, name, email, department, year);
      r := LoginValidation(|errors| == 0, errors);
    }

    /** `Student.validateProfileUpdateData(updateData)`: accumulates the
        errors, updates the caller's object in place when `Hosterler` is
        `"No"`, and hands back that same object as `sanitizedData`; or
        throws the `TypeError` of calling `trim` on a truthy non-string. */
    static method ValidateProfileUpdateData(updateData: JsObject) returns (r: Result<ProfileValidation, Thrown>)
      modifies updateData
      ensures updateData.props == Sanitize(old(updateData.props))
      ensures match UpdateErrors(old(updateData.props))
        case Err(e) => r == Err(e)
        case Ok(errs) => r == Ok(ProfileValidation(errs == [], errs, updateData))
    {
      var given := updateData.props;
      var errors := CheckForbiddenFields(given);
      errors := CheckFieldRules(given, errors);

      if Get(updateData.props, "Hosterler") == Str("No") {
        updateData.props := updateData.props["Block" := Null]["Roomnumber" := Null];
      }

      SanitizeKeepsHosterler(given);
      var hostel := CheckHostelFields(updateData.props, errors);
      match hostel {
        case Err(e) => return Err(e);
        case Ok(all) => r := Ok(ProfileValidation(|all| == 0, all, updateData));
      }
    }

    /** The `Hosterler === 'Yes'` block: appends the `Block` and then the
        `Roomnumber` message when that field is missing or blank, and
        throws where `trim` is called on a truthy non-string. */
    static method CheckHostelFields(data: map<string, Value>, errors0: seq<string>)
      returns (r: Result<seq<string>, Thrown>)
      ensures match HostelErrors(data)
        case Err(e) => r == Err(e)
        case Ok(h) => r == Ok(errors0 + h)
    {
      var errors := errors0;
      if Get(data, "Hosterler") == Str("Yes") {
        var block := Get(data, "Block");
        if !Truthy(block) {
          errors := errors + [BlockMessage];
        } else if !block.Str? {
          return Err(TypeError);
        } else if |Trim(block.s)| == 0 {
          errors := errors + [BlockMessage];
        }
        assert errors == errors0 + HostelFieldCheck(block, BlockMessage).value;
        var room := Get(data, "Roomnumber");
        if !Truthy(room) {
          errors := errors + [RoomnumberMessage];
        } else if !room.Str? {
          return Err(TypeError);
        } else if |Trim(room.s)| == 0 {
          errors := errors + [RoomnumberMessage];
        }
        assert errors == errors0 + HostelFieldCheck(block, BlockMessage).value
                                 + HostelFieldCheck(room, RoomnumberMessage).value;
        assert errors == errors0 + (HostelFieldCheck(block, BlockMessage).value
                                    + HostelFieldCheck(room, RoomnumberMessage).value);
      } else {
        assert errors == errors0 + [];
      }
      r := Ok(errors);
    }

    /** The `forbiddenFields.forEach` pass: one message per forbidden key
        the update holds, in list order. */
    static method CheckForbiddenFields(data: map<string, Value>) returns (errors: seq<string>)
      ensures errors == ForbiddenFieldErrors(data, ForbiddenFields)
    {
      errors := [];
      for i := 0 to |ForbiddenFields|
        invariant errors == ForbiddenFieldErrors(data, ForbiddenFields[..i])
      {
        var field := ForbiddenFields[i];
        if field in data {
          errors := errors + [CannotUpdateMessage(field)];
        }
        ForbiddenFieldErrorsStep(data, ForbiddenFields, i);
      }
      assert ForbiddenFields[..|ForbiddenFields|] == ForbiddenFields;
    }

    /** The `Object.entries(validations).forEach` pass: appends the message
        of each present field that fails its rule, in rule order. */
    static method CheckFieldRules(data: map<string, Value>, errors0: seq<string>) returns (errors: seq<string>)
      ensures errors == errors0 + FieldRuleErrors(data, FieldRules)
    {
      errors := errors0;
      var validations := FieldRules;
      for j := 0 to |validations|
        invariant errors == errors0 + FieldRuleErrors(data, validations[..j])
      {
        var rule := validations[j];
        var value := Get(data, rule.field);
        if value != Undefined && !rule.condition(value) {
          errors := errors + [rule.message];
        }
        FieldRuleErrorsStep(data, validations, j);
      }
      assert validations[..|validations|] == validations;
    }
  }

  // ---------------------------------------------------------------------
  // Login data

  datatype LoginValidation = LoginValidation(isValid: bool, errors: seq<string>)

  /** One entry of a `validations` array: a value, the condition it must
      meet and the message pushed when it does not. */
  datatype Validation = Validation(value: Value, condition: Value -> bool, message: string)

  const UidMessage: string := "Valid UID is required"
  const NameMessage: string := "Valid name is required"
  const EmailMessage: string := "Valid email is required"
  const DepartmentMessage: string := "Valid department is required"
  const YearMessage: string := "Valid year (4 digits) is required"

  predicate IsValidName(v: Value) {
    IsNonEmptyString(v) && |Trim(v.s)| > 0
  }

  predicate IsValidEmail(v: Value) {
    IsNonEmptyString(v) && '@' in v.s
  }

  /** `/^\d{4}$/.test(val)` on a non-empty string. */
  predicate IsValidYear(v: Value) {
    IsNonEmptyString(v) && |v.s| == 4 && AllDigits(v.s)
  }

  /** The source's rule list, in its order. */
  function LoginValidations(uid: Value, name: Value, email: Value, department: Value, year: Value): seq<Validation> {
    [ Validation(uid, IsNonEmptyString, UidMessage),
      Validation(name, IsValidName, NameMessage),
      Validation(email, IsValidEmail, EmailMessage),
      Validation(department, IsNonEmptyString, DepartmentMessage),
      Validation(year, IsValidYear, YearMessage) ]
  }

  /** The messages of the failing rules, in rule order. */
  function FailedMessages(validations: seq<Validation>): seq<string> {
    if validations == [] then []
    else
      var last := validations[|validations| - 1];
      FailedMessages(validations[..|validations| - 1])
        + Report(last.condition(last.value), last.message)
  }

  /** At most one message per rule. */
  lemma {:induction false} FailedMessagesBound(validations: seq<Validation>)
    ensures |FailedMessages(validations)| <= |validations|
  {
    if validations != [] {
      FailedMessagesBound(validations[..|validations| - 1]);
    }
  }

  /** One more rule of the list. */
  lemma FailedMessagesStep(validations: seq<Validation>, i: nat)
    requires i < |validations|
    ensures FailedMessages(validations[..i + 1]) == FailedMessages(validations[..i])
      + Report(validations[i].condition(validations[i].value), validations[i].message)
  {
    assert validations[..i + 1][..i] == validations[..i];
  }

  /** The message a rule contributes: nothing when it holds. */
  function Report(holds: bool, message: string): seq<string> {
    if holds then [] else [message]
  }

  /** Reference: the messages login validation reports, one per failing
      rule, in the order uid, name, email, department, year. */
  function LoginErrors(uid: Value, name: Value, email: Value, department: Value, year: Value): seq<string> {
    Report(IsNonEmptyString(uid), UidMessage)
    + Report(IsValidName(name), NameMessage)
    + Report(IsValidEmail(email), EmailMessage)
    + Report(IsNonEmptyString(department), DepartmentMessage)
    + Report(IsValidYear(year), YearMessage)
  }

  /** Each rule's message is present exactly when that rule fails, there
      are at most five, and none exactly when all five rules pass. */
  lemma LoginErrorsMeaning(uid: Value, name: Value, email: Value, department: Value, year: Value)
    ensures var errors := LoginErrors(uid, name, email, department, year);
      && |errors| <= 5
      && (UidMessage in errors <==> !IsNonEmptyString(uid))
      && (NameMessage in errors <==> !IsValidName(name))
      && (EmailMessage in errors <==> !IsValidEmail(email))
      && (DepartmentMessage in errors <==> !IsNonEmptyString(department))
      && (YearMessage in errors <==> !IsValidYear(year))
      && (errors == [] <==>
            IsNonEmptyString(uid) && IsValidName(name) && IsValidEmail(email)
            && IsNonEmptyString(department) && IsValidYear(year))
  {
    LoginMessagesDistinct();
    FiveReports(IsNonEmptyString(uid), IsValidName(name), IsValidEmail(email),
      IsNonEmptyString(department), IsValidYear(year),
      UidMessage, NameMessage, EmailMessage, DepartmentMessage, YearMessage);
  }

  /** A message is in a list of reports exactly when a rule carrying it
      failed. */
  lemma ReportsMember(before: seq<string>, holds: bool, message: string, x: string)
    ensures x in before + Report(holds, message) <==> x in before || (!holds && x == message)
  {
  }

  /** Five reports with distinct messages, in the abstract. */
  lemma FiveReports(b1: bool, b2: bool, b3: bool, b4: bool, b5: bool,
                    m1: string, m2: string, m3: string, m4: string, m5: string)
    requires m1 != m2 && m1 != m3 && m1 != m4 && m1 != m5 && m2 != m3
    requires m2 != m4 && m2 != m5 && m3 != m4 && m3 != m5 && m4 != m5
    ensures var e := Report(b1, m1) + Report(b2, m2) + Report(b3, m3) + Report(b4, m4) + Report(b5, m5);
      && |e| <= 5
      && (m1 in e <==> !b1) && (m2 in e <==> !b2) && (m3 in e <==> !b3)
      && (m4 in e <==> !b4) && (m5 in e <==> !b5)
      && (e == [] <==> b1 && b2 && b3 && b4 && b5)
  {
    var e1 := Report(b1, m1);
    var e2 := e1 + Report(b2, m2);
    var e3 := e2 + Report(b3, m3);
    var e4 := e3 + Report(b4, m4);
    var e := e4 + Report(b5, m5);
    assert m1 in e1 <==> !b1;
    forall x | x in {m1, m2, m3, m4, m5}
      ensures x in e <==>
        ((x == m1 && !b1) || (x == m2 && !b2) || (x == m3 && !b3) || (x == m4 && !b4) || (x == m5 && !b5))
    {
      ReportsMember([], b1, m1, x);
      ReportsMember(e1, b2, m2, x);
      ReportsMember(e2, b3, m3, x);
      ReportsMember(e3, b4, m4, x);
      ReportsMember(e4, b5, m5, x);
    }
  }

  lemma LoginMessagesDistinct()
    ensures UidMessage != NameMessage && UidMessage != EmailMessage && UidMessage != DepartmentMessage
    ensures UidMessage != YearMessage && NameMessage != EmailMessage && NameMessage != DepartmentMessage
    ensures NameMessage != YearMessage && EmailMessage != DepartmentMessage && EmailMessage != YearMessage
    ensures DepartmentMessage != YearMessage
  {
    assert |UidMessage| == 21 && |NameMessage| == 22 && |EmailMessage| == 23;
    assert |DepartmentMessage| == 28 && |YearMessage| == 33;
  }

  /** A rule appended to a list adds its own report after the others. */
  lemma FailedMessagesSnoc(validations: seq<Validation>, v: Validation)
    ensures FailedMessages(validations + [v])
         == FailedMessages(validations) + Report(v.condition(v.value), v.message)
  {
    assert (validations + [v])[..|validations|] == validations;
  }

  /** Five rules run in order report one message per failing rule. */
  lemma FiveRules(v0: Validation, v1: Validation, v2: Validation, v3: Validation, v4: Validation)
    ensures FailedMessages([v0, v1, v2, v3, v4])
         == Report(v0.condition(v0.value), v0.message)
          + Report(v1.condition(v1.value), v1.message)
          + Report(v2.condition(v2.value), v2.message)
          + Report(v3.condition(v3.value), v3.message)
          + Report(v4.condition(v4.value), v4.message)
  {
    FailedMessagesSnoc([], v0);
    assert [] + [v0] == [v0];
    SnocRule([v0], v1, [v0, v1]);
    SnocRule([v0, v1], v2, [v0, v1, v2]);
    SnocRule([v0, v1, v2], v3, [v0, v1, v2, v3]);
    SnocRule([v0, v1, v2, v3], v4, [v0, v1, v2, v3, v4]);
  }

  /** `FailedMessagesSnoc` in the display form the five rules use. */
  lemma SnocRule(validations: seq<Validation>, v: Validation, whole: seq<Validation>)
    requires whole == validations + [v]
    ensures FailedMessages(whole)
         == FailedMessages(validations) + Report(v.condition(v.value), v.message)
  {
    FailedMessagesSnoc(validations, v);
  }

  /** Running the rule list gives the reference messages, in the order
      uid, name, email, department, year. */
  lemma LoginValidationsAgree(uid: Value, name: Value, email: Value, department: Value, year: Value)
    ensures FailedMessages(LoginValidations(uid, name, email, department, year))
         == LoginErrors(uid, name, email, department, year)
  {
    FiveRules(Validation(uid, IsNonEmptyString, UidMessage),
      Validation(name, IsValidName, NameMessage),
      Validation(email, IsValidEmail, EmailMessage),
      Validation(department, IsNonEmptyString, DepartmentMessage),
      Validation(year, IsValidYear, YearMessage));
  }

  // ---------------------------------------------------------------------
  // Profile updates

  datatype ProfileValidation = ProfileValidation(isValid: bool, errors: seq<string>, sanitizedData: JsObject)

  /** The keys a profile update may not set, in the order they are
      reported. */
  const ForbiddenFields: seq<string> := ["uid", "email", "name", "department", "year", "createdAt"]

  const LockPrefix: string := "Field '"
  const LockSuffix: string := "' cannot be updated"

  function CannotUpdateMessage(field: string): string {
    LockPrefix + field + LockSuffix
  }

  /** The messages that report a forbidden key all start alike. */
  predicate IsLockMessage(s: string) {
    |s| >= |LockPrefix| && s[..|LockPrefix|] == LockPrefix
  }

  const RollnumberRuleMessage: string := "Roll number must be a non-empty string"
  const HosterlerRuleMessage: string := "Hosterler must be either \"Yes\" or \"No\""
  const GenderRuleMessage: string := "Gender must be \"Male\", \"Female\", or \"Other\""
  const BlockMessage: string := "Block is required for hostelers"
  const RoomnumberMessage: string := "Room number is required for hostelers"

  predicate IsValidRollnumber(v: Value) {
    v == Null || (v.Str? && |Trim(v.s)| > 0)
  }

  predicate IsValidHosterler(v: Value) {
    v == Null || v == Str("Yes") || v == Str("No")
  }

  predicate IsValidGender(v: Value) {
    v == Null || v == Str("Male") || v == Str("Female") || v == Str("Other")
  }

  /** One entry of the `validations` object: the field, its condition and
      its message. */
  datatype FieldRule = FieldRule(field: string, condition: Value -> bool, message: string)

  const FieldRules: seq<FieldRule> := [
    FieldRule("Rollnumber", IsValidRollnumber, RollnumberRuleMessage),
    FieldRule("Hosterler", IsValidHosterler, HosterlerRuleMessage),
    FieldRule("Gender", IsValidGender, GenderRuleMessage)
  ]

  /** One message per listed field the update holds, in list order. */
  function ForbiddenFieldErrors(m: map<string, Value>, fields: seq<string>): seq<string> {
    if fields == [] then []
    else
      var f := fields[|fields| - 1];
      ForbiddenFieldErrors(m, fields[..|fields| - 1]) + (if f in m then [CannotUpdateMessage(f)] else [])
  }

  /** The message of each rule whose field is present (not `undefined`)
      and fails its condition, in rule order. */
  function FieldRuleErrors(m: map<string, Value>, rules: seq<FieldRule>): seq<string> {
    if rules == [] then []
    else
      var rule := rules[|rules| - 1];
      var value := Get(m, rule.field);
      FieldRuleErrors(m, rules[..|rules| - 1])
        + (if value != Undefined && !rule.condition(value) then [rule.message] else [])
  }

  /** At most one message per listed key. */
  lemma {:induction false} ForbiddenFieldErrorsBound(m: map<string, Value>, fields: seq<string>)
    ensures |ForbiddenFieldErrors(m, fields)| <= |fields|
  {
    if fields != [] {
      ForbiddenFieldErrorsBound(m, fields[..|fields| - 1]);
    }
  }

  /** At most one message per rule. */
  lemma {:induction false} FieldRuleErrorsBound(m: map<string, Value>, rules: seq<FieldRule>)
    ensures |FieldRuleErrors(m, rules)| <= |rules|
  {
    if rules != [] {
      FieldRuleErrorsBound(m, rules[..|rules| - 1]);
    }
  }

  /** One more key of the list. */
  lemma ForbiddenFieldErrorsStep(m: map<string, Value>, fields: seq<string>, i: nat)
    requires i < |fields|
    ensures ForbiddenFieldErrors(m, fields[..i + 1])
         == ForbiddenFieldErrors(m, fields[..i]) + (if fields[i] in m then [CannotUpdateMessage(fields[i])] else [])
  {
    assert fields[..i + 1][..i] == fields[..i];
  }

  /** One more rule of the list. */
  lemma FieldRuleErrorsStep(m: map<string, Value>, rules: seq<FieldRule>, j: nat)
    requires j < |rules|
    ensures FieldRuleErrors(m, rules[..j + 1])
         == FieldRuleErrors(m, rules[..j])
          + (if Get(m, rules[j].field) != Undefined && !rules[j].condition(Get(m, rules[j].field))
             then [rules[j].message] else [])
  {
    assert rules[..j + 1][..j] == rules[..j];
  }

  /** `!v || v.trim().length === 0`, which throws on a truthy
      non-string. */
  function HostelFieldCheck(v: Value, message: string): Result<seq<string>, Thrown> {
    if !Truthy(v) then Ok([message])
    else if !v.Str? then Err(TypeError)
    else if |Trim(v.s)| == 0 then Ok([message])
    else Ok([])
  }

  /** The checks for `Hosterler === "Yes"`: `Block`, then `Roomnumber`. */
  function HostelErrors(m: map<string, Value>): Result<seq<string>, Thrown> {
    if Get(m, "Hosterler") != Str("Yes") then Ok([])
    else
      match HostelFieldCheck(Get(m, "Block"), BlockMessage)
      case Err(e) => Err(e)
      case Ok(blockErrors) =>
        match HostelFieldCheck(Get(m, "Roomnumber"), RoomnumberMessage)
        case Err(e) => Err(e)
        case Ok(roomErrors) => Ok(blockErrors + roomErrors)
  }

  /** Everything a profile update is checked for, in reporting order:
      forbidden keys, field rules, hosteler requirements. */
  function UpdateErrors(m: map<string, Value>): Result<seq<string>, Thrown> {
    match HostelErrors(m)
    case Err(e) => Err(e)
    case Ok(hostelErrors) =>
      Ok(ForbiddenFieldErrors(m, ForbiddenFields) + FieldRuleErrors(m, FieldRules) + hostelErrors)
  }

  /** The object after validation: `Hosterler === "No"` sets `Block` and
      `Roomnumber` to `null`; nothing else is touched. */
  function Sanitize(m: map<string, Value>): map<string, Value> {
    if Get(m, "Hosterler") == Str("No") then m["Block" := Null]["Roomnumber" := Null] else m
  }

  // ---------------------------------------------------------------------
  // Properties of profile validation

  /** Different keys give different messages. */
  lemma CannotUpdateMessageInjective(a: string, b: string)
    requires CannotUpdateMessage(a) == CannotUpdateMessage(b)
    ensures a == b
  {
    var s := CannotUpdateMessage(a);
    CannotUpdateMessageParts(a);
    CannotUpdateMessageParts(b);
    assert |a| == |b|;
    assert a == s[|LockPrefix|..|LockPrefix| + |a|];
    assert b == s[|LockPrefix|..|LockPrefix| + |b|];
  }

  lemma CannotUpdateMessageParts(field: string)
    ensures CannotUpdateMessage(field) == LockPrefix + field + LockSuffix
  {
  }

  lemma CannotUpdateMessageIsLock(field: string)
    ensures IsLockMessage(CannotUpdateMessage(field))
  {
    CannotUpdateMessageParts(field);
    assert CannotUpdateMessage(field)[..|LockPrefix|] == LockPrefix;
  }

  /** Every message but the forbidden-key ones. */
  lemma OtherMessagesAreNotLock()
    ensures !IsLockMessage(RollnumberRuleMessage) && !IsLockMessage(HosterlerRuleMessage)
    ensures !IsLockMessage(GenderRuleMessage)
    ensures !IsLockMessage(BlockMessage) && !IsLockMessage(RoomnumberMessage)
  {
    assert LockPrefix[0] == 'F';
    assert RollnumberRuleMessage[0] == 'R' && HosterlerRuleMessage[0] == 'H';
    assert GenderRuleMessage[0] == 'G';
    assert BlockMessage[0] == 'B' && RoomnumberMessage[0] == 'R';
  }

  predicate Distinct(fields: seq<string>) {
    forall i, j :: 0 <= i < j < |fields| ==> fields[i] != fields[j]
  }

  /** Each listed key the update holds contributes exactly one message,
      and only the listed keys it holds contribute any. */
  lemma {:induction false} ForbiddenFieldErrorsCount(m: map<string, Value>, fields: seq<string>, field: string)
    requires Distinct(fields)
    ensures multiset(ForbiddenFieldErrors(m, fields))[CannotUpdateMessage(field)]
         == if field in fields && field in m then 1 else 0
  {
    if fields != [] {
      var init := fields[..|fields| - 1];
      var last := fields[|fields| - 1];
      var tail := if last in m then [CannotUpdateMessage(last)] else [];
      DistinctSnoc(fields);
      ForbiddenFieldErrorsCount(m, init, field);
      assert ForbiddenFieldErrors(m, fields) == ForbiddenFieldErrors(m, init) + tail;
      assert multiset(ForbiddenFieldErrors(m, fields))
          == multiset(ForbiddenFieldErrors(m, init)) + multiset(tail);
      LockCount(m, last, field);
    }
  }

  /** The last key of a list without repeats is not among the others. */
  lemma DistinctSnoc(fields: seq<string>)
    requires Distinct(fields) && fields != []
    ensures var init := fields[..|fields| - 1];
      && Distinct(init) && fields[|fields| - 1] !in init
      && forall f :: f in fields <==> f in init || f == fields[|fields| - 1]
  {
    var init := fields[..|fields| - 1];
    assert fields == init + [fields[|fields| - 1]];
  }

  /** The message of one present key counts only for that key. */
  lemma LockCount(m: map<string, Value>, key: string, field: string)
    ensures multiset(if key in m then [CannotUpdateMessage(key)] else [])[CannotUpdateMessage(field)]
         == if key in m && key == field then 1 else 0
  {
    if key in m && CannotUpdateMessage(key) == CannotUpdateMessage(field) {
      CannotUpdateMessageInjective(key, field);
    }
  }

  /** Every forbidden-key message names a key. */
  lemma {:induction false} ForbiddenFieldErrorsLocks(m: map<string, Value>, fields: seq<string>)
    ensures forall i :: 0 <= i < |ForbiddenFieldErrors(m, fields)| ==> IsLockMessage(ForbiddenFieldErrors(m, fields)[i])
  {
    if fields != [] {
      var init := fields[..|fields| - 1];
      var last := fields[|fields| - 1];
      ForbiddenFieldErrorsLocks(m, init);
      CannotUpdateMessageIsLock(last);
      var e := ForbiddenFieldErrors(m, fields);
      var e0 := ForbiddenFieldErrors(m, init);
      assert e == e0 + (if last in m then [CannotUpdateMessage(last)] else []);
      forall i | 0 <= i < |e| ensures IsLockMessage(e[i]) {
        if i < |e0| {
          assert e[i] == e0[i];
        }
      }
    }
  }

  /** The forbidden-key messages depend on which listed keys are present
      and on nothing else. */
  lemma {:induction false} ForbiddenFieldErrorsFrame(m: map<string, Value>, n: map<string, Value>, fields: seq<string>)
    requires forall i :: 0 <= i < |fields| ==> (fields[i] in m <==> fields[i] in n)
    ensures ForbiddenFieldErrors(m, fields) == ForbiddenFieldErrors(n, fields)
  {
    if fields != [] {
      ForbiddenFieldErrorsFrame(m, n, fields[..|fields| - 1]);
    }
  }

  lemma ForbiddenFieldsDistinct()
    ensures Distinct(ForbiddenFields)
  {
    assert ForbiddenFields[0][0] == 'u' && ForbiddenFields[1][0] == 'e' && ForbiddenFields[2][0] == 'n';
    assert ForbiddenFields[3][0] == 'd' && ForbiddenFields[4][0] == 'y' && ForbiddenFields[5][0] == 'c';
  }

  /** The unfolded field-rule messages, in field order. */
  lemma FieldRuleErrorsUnfold(m: map<string, Value>)
    ensures FieldRuleErrors(m, FieldRules)
         == (if Get(m, "Rollnumber") != Undefined && !IsValidRollnumber(Get(m, "Rollnumber"))
             then [RollnumberRuleMessage] else [])
          + (if Get(m, "Hosterler") != Undefined && !IsValidHosterler(Get(m, "Hosterler"))
             then [HosterlerRuleMessage] else [])
          + (if Get(m, "Gender") != Undefined && !IsValidGender(Get(m, "Gender"))
             then [GenderRuleMessage] else [])
  {
    var rs := FieldRules;
    assert rs[..2][..1] == rs[..1];
    assert rs[..1][..0] == [];
    assert FieldRuleErrors(m, rs[..1])
        == (if Get(m, "Rollnumber") != Undefined && !IsValidRollnumber(Get(m, "Rollnumber"))
            then [RollnumberRuleMessage] else []);
    assert FieldRuleErrors(m, rs[..2]) == FieldRuleErrors(m, rs[..1])
         + (if Get(m, "Hosterler") != Undefined && !IsValidHosterler(Get(m, "Hosterler"))
            then [HosterlerRuleMessage] else []);
    assert rs[..3] == rs;
  }

  /** `!v || v.trim().length === 0` without the throw: a missing, falsy or
      blank value. */
  predicate IsMissingOrBlank(v: Value) {
    !Truthy(v) || (v.Str? && |Trim(v.s)| == 0)
  }

  /** `trim` is called on a value that is no string. */
  predicate Throws(v: Value) {
    Truthy(v) && !v.Str?
  }

  /** Validation throws exactly when a hosteler's `Block` or `Roomnumber`
      is a truthy non-string. */
  lemma UpdateErrorsThrows(m: map<string, Value>)
    ensures UpdateErrors(m).Err? <==>
      Get(m, "Hosterler") == Str("Yes") && (Throws(Get(m, "Block")) || Throws(Get(m, "Roomnumber")))
  {
  }

  /** No message of the forbidden-key check is any other message. */
  lemma {:induction false} ForbiddenFieldErrorsOnlyLock(m: map<string, Value>, fields: seq<string>, x: string)
    requires !IsLockMessage(x)
    ensures x !in ForbiddenFieldErrors(m, fields)
  {
    if fields != [] {
      ForbiddenFieldErrorsOnlyLock(m, fields[..|fields| - 1], x);
      CannotUpdateMessageIsLock(fields[|fields| - 1]);
    }
  }

  /** The hosteler checks, unfolded. */
  lemma HostelErrorsUnfold(m: map<string, Value>)
    requires HostelErrors(m).Ok?
    ensures HostelErrors(m).value
         == (if Get(m, "Hosterler") == Str("Yes") && IsMissingOrBlank(Get(m, "Block")) then [BlockMessage] else [])
          + (if Get(m, "Hosterler") == Str("Yes") && IsMissingOrBlank(Get(m, "Roomnumber")) then [RoomnumberMessage] else [])
  {
  }

  /** One message per forbidden key the update holds, none for any other
      key, and these messages come before all others. */
  lemma UpdateErrorsForbidden(m: map<string, Value>, field: string)
    requires UpdateErrors(m).Ok?
    ensures var errors := UpdateErrors(m).value;
      && multiset(errors)[CannotUpdateMessage(field)] == (if field in ForbiddenFields && field in m then 1 else 0)
      && (forall i, j :: 0 <= i < j < |errors| && IsLockMessage(errors[j]) ==> IsLockMessage(errors[i]))
  {
    var ffe := ForbiddenFieldErrors(m, ForbiddenFields);
    var fre := FieldRuleErrors(m, FieldRules);
    var he := HostelErrors(m).value;
    ForbiddenFieldsDistinct();
    ForbiddenFieldErrorsCount(m, ForbiddenFields, field);
    ForbiddenFieldErrorsLocks(m, ForbiddenFields);
    CannotUpdateMessageIsLock(field);
    RestHasNoLock(m);
    LocksFirst(ffe, fre + he, CannotUpdateMessage(field));
    assert UpdateErrors(m).value == ffe + (fre + he);
  }

  /** Lock messages followed by other messages: the lock messages come
      first, and a lock message is counted in the first part alone. */
  lemma LocksFirst(locks: seq<string>, rest: seq<string>, x: string)
    requires forall i :: 0 <= i < |locks| ==> IsLockMessage(locks[i])
    requires forall y :: y in rest ==> !IsLockMessage(y)
    requires IsLockMessage(x)
    ensures multiset(locks + rest)[x] == multiset(locks)[x]
    ensures var errors := locks + rest;
      forall i, j :: 0 <= i < j < |errors| && IsLockMessage(errors[j]) ==> IsLockMessage(errors[i])
  {
    var errors := locks + rest;
    assert x !in rest;
    assert multiset(errors) == multiset(locks) + multiset(rest);
    forall j | |locks| <= j < |errors| ensures !IsLockMessage(errors[j]) {
      assert errors[j] == rest[j - |locks|];
      assert rest[j - |locks|] in rest;
    }
    forall i | 0 <= i < |locks| ensures IsLockMessage(errors[i]) {
      assert errors[i] == locks[i];
    }
  }

  /** The field-rule and hosteler messages are no forbidden-key
      messages. */
  lemma RestHasNoLock(m: map<string, Value>)
    requires HostelErrors(m).Ok?
    ensures forall x :: x in FieldRuleErrors(m, FieldRules) ==> !IsLockMessage(x)
    ensures forall x :: x in HostelErrors(m).value ==> !IsLockMessage(x)
  {
    FieldRuleErrorsUnfold(m);
    HostelErrorsUnfold(m);
    OtherMessagesAreNotLock();
  }

  /** Each field rule's message appears once when that field is present
      and fails its rule, and never otherwise; each hosteler message
      appears once when `Hosterler` is `"Yes"` and that field is missing or
      blank, and never otherwise. */
  lemma UpdateErrorsRules(m: map<string, Value>)
    requires UpdateErrors(m).Ok?
    ensures var errors := UpdateErrors(m).value;
      && multiset(errors)[RollnumberRuleMessage]
         == (if Get(m, "Rollnumber") != Undefined && !IsValidRollnumber(Get(m, "Rollnumber")) then 1 else 0)
      && multiset(errors)[HosterlerRuleMessage]
         == (if Get(m, "Hosterler") != Undefined && !IsValidHosterler(Get(m, "Hosterler")) then 1 else 0)
      && multiset(errors)[GenderRuleMessage]
         == (if Get(m, "Gender") != Undefined && !IsValidGender(Get(m, "Gender")) then 1 else 0)
      && multiset(errors)[BlockMessage]
         == (if Get(m, "Hosterler") == Str("Yes") && IsMissingOrBlank(Get(m, "Block")) then 1 else 0)
      && multiset(errors)[RoomnumberMessage]
         == (if Get(m, "Hosterler") == Str("Yes") && IsMissingOrBlank(Get(m, "Roomnumber")) then 1 else 0)
  {
    var ffe := ForbiddenFieldErrors(m, ForbiddenFields);
    var errors := UpdateErrors(m).value;
    assert errors == ffe + FieldRuleErrors(m, FieldRules) + HostelErrors(m).value;
    OtherMessagesAreNotLock();
    ForbiddenFieldErrorsOnlyLock(m, ForbiddenFields, RollnumberRuleMessage);
    ForbiddenFieldErrorsOnlyLock(m, ForbiddenFields, HosterlerRuleMessage);
    ForbiddenFieldErrorsOnlyLock(m, ForbiddenFields, GenderRuleMessage);
    ForbiddenFieldErrorsOnlyLock(m, ForbiddenFields, BlockMessage);
    ForbiddenFieldErrorsOnlyLock(m, ForbiddenFields, RoomnumberMessage);
    FieldRuleErrorsUnfold(m);
    HostelErrorsUnfold(m);
    MessagesDistinct();
    var c1 := Get(m, "Rollnumber") != Undefined && !IsValidRollnumber(Get(m, "Rollnumber"));
    var c2 := Get(m, "Hosterler") != Undefined && !IsValidHosterler(Get(m, "Hosterler"));
    var c3 := Get(m, "Gender") != Undefined && !IsValidGender(Get(m, "Gender"));
    var c4 := Get(m, "Hosterler") == Str("Yes") && IsMissingOrBlank(Get(m, "Block"));
    var c5 := Get(m, "Hosterler") == Str("Yes") && IsMissingOrBlank(Get(m, "Roomnumber"));
    RuleCounts(ffe, FieldRuleErrors(m, FieldRules), HostelErrors(m).value, c1, c2, c3, c4, c5);
  }

  /** Counting the five distinct messages in the forbidden-key messages
      followed by the conditional ones. */
  lemma RuleCounts(ffe: seq<string>, fre: seq<string>, he: seq<string>,
                   c1: bool, c2: bool, c3: bool, c4: bool, c5: bool)
    requires RollnumberRuleMessage !in ffe && HosterlerRuleMessage !in ffe && GenderRuleMessage !in ffe
    requires BlockMessage !in ffe && RoomnumberMessage !in ffe
    requires fre == Report(!c1, RollnumberRuleMessage) + Report(!c2, HosterlerRuleMessage)
                  + Report(!c3, GenderRuleMessage)
    requires he == Report(!c4, BlockMessage) + Report(!c5, RoomnumberMessage)
    ensures var errors := ffe + fre + he;
      && multiset(errors)[RollnumberRuleMessage] == (if c1 then 1 else 0)
      && multiset(errors)[HosterlerRuleMessage] == (if c2 then 1 else 0)
      && multiset(errors)[GenderRuleMessage] == (if c3 then 1 else 0)
      && multiset(errors)[BlockMessage] == (if c4 then 1 else 0)
      && multiset(errors)[RoomnumberMessage] == (if c5 then 1 else 0)
  {
    MessagesDistinct();
    FiveCounts(ffe, c1, c2, c3, c4, c5,
      RollnumberRuleMessage, HosterlerRuleMessage, GenderRuleMessage, BlockMessage, RoomnumberMessage);
  }

  /** After messages none of which is among five distinct ones, each of
      the five appears once when its condition holds and never otherwise. */
  lemma FiveCounts(pre: seq<string>, c1: bool, c2: bool, c3: bool, c4: bool, c5: bool,
                   x1: string, x2: string, x3: string, x4: string, x5: string)
    requires x1 != x2 && x1 != x3 && x1 != x4 && x1 != x5 && x2 != x3
    requires x2 != x4 && x2 != x5 && x3 != x4 && x3 != x5 && x4 != x5
    requires x1 !in pre && x2 !in pre && x3 !in pre && x4 !in pre && x5 !in pre
    ensures var e := pre + (Report(!c1, x1) + Report(!c2, x2) + Report(!c3, x3)) + (Report(!c4, x4) + Report(!c5, x5));
      && multiset(e)[x1] == (if c1 then 1 else 0)
      && multiset(e)[x2] == (if c2 then 1 else 0)
      && multiset(e)[x3] == (if c3 then 1 else 0)
      && multiset(e)[x4] == (if c4 then 1 else 0)
      && multiset(e)[x5] == (if c5 then 1 else 0)
  {
    Track(pre, c1, c2, c3, c4, c5, x1, x2, x3, x4, x5, x1);
    Track(pre, c1, c2, c3, c4, c5, x1, x2, x3, x4, x5, x2);
    Track(pre, c1, c2, c3, c4, c5, x1, x2, x3, x4, x5, x3);
    Track(pre, c1, c2, c3, c4, c5, x1, x2, x3, x4, x5, x4);
    Track(pre, c1, c2, c3, c4, c5, x1, x2, x3, x4, x5, x5);
  }

  /** The count of one message after five optional ones. */
  lemma Track(pre: seq<string>, c1: bool, c2: bool, c3: bool, c4: bool, c5: bool,
              x1: string, x2: string, x3: string, x4: string, x5: string, y: string)
    requires y !in pre
    ensures multiset(pre + (Report(!c1, x1) + Report(!c2, x2) + Report(!c3, x3)) + (Report(!c4, x4) + Report(!c5, x5)))[y]
         == (if c1 && x1 == y then 1 else 0) + (if c2 && x2 == y then 1 else 0) + (if c3 && x3 == y then 1 else 0)
          + (if c4 && x4 == y then 1 else 0) + (if c5 && x5 == y then 1 else 0)
  {
    var p1, p2, p3, p4, p5 := Report(!c1, x1), Report(!c2, x2), Report(!c3, x3), Report(!c4, x4), Report(!c5, x5);
    var q, r := p1 + p2 + p3, p4 + p5;
    assert multiset(pre)[y] == 0;
    assert multiset(pre + q + r)[y] == multiset(pre)[y] + multiset(q)[y] + multiset(r)[y];
    assert multiset(q)[y] == multiset(p1)[y] + multiset(p2)[y] + multiset(p3)[y];
    assert multiset(r)[y] == multiset(p4)[y] + multiset(p5)[y];
    ReportCount(c1, x1, y);
    ReportCount(c2, x2, y);
    ReportCount(c3, x3, y);
    ReportCount(c4, x4, y);
    ReportCount(c5, x5, y);
  }

  lemma ReportCount(c: bool, x: string, y: string)
    ensures multiset(Report(!c, x))[y] == if c && x == y then 1 else 0
  {
  }

  lemma MessagesDistinct()
    ensures RollnumberRuleMessage != HosterlerRuleMessage && RollnumberRuleMessage != GenderRuleMessage
    ensures RollnumberRuleMessage != BlockMessage && RollnumberRuleMessage != RoomnumberMessage
    ensures HosterlerRuleMessage != GenderRuleMessage && HosterlerRuleMessage != BlockMessage
    ensures HosterlerRuleMessage != RoomnumberMessage
    ensures GenderRuleMessage != BlockMessage && GenderRuleMessage != RoomnumberMessage
    ensures BlockMessage != RoomnumberMessage
  {
    assert RollnumberRuleMessage[1] == 'o' && RoomnumberMessage[1] == 'o';
    assert RollnumberRuleMessage[2] == 'l' && RoomnumberMessage[2] == 'o';
  }

  /** A profile update never gets more than eleven messages: six
      forbidden keys, three field rules and two hosteler checks. */
  lemma UpdateErrorsBound(m: map<string, Value>)
    requires UpdateErrors(m).Ok?
    ensures |UpdateErrors(m).value| <= 11
  {
    HostelErrorsUnfold(m);
    ForbiddenFieldErrorsBound(m, ForbiddenFields);
    FieldRuleErrorsBound(m, FieldRules);
  }

  /** Validation is all that happens to an update: `errors` is empty
      exactly when no forbidden key is present, every present field passes
      its rule and a hosteler names a block and a room. */
  lemma UpdateErrorsValid(m: map<string, Value>)
    requires UpdateErrors(m).Ok?
    ensures UpdateErrors(m).value == [] <==>
      && (forall i :: 0 <= i < |ForbiddenFields| ==> ForbiddenFields[i] !in m)
      && (Get(m, "Rollnumber") == Undefined || IsValidRollnumber(Get(m, "Rollnumber")))
      && (Get(m, "Hosterler") == Undefined || IsValidHosterler(Get(m, "Hosterler")))
      && (Get(m, "Gender") == Undefined || IsValidGender(Get(m, "Gender")))
      && (Get(m, "Hosterler") == Str("Yes") ==>
            !IsMissingOrBlank(Get(m, "Block")) && !IsMissingOrBlank(Get(m, "Roomnumber")))
  {
    var ffe := ForbiddenFieldErrors(m, ForbiddenFields);
    var errors := UpdateErrors(m).value;
    assert errors == ffe + FieldRuleErrors(m, FieldRules) + HostelErrors(m).value;
    FieldRuleErrorsUnfold(m);
    HostelErrorsUnfold(m);
    if forall i :: 0 <= i < |ForbiddenFields| ==> ForbiddenFields[i] !in m {
      ForbiddenFieldErrorsFrame(m, map[], ForbiddenFields);
      ForbiddenFieldErrorsEmpty(ForbiddenFields);
      assert ffe == [];
    } else {
      var i :| 0 <= i < |ForbiddenFields| && ForbiddenFields[i] in m;
      ForbiddenFieldsDistinct();
      ForbiddenFieldErrorsCount(m, ForbiddenFields, ForbiddenFields[i]);
      assert ffe != [];
    }
  }

  lemma {:induction false} ForbiddenFieldErrorsEmpty(fields: seq<string>)
    ensures ForbiddenFieldErrors(map[], fields) == []
  {
    if fields != [] {
      ForbiddenFieldErrorsEmpty(fields[..|fields| - 1]);
    }
  }

  /** `Hosterler === "No"` sets `Block` and `Roomnumber` to `null`, adding
      the keys if they were absent, and leaves every other key as it was;
      any other update is left exactly as it was. */
  lemma SanitizeEffect(m: map<string, Value>)
    ensures var r := Sanitize(m);
      && (Get(m, "Hosterler") == Str("No") ==>
            && r.Keys == m.Keys + {"Block", "Roomnumber"}
            && r["Block"] == Null && r["Roomnumber"] == Null
            && forall k :: k in m && k != "Block" && k != "Roomnumber" ==> r[k] == m[k])
      && (Get(m, "Hosterler") != Str("No") ==> r == m)
  {
  }

  /** Sanitising leaves `Hosterler` alone, and changes nothing unless
      it is `"No"`. */
  lemma SanitizeKeepsHosterler(m: map<string, Value>)
    ensures Get(Sanitize(m), "Hosterler") == Get(m, "Hosterler")
    ensures Get(m, "Hosterler") != Str("No") ==> Sanitize(m) == m
    ensures HostelErrors(Sanitize(m)) == HostelErrors(m)
  {
  }

  /** Sanitising twice is sanitising once. */
  lemma SanitizeIdempotent(m: map<string, Value>)
    ensures Sanitize(Sanitize(m)) == Sanitize(m)
  {
    if Get(m, "Hosterler") == Str("No") {
      assert Get(Sanitize(m), "Hosterler") == Str("No");
    }
  }

  /** The sanitised object passes validation exactly as the original did:
      clearing `Block` and `Roomnumber` of a non-hosteler never changes any
      message. */
  lemma RevalidateSanitized(m: map<string, Value>)
    ensures UpdateErrors(Sanitize(m)) == UpdateErrors(m)
  {
    var n := Sanitize(m);
    if Get(m, "Hosterler") == Str("No") {
      assert Get(n, "Hosterler") == Str("No");
      assert Get(n, "Rollnumber") == Get(m, "Rollnumber") && Get(n, "Gender") == Get(m, "Gender");
      FieldRuleErrorsUnfold(m);
      FieldRuleErrorsUnfold(n);
      forall i | 0 <= i < |ForbiddenFields| ensures ForbiddenFields[i] in n <==> ForbiddenFields[i] in m {
        assert ForbiddenFields[i] != "Block" && ForbiddenFields[i] != "Roomnumber";
      }
      ForbiddenFieldErrorsFrame(m, n, ForbiddenFields);
    }
  }

  /** The keys the validator looks at. */
  const ValidatedFields: set<string> := {"Rollnumber", "Hosterler", "Gender", "Block", "Roomnumber"}

  /** `allowedFields` is never consulted: a key that is neither forbidden
      nor validated changes no message and is passed through untouched. */
  lemma ExtraKeysIgnored(m: map<string, Value>, key: string, v: Value)
    requires key !in ForbiddenFields && key !in ValidatedFields
    ensures UpdateErrors(m[key := v]) == UpdateErrors(m)
    ensures Sanitize(m[key := v]) == Sanitize(m)[key := v]
  {
    var n := m[key := v];
    forall i | 0 <= i < |ForbiddenFields| ensures ForbiddenFields[i] in n <==> ForbiddenFields[i] in m {
      assert ForbiddenFields[i] != key;
    }
    forall k | k in ValidatedFields ensures Get(n, k) == Get(m, k) {
      assert k != key;
    }
    UpdateErrorsFrame(m, n);
    SanitizeOtherKey(m, key, v);
  }

  /** What validation reports depends only on which forbidden keys are
      present and on the values of the checked fields. */
  lemma UpdateErrorsFrame(m: map<string, Value>, n: map<string, Value>)
    requires forall i :: 0 <= i < |ForbiddenFields| ==> (ForbiddenFields[i] in m <==> ForbiddenFields[i] in n)
    requires forall k :: k in ValidatedFields ==> Get(m, k) == Get(n, k)
    ensures UpdateErrors(m) == UpdateErrors(n)
  {
    ForbiddenFieldErrorsFrame(m, n, ForbiddenFields);
    assert Get(m, "Rollnumber") == Get(n, "Rollnumber") && Get(m, "Hosterler") == Get(n, "Hosterler");
    assert Get(m, "Gender") == Get(n, "Gender");
    assert Get(m, "Block") == Get(n, "Block") && Get(m, "Roomnumber") == Get(n, "Roomnumber");
    FieldRuleErrorsUnfold(m);
    FieldRuleErrorsUnfold(n);
  }

  /** Sanitising commutes with setting a key other than `Hosterler`,
      `Block` and `Roomnumber`. */
  lemma SanitizeOtherKey(m: map<string, Value>, key: string, v: Value)
    requires key != "Hosterler" && key != "Block" && key != "Roomnumber"
    ensures Sanitize(m[key := v]) == Sanitize(m)[key := v]
  {
    assert Get(m[key := v], "Hosterler") == Get(m, "Hosterler");
    if Get(m, "Hosterler") == Str("No") {
      assert m[key := v]["Block" := Null]["Roomnumber" := Null] == m["Block" := Null]["Roomnumber" := Null][key := v];
    }
  }

  // ---------------------------------------------------------------------
  // Login after parsing

  /** The login handler validates the parsed identity together with the
      token's `uid` and the address as the token gives it: the only
      messages it can get are the uid one, for a missing uid, and the name
      one, for a prefix that normalises to the empty name. */
  lemma ParsedIdentityValidation(uid: Value, email: Value, currentYear: int)
    requires EmailParser.ParseStudentEmail(email, currentYear).Ok?
    ensures var info := EmailParser.ParseStudentEmail(email, currentYear).value;
      LoginErrors(uid, Str(info.name), email, Str(info.department), Str(info.year))
      == Report(IsNonEmptyString(uid), UidMessage)
       + (if info.name == [] then [NameMessage] else [])
  {
    var info := EmailParser.ParseStudentEmail(email, currentYear).value;
    ParsedAddressValid(email, currentYear);
    ParsedNameValid(email, currentYear);
    ValidLoginErrors(uid, Str(info.name), email, Str(info.department), Str(info.year));
  }

  /** The address, year and department of a parse pass their login
      rules. */
  lemma ParsedAddressValid(email: Value, currentYear: int)
    requires EmailParser.ParseStudentEmail(email, currentYear).Ok?
    ensures var info := EmailParser.ParseStudentEmail(email, currentYear).value;
      IsValidEmail(email) && IsNonEmptyString(Str(info.department)) && IsValidYear(Str(info.year))
  {
    EmailParser.ParseAccepted(email, currentYear);
    var s := Lower(email.s);
    EmailParser.MatchSound(EmailParser.LocalPart(s));
    var at := |s| - |EmailParser.DomainSuffix|;
    assert s[at] == EmailParser.DomainSuffix[0] == '@';
    assert email.s[at] == '@';
  }

  /** The parsed name passes its login rule exactly when it is not
      empty. */
  lemma ParsedNameValid(email: Value, currentYear: int)
    requires EmailParser.ParseStudentEmail(email, currentYear).Ok?
    ensures var info := EmailParser.ParseStudentEmail(email, currentYear).value;
      IsValidName(Str(info.name)) <==> info.name != []
  {
    EmailParser.ParseSuccess(email, currentYear);
    CleanNameValid(EmailParser.ParseStudentEmail(email, currentYear).value.name);
  }

  /** A normalised name passes the name rule exactly when it is not
      empty. */
  lemma CleanNameValid(name: string)
    requires IsCleanText(name)
    ensures IsValidName(Str(name)) <==> name != []
  {
    if name != [] {
      TrimEmptyIffBlank(name);
      assert !IsSpace(name[0]);
    }
  }


  /** The login messages when email, department and year are valid. */
  lemma ValidLoginErrors(uid: Value, name: Value, email: Value, department: Value, year: Value)
    requires IsValidEmail(email) && IsNonEmptyString(department) && IsValidYear(year)
    ensures LoginErrors(uid, name, email, department, year)
         == Report(IsNonEmptyString(uid), UidMessage) + Report(IsValidName(name), NameMessage)
  {
  }
}
