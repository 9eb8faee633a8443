# Student identity and profile core, modelled in Dafny

This project models the logic at the centre of the ZerothDay student
backend:

- **The institutional address parser** (`parseStudentEmail`). It takes the
  address a sign-in token carries. It checks that the address belongs to
  the `sece.ac.in` domain. It then splits the part before the `@` into a
  name, a four-digit year of entry and a department code, and returns the
  student's normalised identity. Otherwise it names the first check that
  failed.
- **The `Student` record.**
  - Its constructor fills in the defaults.
  - `toFirestoreDocument` and `toApiResponse` produce the stored document.
  - The static `validateLoginData` checks the identity the login handler is
    about to store.
  - The static `validateProfileUpdateData` checks a profile update sent by
    the client. It clears the hostel fields of a day scholar in the
    client's own object, or throws on a malformed hostel field.

Modules:

- `Js` (`js.dfy`): the JavaScript values the code inspects, as
  `Undefined | Null | Str(s) | Other(truthy)`. It also holds truthiness,
  property reads with `undefined` for a missing key, and destructuring
  defaults. It has a `JsObject` class for an object that is passed by
  reference and updated in place.
- `Text` (`text.dfy`): the string operations the code chains together.
  - `toLowerCase`, `toUpperCase` and `trim`.
  - The `\s+` → `' '` rewrite.
  - `split`/`join` on one character and title-casing.
  - Decimal notation for `parseInt` and for number-to-string.
  - Reference definitions to check them against: the white-space-separated
    words of a string, and join as the inverse of split.
- `EmailParser` (`email_parser.dfy`): the parser as a pure function
  returning `Result<StudentInfo, ParseError>`. One error variant per
  `throw`, and `ErrorMessage` gives the exact message text.
  - The regular expression `^(.+?)(\d{4})([a-z]+)$` (flag `i`) is modelled
    twice. `RegexMatch` is the relation it defines. `MatchLocalPart` is a
    decomposition, which is proved sound, complete and unique against that
    relation.
  - The current year is a parameter.
- `StudentModel` (`student.dfy`): the `Student` class, with one field per
  property, and its two validators as `static` methods with loops.
  - The methods are proved against specification functions: `LoginErrors`
    for login data, and `UpdateErrors` and `Sanitize` for profile updates.
  - Each specification function is characterised by lemmas: which message
    appears, how often, in what order, when the call throws, and what
    happens to the object.
  - One lemma connects the two halves of the login flow: what the login
    handler validates after a successful parse.

Points where the code's behaviour is easy to misread, and what the model
does:

- **Name clean-up order.** The code trims first, then collapses
  white-space runs to one space. `Text.CollapseTrim` proves that this order
  gives the white-space-separated words joined by single spaces. It covers
  the code's order only.
- **Name segment.** The code's `.+?` accepts any non-empty run of
  characters other than line terminators, not only dot-separated words.
  The model follows `.+?` (`EmailParser.RegexMatch`).
- **Day scholar's hostel fields.** The code assigns `updateData.Block`
  and `updateData.Roomnumber` on the caller's own object and returns that
  same object. `ValidateProfileUpdateData` therefore modifies its
  argument.
- **Throwing.** Profile validation does more than collect errors. The
  code throws a `TypeError` when a hosteler's `Block` or `Roomnumber` is a
  truthy non-string, because it calls `trim` on it. The model returns
  `Err(TypeError)` there.
- **Field names.** The model uses the code's property names (`Rollnumber`,
  `Hosterler`, `Block`, `Roomnumber`, `Gender`).

## Model

| member | source | states |
|---|---|---|
| EmailParser.ParseFailureOrder | backend/controllers/authController.js:7-45 | the checks run in the order input, domain, format, year, department. Each error is returned exactly when every earlier check passed and its own check fails, as an if-and-only-if per error. The year error carries `currentYear + 10` |
| EmailParser.DomainCheck | backend/controllers/authController.js:11-14 | `split('@')` gives exactly two parts with `sece.ac.in` second if and only if the lower-cased address is one `@`-free local part followed by `@sece.ac.in`. The first part is then that local part |
| EmailParser.MatchSound | backend/controllers/authController.js:19-20 | what the decomposition finds satisfies the pattern: a non-empty prefix without line terminators, four digits, and a run of letters to the end |
| EmailParser.MatchComplete | backend/controllers/authController.js:19-22 | every split that satisfies the pattern is the one the decomposition finds, so the format error comes only when no split exists |
| EmailParser.MatchUnique | backend/controllers/authController.js:19-24 | the pattern splits a local part in at most one way: the department is the maximal trailing run of letters |
| EmailParser.ReplaceDots | backend/controllers/authController.js:28 | the result contains no `.` |
| EmailParser.NormalizeNameWords | backend/controllers/authController.js:27-33 | the normalised name is the title-cased white-space-separated words of the prefix with dots made spaces, joined by single spaces, in their original order and number |
| EmailParser.NormalizeNameShape | backend/controllers/authController.js:27-33 | the name has no `.`, no white space other than single inner spaces, and none at either end. It is empty exactly when the prefix has no word. When it is not empty it has as many words as the prefix, each an upper-cased first character followed by a lower-cased rest |
| EmailParser.DotsOnlyNameAccepted | backend/controllers/authController.js:27-52 | an address whose name segment is only dots is accepted, with the empty name |
| EmailParser.ParseAccepted | backend/controllers/authController.js:47-52 | an accepted address passed every check, and the result is built from the unique match of its local part |
| EmailParser.ParseSuccess | backend/controllers/authController.js:47-52 | on success the email is the lower-cased input with the institutional domain, and the year is four digits within range. The department is two to ten upper-case letters, and the name is clean text normalised from a prefix that, with that year and department, matches the local part |
| EmailParser.ParseComplete | backend/controllers/authController.js:5-53 | every address of the accepted shape, with a year and department in range, is accepted with exactly the identity its parts determine |
| EmailParser.ParseIdempotent | backend/controllers/authController.js:11-51 | parsing the returned email again, with the same current year, gives the same result |
| EmailParser.ErrorMessageInjective | backend/controllers/authController.js:8-44 | distinct errors have distinct messages, so the message tells which check failed; a year message determines the bound it names |
| EmailParser.IntToDecimalInjective | backend/controllers/authController.js:39 | different numbers print differently: the bound in the year message can be read back |
| Text.DecimalRoundTrip | backend/controllers/authController.js:37-39 | reading back the decimal notation of a number gives that number |
| Text.LowerIdempotent | backend/controllers/authController.js:11 | lower-casing a lower-cased string changes nothing |
| Text.SplitParts | backend/controllers/authController.js:11 | the parts of `split` are at least one, contain no separator, and joined with the separator give back the string |
| Text.SplitJoin | backend/controllers/authController.js:31-33 | splitting a join of separator-free words gives back the words |
| Text.CollapseTrim | backend/controllers/authController.js:29-30 | trimming and then rewriting white-space runs to one space gives the words joined by single spaces |
| Text.TrimEdgeFree | backend/controllers/authController.js:29 | the trimmed string neither begins nor ends with white space |
| Text.TitleCaseShape | backend/controllers/authController.js:32 | a title-cased word is a word whose first character is upper-cased and whose rest is lower-cased, and it keeps having no dot |
| StudentModel.Student.constructor | backend/models/Student.js:3-29 | each field holds the property of the same name. `Rollnumber`, `Hosterler`, `Block`, `Roomnumber`, `Gender` and `createdAt` default to `null` and `lastLoginTime` to the given time, exactly when the property is `undefined` |
| StudentModel.Student.ToFirestoreDocument | backend/models/Student.js:32-53 | the document always has the eleven base keys. It has `createdAt` exactly when that field is truthy, and every key holds its field's value |
| StudentModel.Student.ToApiResponse | backend/models/Student.js:147-150 | the same keys and values as the stored document |
| StudentModel.Student.ValidateLoginData | backend/models/Student.js:64-84 | running the rule list gives `LoginErrors`, and `isValid` holds exactly when there is no error |
| StudentModel.LoginErrorsMeaning | backend/models/Student.js:67-71 | at most five messages. Each rule's message is present exactly when its value fails: uid and department a non-empty string, name non-blank after trimming, email containing `@`, year exactly four digits. There is none exactly when all pass |
| StudentModel.LoginValidationsAgree | backend/models/Student.js:66-78 | evaluating the rule list in order gives the messages in the order uid, name, email, department, year |
| StudentModel.FailedMessagesBound | backend/models/Student.js:74-78 | no more messages than rules |
| StudentModel.ParsedIdentityValidation | backend/controllers/authController.js:88-94 | after a successful parse, the login validation can report only a missing uid and an empty name. The address, department and year always pass |
| StudentModel.Student.ValidateProfileUpdateData | backend/models/Student.js:87-143 | the caller's object becomes `Sanitize` of what it was, and it is returned as `sanitizedData`. The errors are `UpdateErrors` of the original object, and `isValid` holds exactly when there is none; or the call throws exactly when `UpdateErrors` does |
| StudentModel.UpdateErrorsForbidden | backend/models/Student.js:92-97 | each forbidden key the update holds adds exactly one `Field '<key>' cannot be updated`, and no other key adds one. These messages come before all others |
| StudentModel.ForbiddenFieldErrorsCount | backend/models/Student.js:93-97 | over a list of distinct keys, each present listed key is reported exactly once, and only listed present keys are reported |
| StudentModel.CannotUpdateMessageInjective | backend/models/Student.js:95 | different keys give different messages |
| StudentModel.UpdateErrorsRules | backend/models/Student.js:100-137 | the `Rollnumber`, `Hosterler` and `Gender` messages each appear once when the field is present and fails its rule, and not at all otherwise; `null` passes every rule. A hosteler's `Block` and `Roomnumber` messages each appear once when that field is missing or blank, and not at all otherwise |
| StudentModel.UpdateErrorsThrows | backend/models/Student.js:130-137 | validation throws exactly when `Hosterler` is `"Yes"` and `Block` or `Roomnumber` is a truthy non-string |
| StudentModel.UpdateErrorsBound | backend/models/Student.js:88-137 | at most eleven messages |
| StudentModel.UpdateErrorsValid | backend/models/Student.js:92-141 | there is no error exactly when no forbidden key is present, every present checked field passes, and a hosteler names a non-blank block and room |
| StudentModel.SanitizeEffect | backend/models/Student.js:124-127 | for `Hosterler` `"No"`, `Block` and `Roomnumber` become `null`, added if absent, and every other key keeps its value. Any other update is unchanged |
| StudentModel.SanitizeIdempotent | backend/models/Student.js:124-127 | sanitising twice is sanitising once |
| StudentModel.RevalidateSanitized | backend/models/Student.js:124-137 | validating the sanitised object gives the same outcome as validating the original |
| StudentModel.ExtraKeysIgnored | backend/models/Student.js:89 | `allowedFields` is never consulted. A key that is neither forbidden nor checked changes no message and passes through unchanged |
| StudentModel.ForbiddenFieldErrorsFrame | backend/models/Student.js:93-97 | the forbidden-key messages depend only on which listed keys are present |
| StudentModel.ValidLoginErrors | backend/models/Student.js:66-72 | with a valid email, department and year, only the uid and name messages can appear, in that order |
| StudentModel.Student.CheckForbiddenFields | backend/models/Student.js:92-97 | the loop over the forbidden keys pushes, in list order, one `Field '<key>' cannot be updated` per key the update holds |
| StudentModel.Student.CheckFieldRules | backend/models/Student.js:100-121 | the loop over the three field rules appends, in rule order, the message of each present field that fails its rule |
| StudentModel.Student.CheckHostelFields | backend/models/Student.js:129-137 | for a hosteler, a missing or blank `Block` and then `Roomnumber` each append their message, and a truthy non-string throws; for anyone else nothing is appended |
| StudentModel.ForbiddenFieldErrorsLocks | backend/models/Student.js:93-97 | every message of the forbidden-key loop is a `Field '…' cannot be updated` message |
| StudentModel.UpdateErrorsFrame | backend/models/Student.js:92-137 | two updates that hold the same forbidden keys and the same values for the checked fields get the same outcome |
| StudentModel.SanitizeOtherKey | backend/models/Student.js:124-127 | setting a key other than `Hosterler`, `Block` and `Roomnumber` commutes with sanitising |
| EmailParser.ParseDependsOnLowered | backend/controllers/authController.js:11-52 | two non-empty addresses that lower-case to the same string parse to the same result |
| Text.SplitAround | backend/controllers/authController.js:11 | two separator-free pieces around one separator split into exactly those two pieces |
| Text.CollapseEdgeFree | backend/controllers/authController.js:30 | on a string with no white space at either end, the `\s+` rewrite gives its words joined by single spaces |
| EmailParser.ParseStudentEmail | backend/controllers/authController.js:5-53 | the parser itself, with the current year as a parameter. `ParseFailureOrder` gives each error as an if-and-only-if. `ParseAccepted` and `ParseSuccess` describe an accepted result, `ParseComplete` gives the converse, and `ParseIdempotent` covers re-parsing |
| EmailParser.ErrorMessage | backend/controllers/authController.js:8-44 | the five thrown message texts, the year message ending in the bound. `ErrorMessageInjective` proves that the message identifies the error |
| EmailParser.HasInstitutionDomain | backend/controllers/authController.js:11-14 | exactly one `@`, followed by `sece.ac.in`. `DomainCheck` proves it equivalent to the `split('@')` test |
| EmailParser.LocalPart | backend/controllers/authController.js:16 | what precedes the `@`. `DomainCheck` proves it is the first part of `split('@')` |
| EmailParser.RegexMatch | backend/controllers/authController.js:19 | the relation `^(.+?)(\d{4})([a-z]+)$` with the `i` flag defines between a local part and its three groups: the whole string, a non-empty prefix without line terminators, four digits, and a run of letters of either case |
| EmailParser.TrailingLetters | backend/controllers/authController.js:19 | the length of the maximal run of letters at the end of the string: every character of the run is a letter, and the one before it is not |
| EmailParser.MatchLocalPart | backend/controllers/authController.js:19-20 | `localPart.match(...)` as a decomposition. `MatchSound`, `MatchComplete` and `MatchUnique` prove it finds a match exactly when `RegexMatch` has one, and that it finds the only one |
| EmailParser.NormalizeName | backend/controllers/authController.js:27-33 | the name chain, in the code's order: replace dots, trim, collapse, split, title-case, join. `NormalizeNameWords` and `NormalizeNameShape` characterise it |
| EmailParser.YearInRange | backend/controllers/authController.js:37-38 | `parseInt(year)` lies between 2000 and `currentYear + 10` inclusive |
| EmailParser.DepartmentLengthOk | backend/controllers/authController.js:43 | the department has 2 to 10 characters |
| Text.Lower | backend/controllers/authController.js:11 | `toLowerCase` on ASCII letters, character by character. `LowerIdempotent` proves lower-casing twice is lower-casing once |
| Text.Upper | backend/controllers/authController.js:50 | `toUpperCase` on ASCII letters, character by character. `ParseSuccess` proves it makes the department upper-case |
| Text.Trim | backend/controllers/authController.js:29 | `trim`: leading and trailing white space dropped. `TrimEdgeFree` and `TrimEmptyIffBlank` characterise it |
| Text.CollapseSpaces | backend/controllers/authController.js:30 | `replace(/\s+/g, ' ')`. `CollapseEdgeFree` and `CollapseTrim` relate it to `Words` |
| Text.Split | backend/controllers/authController.js:11 | `split` on one character, `[""]` for `""`. `SplitParts`, `SplitAround` and `SplitJoin` characterise it |
| Text.Join | backend/controllers/authController.js:33 | `join` with one separator character. `SplitParts` and `SplitJoin` prove it inverse to `Split` |
| Text.TitleCase | backend/controllers/authController.js:32 | `word.charAt(0).toUpperCase() + word.slice(1).toLowerCase()`. `TitleCaseShape` characterises it |
| Text.TitleCaseAll | backend/controllers/authController.js:32 | `.map` of `TitleCase` over the words, in order |
| Text.DecimalValue | backend/controllers/authController.js:37 | `parseInt` of a string of decimal digits. `DecimalRoundTrip` proves it inverse to `NatToDecimal` |
| Text.IntToDecimal | backend/controllers/authController.js:39 | `String(n)` in the year message. `IntToDecimalInjective` proves that different numbers print differently |
| Js.Truthy | backend/controllers/authController.js:7 | JavaScript truthiness of the modelled values: `undefined`, `null`, `""` and falsy non-strings are falsy |
| Js.IsNonEmptyString | backend/controllers/authController.js:7 | `val && typeof val === 'string'`, the test of the parser's input and of the uid, department and every other login rule |
| Js.Get | backend/models/Student.js:117 | a property read, with `undefined` for a missing key |
| Js.OrDefault | backend/models/Student.js:3-16 | a destructuring default, used exactly when the property is `undefined` |
| StudentModel.IsValidName | backend/models/Student.js:68 | a non-empty string that is not blank after trimming |
| StudentModel.IsValidEmail | backend/models/Student.js:69 | a non-empty string containing `@` |
| StudentModel.IsValidYear | backend/models/Student.js:71 | a string of exactly four decimal digits |
| StudentModel.LoginValidations | backend/models/Student.js:66-72 | the five rules in the source's order, each with its value, condition and message |
| StudentModel.FailedMessages | backend/models/Student.js:74-78 | the `forEach` over a rule list: each failing rule's message, in rule order. `FailedMessagesBound` and `LoginValidationsAgree` characterise it |
| StudentModel.Report | backend/models/Student.js:75-77 | one rule's contribution: its message when its condition fails, nothing otherwise |
| StudentModel.LoginErrors | backend/models/Student.js:66-78 | the reference login messages, in the order uid, name, email, department, year. `LoginErrorsMeaning` characterises it and `LoginValidationsAgree` ties it to the rule list |
| StudentModel.CannotUpdateMessage | backend/models/Student.js:95 | the message `Field '<key>' cannot be updated`. `CannotUpdateMessageInjective` proves that it identifies the key |
| StudentModel.ForbiddenFieldErrors | backend/models/Student.js:93-97 | one message per listed key the update holds, in list order. `ForbiddenFieldErrorsCount`, `ForbiddenFieldErrorsLocks` and `ForbiddenFieldErrorsFrame` characterise it |
| StudentModel.IsValidRollnumber | backend/models/Student.js:102 | `null`, or a string that is not blank after trimming |
| StudentModel.IsValidHosterler | backend/models/Student.js:106 | `null`, `"Yes"` or `"No"` |
| StudentModel.IsValidGender | backend/models/Student.js:110 | `null`, `"Male"`, `"Female"` or `"Other"` |
| StudentModel.FieldRuleErrors | backend/models/Student.js:116-121 | the message of each rule whose field is present and fails, in rule order. `UpdateErrorsRules` gives the count of each |
| StudentModel.HostelFieldCheck | backend/models/Student.js:131-135 | the test `!v`, else `v.trim().length === 0`, for one field: the message when the value is falsy or blank, a `TypeError` when it is a truthy non-string |
| StudentModel.HostelErrors | backend/models/Student.js:130-137 | for `Hosterler` `"Yes"`, the `Block` check and then the `Roomnumber` check, stopping at the first throw; nothing otherwise. `UpdateErrorsThrows` and `UpdateErrorsRules` characterise it |
| StudentModel.UpdateErrors | backend/models/Student.js:92-137 | the reference outcome of profile validation: the forbidden-key, field-rule and hosteler messages in that order, or the throw. `UpdateErrorsForbidden`, `UpdateErrorsRules`, `UpdateErrorsThrows`, `UpdateErrorsBound` and `UpdateErrorsValid` characterise it |
| StudentModel.Sanitize | backend/models/Student.js:124-127 | the caller's object after validation. `SanitizeEffect`, `SanitizeIdempotent` and `SanitizeOtherKey` characterise it |

## Left out

- The request handlers `verifyTokenAndStoreStudent`, `getStudentProfile` and `updateStudentProfile` (`authController.js:56-250`) are left out. They consist of Firebase token verification, Firestore reads and writes, server timestamps and HTTP status mapping. This is I/O against foreign services. Only their use of the parser and the login validator is stated, in `ParsedIdentityValidation`.
- The Express bootstrap (`backend/server.js`) and the route table (`backend/routes/authRoutes.js`) are left out. They hold wiring and no logic.
- `Student.fromFirestoreDocument` is left out. It passes a foreign document's `data()` to the constructor, and the constructor is modelled.
- The wall clock is not read. `new Date().getFullYear()` is the `currentYear` parameter of `ParseStudentEmail`. The `new Date()` default of `lastLoginTime` is the `now` parameter of the constructor.
- Unicode is not modelled. Case mapping covers ASCII letters only. White space is the six ASCII white-space characters. `trim` and `\s` also strip other Unicode space characters, and `toLowerCase`/`toUpperCase` also map non-ASCII letters.
- Values other than strings, `null` and `undefined` are reduced to their truthiness (`Other(truthy)`). Prototype properties and own properties named like `hasOwnProperty` are not modelled. Neither are getters.
- A thrown `Error` is modelled as its `ParseError` variant, and `ErrorMessage` gives the message text of each.
- The constructor called with no argument at all is not modelled. That call throws while destructuring.
