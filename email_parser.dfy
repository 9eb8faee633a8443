/** `parseStudentEmail`: turns an institutional address such as
    `mahaveer.k2023it@sece.ac.in` into the student's display name, year of
    enrolment and department code, or into the first of five errors. The
    current year is a parameter instead of a read of the clock. */
module EmailParser {
  import opened Js
  import opened Text

  const InstitutionDomain: string := "sece.ac.in"
  /** What an accepted lower-cased address ends with. */
  const DomainSuffix: string := "@" + InstitutionDomain
  const MinYear: int := 2000
  /** How many years past the current one an enrolment year may lie. */
  const YearSlack: int := 10
  const MinDepartmentLength: int := 2
  const MaxDepartmentLength: int := 10

  /** The five failures, in the order they are checked. */
  datatype ParseError =
    | InvalidInput
    | InvalidDomain
    | InvalidFormat
    | InvalidYear(maxYear: int)
    | InvalidDepartment

  /** The `message` of the `Error` each failure throws. */
  /** The fixed text the year message starts with; the bound follows it. */
  const YearMessagePrefix: string := "Invalid year in email. Year should be between 2000 and "

  function ErrorMessage(e: ParseError): string {
    match e
    case InvalidInput => "Email is required and must be a string"
    case InvalidDomain => "Invalid email domain. Only @sece.ac.in emails are allowed."
    case InvalidFormat => "Invalid email format. Expected format: name.year+department@sece.ac.in"
    case InvalidYear(maxYear) => YearMessagePrefix + IntToDecimal(maxYear)
    case InvalidDepartment => "Invalid department code in email"
  }

  /** The identity derived from an address. */
  datatype StudentInfo = StudentInfo(name: string, year: string, department: string, email: string)

  // ---------------------------------------------------------------------
  // The local-part pattern ^(.+?)(\d{4})([a-z]+)$ with the `i` flag

  /** The three capture groups of the pattern. */
  datatype LocalMatch = LocalMatch(namePrefix: string, year: string, department: string)

  predicate NoLineTerminator(s: string) {
    forall i :: 0 <= i < |s| ==> !IsLineTerminator(s[i])
  }

  /** The pattern matches the whole of `s` with these groups: a non-empty
      prefix of characters `.` accepts, four digits, and one or more letters
      up to the end. */
  predicate RegexMatch(s: string, m: LocalMatch) {
    && s == m.namePrefix + m.year + m.department
    && |m.namePrefix| >= 1 && NoLineTerminator(m.namePrefix)
    && |m.year| == 4 && AllDigits(m.year)
    && |m.department| >= 1 && AllLetters(m.department)
  }

  /** The length of the run of letters `s` ends with. */
  function TrailingLetters(s: string): (n: nat)
    ensures n <= |s|
    ensures forall i :: |s| - n <= i < |s| ==> IsLetter(s[i])
    ensures n == |s| || !IsLetter(s[|s| - n - 1])
  {
    if s != [] && IsLetter(s[|s| - 1]) then 1 + TrailingLetters(s[..|s| - 1]) else 0
  }

  /** `localPart.match(/^(.+?)(\d{4})([a-z]+)$/i)`, as an explicit
      decomposition: the department group can only be the whole trailing run
      of letters, since a digit precedes it; the four characters before it
      must be digits and the rest is the name prefix. */
  function MatchLocalPart(s: string): Option<LocalMatch> {
    var k := TrailingLetters(s);
    var n := |s| - k - 4;
    if k >= 1 && n >= 1 && AllDigits(s[n..n + 4]) && NoLineTerminator(s[..n]) then
      Some(LocalMatch(s[..n], s[n..n + 4], s[n + 4..]))
    else
      None
  }

  /** What the decomposition finds is a match of the pattern. */
  lemma MatchSound(s: string)
    requires MatchLocalPart(s).Some?
    ensures RegexMatch(s, MatchLocalPart(s).value)
  {
    var k := TrailingLetters(s);
    var n := |s| - k - 4;
    assert s == s[..n] + s[n..n + 4] + s[n + 4..];
  }

  /** Every match of the pattern is the one the decomposition finds; so the
      match is unique and the decomposition misses none. */
  lemma MatchComplete(s: string, m: LocalMatch)
    requires RegexMatch(s, m)
    ensures MatchLocalPart(s) == Some(m)
  {
    MatchPieces(s, m);
    DepartmentIsTrailing(s, m);
    var n := |s| - TrailingLetters(s) - 4;
    assert n == |m.namePrefix|;
    assert AllDigits(s[n..n + 4]) && NoLineTerminator(s[..n]);
  }

  /** The department group of a match is the trailing run of letters. */
  lemma DepartmentIsTrailing(s: string, m: LocalMatch)
    requires RegexMatch(s, m)
    ensures TrailingLetters(s) == |m.department|
  {
    var d := |m.department|;
    var p := |m.namePrefix|;
    MatchPieces(s, m);
    forall i | |s| - d <= i < |s| ensures IsLetter(s[i]) {
      assert s[i] == s[p + 4..][i - (p + 4)];
    }
    assert s[|s| - d - 1] == m.year[3];
    TrailingLettersOf(s, d);
  }

  /** The three groups of a match are the three slices of `s`. */
  lemma MatchPieces(s: string, m: LocalMatch)
    requires RegexMatch(s, m)
    ensures var p := |m.namePrefix|;
      && |s| == p + 4 + |m.department|
      && s[..p] == m.namePrefix && s[p..p + 4] == m.year && s[p + 4..] == m.department
  {
  }

  /** A run of `d` letters that is preceded by a non-letter, or is the
      whole string, is the trailing run of letters. */
  lemma TrailingLettersOf(s: string, d: nat)
    requires d <= |s|
    requires forall i :: |s| - d <= i < |s| ==> IsLetter(s[i])
    requires d == |s| || !IsLetter(s[|s| - d - 1])
    ensures TrailingLetters(s) == d
  {
  }

  lemma MatchUnique(s: string, m1: LocalMatch, m2: LocalMatch)
    requires RegexMatch(s, m1) && RegexMatch(s, m2)
    ensures m1 == m2
  {
    MatchComplete(s, m1);
    MatchComplete(s, m2);
  }

  // ---------------------------------------------------------------------
  // The name

  /** `.replace(/\./g, ' ')`. */
  function ReplaceDots(s: string): (r: string)
    ensures NoDot(r)
  {
    seq(|s|, i requires 0 <= i < |s| => if s[i] == '.' then ' ' else s[i])
  }

  /** Dots become spaces, the result is trimmed, white-space runs become one
      space, and each space-separated word is title-cased. */
  function NormalizeName(namePrefix: string): string {
    var cleaned := CollapseSpaces(Trim(ReplaceDots(namePrefix)));
    Join(TitleCaseAll(Split(cleaned, ' ')), ' ')
  }

  /** The normalised name is the title-cased words of the prefix (dots
      counting as white space), in order, joined by single spaces. */
  lemma NormalizeNameWords(namePrefix: string)
    ensures NormalizeName(namePrefix) == Join(TitleCaseAll(Words(ReplaceDots(namePrefix))), ' ')
  {
    var u := ReplaceDots(namePrefix);
    var ws := Words(u);
    CollapseTrim(u);
    WordsShape(u);
    if ws == [] {
      assert Split([], ' ') == [[]];
      assert TitleCaseAll([[]]) == [[]];
    } else {
      forall k | 0 <= k < |ws| ensures ' ' !in ws[k] {
        assert IsWord(ws[k]);
      }
      SplitJoin(ws, ' ');
    }
  }

  /** The normalised name has no dot, no white space but single spaces
      between words and none at either end; it is empty exactly when the
      prefix holds only dots and white space; otherwise its words are as
      many as the prefix has and each is title-cased. */
  lemma NormalizeNameShape(namePrefix: string)
    ensures IsCleanText(NormalizeName(namePrefix))
    ensures NormalizeName(namePrefix) == [] <==> Words(ReplaceDots(namePrefix)) == []
    ensures var r := NormalizeName(namePrefix);
      r != [] ==>
        && |Split(r, ' ')| == |Words(ReplaceDots(namePrefix))|
        && forall k :: 0 <= k < |Split(r, ' ')| ==> IsTitleCased(Split(r, ' ')[k])
  {
    var u := ReplaceDots(namePrefix);
    var ws := Words(u);
    var ts := TitleCaseAll(ws);
    NormalizeNameWords(namePrefix);
    WordsShape(u);
    forall k | 0 <= k < |ts| ensures IsWord(ts[k]) && NoDot(ts[k]) && IsTitleCased(ts[k]) && ' ' !in ts[k] {
      assert ws[k] in ws;
      TitleCaseShape(ws[k]);
    }
    JoinWordsShape(ts);
    if ts != [] {
      SplitJoin(ts, ' ');
    }
  }

  // ---------------------------------------------------------------------
  // The domain

  /** Exactly one `@`, followed by the institutional domain and nothing
      else. */
  predicate HasInstitutionDomain(s: string) {
    && |s| >= |DomainSuffix|
    && s[|s| - |DomainSuffix|..] == DomainSuffix
    && '@' !in s[..|s| - |DomainSuffix|]
  }

  /** What precedes the `@` of an accepted address. */
  function LocalPart(s: string): string
    requires |s| >= |DomainSuffix|
  {
    s[..|s| - |DomainSuffix|]
  }

  /** The code's test on `split('@')` accepts exactly the addresses with
      one `@` followed by the domain, and its first part is then the local
      part. */
  lemma DomainCheck(s: string)
    ensures var parts := Split(s, '@');
      (|parts| == 2 && parts[1] == InstitutionDomain) <==> HasInstitutionDomain(s)
    ensures HasInstitutionDomain(s) ==> Split(s, '@')[0] == LocalPart(s)
  {
    var parts := Split(s, '@');
    if |parts| == 2 && parts[1] == InstitutionDomain {
      DomainCheckAccepts(s);
    }
    if HasInstitutionDomain(s) {
      DomainCheckSplits(s);
    }
  }

  lemma DomainCheckAccepts(s: string)
    requires |Split(s, '@')| == 2 && Split(s, '@')[1] == InstitutionDomain
    ensures HasInstitutionDomain(s)
  {
    var local := Split(s, '@')[0];
    SplitTwo(s, '@');
    SplitParts(s, '@');
    assert '@' !in local;
    DomainSuffixShape();
    Around(local, InstitutionDomain, s);
  }

  lemma DomainCheckSplits(s: string)
    requires HasInstitutionDomain(s)
    ensures Split(s, '@') == [LocalPart(s), InstitutionDomain]
  {
    var a := LocalPart(s);
    DomainSuffixShape();
    assert s == a + s[|a|..];
    assert s == a + ['@'] + InstitutionDomain;
    SplitAround(a, InstitutionDomain, '@');
  }

  lemma DomainSuffixShape()
    ensures DomainSuffix == ['@'] + InstitutionDomain
    ensures '@' !in InstitutionDomain
  {
  }

  /** The two sides of an address whose local part is `local`. */
  lemma Around(local: string, domain: string, s: string)
    requires s == local + ['@'] + domain
    ensures |s| >= |domain| + 1
    ensures s[..|s| - (|domain| + 1)] == local
    ensures s[|s| - (|domain| + 1)..] == ['@'] + domain
  {
  }

  // ---------------------------------------------------------------------
  // The parser

  predicate YearInRange(year: string, currentYear: int) {
    MinYear <= DecimalValue(year) <= currentYear + YearSlack
  }

  predicate DepartmentLengthOk(department: string) {
    MinDepartmentLength <= |department| <= MaxDepartmentLength
  }

  /** `parseStudentEmail(email)` with `new Date().getFullYear()` given as
      `currentYear`. */
  function ParseStudentEmail(email: Value, currentYear: int): Result<StudentInfo, ParseError> {
    if !IsNonEmptyString(email) then Err(InvalidInput)
    else
      var emailParts := Split(Lower(email.s), '@');
      if |emailParts| != 2 || emailParts[1] != InstitutionDomain then Err(InvalidDomain)
      else
        match MatchLocalPart(emailParts[0])
        case None => Err(InvalidFormat)
        case Some(m) =>
          var name := NormalizeName(m.namePrefix);
          var yearNum := DecimalValue(m.year);
          if yearNum < MinYear || yearNum > currentYear + YearSlack then Err(InvalidYear(currentYear + YearSlack))
          else if |m.department| < MinDepartmentLength || |m.department| > MaxDepartmentLength then Err(InvalidDepartment)
          else Ok(StudentInfo(name, m.year, Upper(m.department), Lower(email.s)))
  }

  /** The checks run in a fixed order (input, domain, format, year,
      department) and the first that fails decides the error. */
  lemma ParseFailureOrder(email: Value, currentYear: int)
    ensures var r := ParseStudentEmail(email, currentYear);
      && (r == Err(InvalidInput) <==> !IsNonEmptyString(email))
      && (r == Err(InvalidDomain) <==>
            IsNonEmptyString(email) && !HasInstitutionDomain(Lower(email.s)))
      && (r == Err(InvalidFormat) <==>
            && IsNonEmptyString(email) && HasInstitutionDomain(Lower(email.s))
            && !exists m :: RegexMatch(LocalPart(Lower(email.s)), m))
      && (r == Err(InvalidYear(currentYear + YearSlack)) <==>
            && IsNonEmptyString(email) && HasInstitutionDomain(Lower(email.s))
            && exists m :: RegexMatch(LocalPart(Lower(email.s)), m) && !YearInRange(m.year, currentYear))
      && (r == Err(InvalidDepartment) <==>
            && IsNonEmptyString(email) && HasInstitutionDomain(Lower(email.s))
            && exists m :: RegexMatch(LocalPart(Lower(email.s)), m) && YearInRange(m.year, currentYear)
                             && !DepartmentLengthOk(m.department))
      && (r.Err? ==> r.error.InvalidYear? ==> r.error.maxYear == currentYear + YearSlack)
  {
    if IsNonEmptyString(email) {
      var s := Lower(email.s);
      DomainCheck(s);
      if HasInstitutionDomain(s) {
        var local := LocalPart(s);
        forall m | RegexMatch(local, m) ensures MatchLocalPart(local) == Some(m) {
          MatchComplete(local, m);
        }
        if MatchLocalPart(local).Some? {
          MatchSound(local);
        }
      }
    }
  }

  /** Lower-cased department letters come back from upper-casing. */
  lemma LowerUpper(d: string)
    requires forall i :: 0 <= i < |d| ==> !IsUpperLetter(d[i])
    ensures Lower(Upper(d)) == d
  {
  }

  /** The checks an accepted address passed, and the identity built from
      the unique match of its local part. */
  lemma ParseAccepted(email: Value, currentYear: int)
    requires ParseStudentEmail(email, currentYear).Ok?
    ensures IsNonEmptyString(email) && HasInstitutionDomain(Lower(email.s))
    ensures var m := MatchLocalPart(LocalPart(Lower(email.s)));
      && m.Some?
      && YearInRange(m.value.year, currentYear)
      && DepartmentLengthOk(m.value.department)
      && ParseStudentEmail(email, currentYear).value
         == StudentInfo(NormalizeName(m.value.namePrefix), m.value.year, Upper(m.value.department), Lower(email.s))
  {
    DomainCheck(Lower(email.s));
  }

  /** What an accepted address yields: the lower-cased address, which has
      the institutional domain; a local part that the pattern splits into a
      prefix, the returned four-digit year and the department code; a year in
      range; a department of two to ten letters, upper-cased; and the
      normalised prefix as the name. */
  lemma ParseSuccess(email: Value, currentYear: int)
    requires ParseStudentEmail(email, currentYear).Ok?
    ensures var info := ParseStudentEmail(email, currentYear).value;
      && email.Str?
      && info.email == Lower(email.s)
      && HasInstitutionDomain(info.email)
      && |info.year| == 4 && AllDigits(info.year)
      && YearInRange(info.year, currentYear)
      && DepartmentLengthOk(info.department)
      && (forall i :: 0 <= i < |info.department| ==> IsUpperLetter(info.department[i]))
      && IsCleanText(info.name)
      && exists prefix ::
           && RegexMatch(LocalPart(info.email), LocalMatch(prefix, info.year, Lower(info.department)))
           && info.name == NormalizeName(prefix)
  {
    ParseAccepted(email, currentYear);
    var s := Lower(email.s);
    var local := LocalPart(s);
    MatchSound(local);
    var m := MatchLocalPart(local).value;
    NormalizeNameShape(m.namePrefix);
    LowerHasNoUpper(email.s);
    DepartmentRoundTrip(s, m);
  }

  /** Lower-casing leaves no upper-case letter. */
  lemma LowerHasNoUpper(t: string)
    ensures forall i :: 0 <= i < |Lower(t)| ==> !IsUpperLetter(Lower(t)[i])
  {
    forall i | 0 <= i < |t| ensures !IsUpperLetter(Lower(t)[i]) {
      LowerCharShape(t[i]);
    }
  }

  /** The department group of a lower-case address is lower-case
      letters, so upper-casing it gives letters that lower-case back to
      it. */
  lemma DepartmentRoundTrip(s: string, m: LocalMatch)
    requires HasInstitutionDomain(s)
    requires forall i :: 0 <= i < |s| ==> !IsUpperLetter(s[i])
    requires RegexMatch(LocalPart(s), m)
    ensures forall i :: 0 <= i < |Upper(m.department)| ==> IsUpperLetter(Upper(m.department)[i])
    ensures RegexMatch(LocalPart(s), LocalMatch(m.namePrefix, m.year, Lower(Upper(m.department))))
  {
    var local := LocalPart(s);
    forall i | 0 <= i < |m.department| ensures IsLowerLetter(m.department[i]) {
      var j := |local| - |m.department| + i;
      assert m.department[i] == local[j] == s[j];
    }
    LowerUpper(m.department);
  }

  /** Conversely, every address of the accepted shape is accepted, with the
      identity its parts determine. */
  lemma ParseComplete(email: Value, currentYear: int, m: LocalMatch)
    requires IsNonEmptyString(email)
    requires Lower(email.s) == m.namePrefix + m.year + m.department + DomainSuffix
    requires '@' !in m.namePrefix + m.year + m.department
    requires RegexMatch(m.namePrefix + m.year + m.department, m)
    requires YearInRange(m.year, currentYear) && DepartmentLengthOk(m.department)
    ensures ParseStudentEmail(email, currentYear)
         == Ok(StudentInfo(NormalizeName(m.namePrefix), m.year, Upper(m.department), Lower(email.s)))
  {
    var s := Lower(email.s);
    var local := m.namePrefix + m.year + m.department;
    assert s[..|s| - |DomainSuffix|] == local;
    assert s[|s| - |DomainSuffix|..] == DomainSuffix;
    DomainCheck(s);
    MatchComplete(local, m);
  }

  /** A name part made only of dots normalises to the empty name, and the
      parser accepts the address all the same. */
  lemma DotsOnlyNameAccepted(email: Value, currentYear: int, m: LocalMatch)
    requires IsNonEmptyString(email)
    requires Lower(email.s) == m.namePrefix + m.year + m.department + DomainSuffix
    requires '@' !in m.namePrefix + m.year + m.department
    requires RegexMatch(m.namePrefix + m.year + m.department, m)
    requires YearInRange(m.year, currentYear) && DepartmentLengthOk(m.department)
    requires forall i :: 0 <= i < |m.namePrefix| ==> m.namePrefix[i] == '.'
    ensures ParseStudentEmail(email, currentYear) == Ok(StudentInfo("", m.year, Upper(m.department), Lower(email.s)))
  {
    ParseComplete(email, currentYear, m);
    TrimStartBlank(ReplaceDots(m.namePrefix));
    NormalizeNameShape(m.namePrefix);
  }

  /** Parsing the address an accepted parse returns gives the same
      identity again. */
  lemma ParseIdempotent(email: Value, currentYear: int)
    requires ParseStudentEmail(email, currentYear).Ok?
    ensures var info := ParseStudentEmail(email, currentYear).value;
      ParseStudentEmail(Str(info.email), currentYear) == Ok(info)
  {
    var lowered := Str(Lower(email.s));
    LowerIdempotent(email.s);
    assert |Lower(email.s)| == |email.s|;
    ParseDependsOnLowered(email, lowered, currentYear);
  }

  /** Only the lower-cased address matters to a parse. */
  lemma ParseDependsOnLowered(e1: Value, e2: Value, currentYear: int)
    requires IsNonEmptyString(e1) && IsNonEmptyString(e2) && Lower(e1.s) == Lower(e2.s)
    ensures ParseStudentEmail(e1, currentYear) == ParseStudentEmail(e2, currentYear)
  {
  }

  /** Two failures of the same stage carry the same message only when
      they are the same failure: in particular the year message determines
      the bound it names. */
  lemma ErrorMessageInjective(e1: ParseError, e2: ParseError)
    requires ErrorMessage(e1) == ErrorMessage(e2)
    ensures e1 == e2
  {
    if e1.InvalidYear? && e2.InvalidYear? {
      YearMessageInjective(e1.maxYear, e2.maxYear);
    } else if e1.InvalidYear? {
      YearMessageIsNoOther(e1.maxYear, e2);
    } else if e2.InvalidYear? {
      YearMessageIsNoOther(e2.maxYear, e1);
    } else if e1 != e2 {
      OtherMessagesDiffer(e1, e2);
    }
  }

  /** A year message differs from each fixed message. */
  lemma YearMessageIsNoOther(maxYear: int, e: ParseError)
    requires !e.InvalidYear?
    ensures ErrorMessage(InvalidYear(maxYear)) != ErrorMessage(e)
  {
    YearMessageEnd(maxYear);
    OtherMessageShape(e);
  }

  /** Two different fixed messages differ. */
  lemma OtherMessagesDiffer(e1: ParseError, e2: ParseError)
    requires !e1.InvalidYear? && !e2.InvalidYear? && e1 != e2
    ensures ErrorMessage(e1) != ErrorMessage(e2)
  {
    OtherMessageShape(e1);
    OtherMessageShape(e2);
  }

  /** The four fixed messages end in four different characters, none of
      them a digit. */
  lemma OtherMessageShape(e: ParseError)
    requires !e.InvalidYear?
    ensures ErrorMessage(e) != []
    ensures ErrorMessage(e)[|ErrorMessage(e)| - 1] == match e
      case InvalidInput => 'g'
      case InvalidDomain => '.'
      case InvalidFormat => 'n'
      case _ => 'l'
  {
  }

  /** A year message ends in the last digit of its bound. */
  lemma YearMessageEnd(maxYear: int)
    ensures var m := ErrorMessage(InvalidYear(maxYear)); m != [] && IsDigit(m[|m| - 1])
  {
    YearMessageParts(maxYear);
    var d := NatToDecimal(if maxYear < 0 then -maxYear else maxYear);
    assert IntToDecimal(maxYear)[|IntToDecimal(maxYear)| - 1] == d[|d| - 1];
  }

  /** The year message is a fixed prefix followed by the bound. */
  lemma YearMessageParts(maxYear: int)
    ensures ErrorMessage(InvalidYear(maxYear)) == YearMessagePrefix + IntToDecimal(maxYear)
  {
  }

  /** Two year messages are equal only for the same bound. */
  lemma YearMessageInjective(a: int, b: int)
    requires ErrorMessage(InvalidYear(a)) == ErrorMessage(InvalidYear(b))
    ensures a == b
  {
    YearMessageParts(a);
    YearMessageParts(b);
    var m := ErrorMessage(InvalidYear(a));
    assert m[|YearMessagePrefix|..] == IntToDecimal(a);
    assert m[|YearMessagePrefix|..] == IntToDecimal(b);
    IntToDecimalInjective(a, b);
  }

  lemma IntToDecimalInjective(a: int, b: int)
    requires IntToDecimal(a) == IntToDecimal(b)
    ensures a == b
  {
    var sa, sb := IntToDecimal(a), IntToDecimal(b);
    assert (sa[0] == '-') == (a < 0);
    assert (sb[0] == '-') == (b < 0);
    if a < 0 {
      assert NatToDecimal(-a) == sa[1..];
      assert NatToDecimal(-b) == sb[1..];
      DecimalRoundTrip(-a);
      DecimalRoundTrip(-b);
    } else {
      DecimalRoundTrip(a);
      DecimalRoundTrip(b);
    }
  }
}
