/**
 * The validator of the business layer: stateless checks on inbound student
 * data. Each one either passes or fails with a ValidationError carrying a
 * fixed message; `ValidateId` also returns the number it parsed.
 */
module StudentValidator {
  import opened Wrappers
  import opened Errors
  import opened JsText
  import opened Students

  /** JavaScript truthiness of a string field: present and not empty. */
  predicate Truthy(v: Option<string>) {
    v.Some? && v.value != ""
  }

  /**
   * Presence check for a create or full update. A missing body (`null` or
   * `undefined`) counts as a body with no fields.
   */
  function ValidateStudentData(data: Option<StudentData>): (r: Outcome<Error>)
    ensures r.Pass? <==>
      && data.Some?
      && data.value.studentCode.Some? && data.value.studentCode.value != []
      && data.value.firstName.Some? && data.value.firstName.value != []
      && data.value.lastName.Some? && data.value.lastName.value != []
      && data.value.email.Some? && data.value.email.value != []
      && data.value.major.Some? && data.value.major.value != []
    ensures r.Fail? ==> r.error == ValidationError(AllFieldsRequired)
  {
    var d := match data case Some(d) => d case None => StudentData(None, None, None, None, None);
    if !Truthy(d.studentCode) || !Truthy(d.firstName) || !Truthy(d.lastName) || !Truthy(d.email) || !Truthy(d.major)
    then Fail(ValidationError(AllFieldsRequired))
    else Pass
  }

  // ----- /^\d{10}$/ -----

  /** Runs the pattern `\d{k}$` on `s`: exactly `k` ASCII digits and then the end of the input. */
  function MatchDigits(s: string, k: nat): bool {
    if k == 0 then s == []
    else s != [] && IsAsciiDigit(s[0]) && MatchDigits(s[1..], k - 1)
  }

  /** The digits pattern matches exactly the strings of `k` ASCII digits. */
  lemma {:induction false} MatchDigitsMeaning(s: string, k: nat)
    ensures MatchDigits(s, k) <==> |s| == k && forall i :: 0 <= i < |s| ==> '0' <= s[i] <= '9'
  {
    if k > 0 && s != [] {
      MatchDigitsMeaning(s[1..], k - 1);
      if |s| == k && forall i :: 0 <= i < |s| ==> '0' <= s[i] <= '9' {
        assert forall i :: 0 <= i < |s[1..]| ==> s[1..][i] == s[i + 1];
      }
    }
  }

  /** The student code is exactly ten ASCII digits ("6754321004"). */
  function ValidateStudentCode(code: string): (r: Outcome<Error>)
    ensures r.Pass? <==> |code| == 10 && forall i :: 0 <= i < |code| ==> '0' <= code[i] <= '9'
    ensures r.Fail? ==> r.error == ValidationError(InvalidCodeFormat)
  {
    MatchDigitsMeaning(code, 10);
    if MatchDigits(code, 10) then Pass else Fail(ValidationError(InvalidCodeFormat))
  }

  // ----- /^[^\s@]+@[^\s@]+\.[^\s@]+$/ -----

  /** The character class `[^\s@]`. */
  predicate InEmailClass(c: char) {
    !IsWhitespace(c) && c != '@'
  }

  /** Every character of `s[lo..hi]` is in `[^\s@]`. */
  predicate ClassRun(s: string, lo: int, hi: int)
    requires 0 <= lo <= hi <= |s|
  {
    forall i :: lo <= i < hi ==> InEmailClass(s[i])
  }

  /**
   * A match of the email pattern: a non-empty run of `[^\s@]`, the `@` at
   * `at`, a non-empty run, the `.` at `dot`, a non-empty run, and the end.
   */
  predicate MatchesEmailAt(s: string, at: int, dot: int) {
    && 0 < at && at + 1 < dot < |s| - 1
    && s[at] == '@' && s[dot] == '.'
    && ClassRun(s, 0, at) && ClassRun(s, at + 1, dot) && ClassRun(s, dot + 1, |s|)
  }

  /** The email pattern matches `s` for some choice of the `@` and the `.`. */
  predicate MatchesEmailPattern(s: string) {
    exists at, dot | 0 < at && at + 1 < dot < |s| - 1 :: MatchesEmailAt(s, at, dot)
  }

  /**
   * The shape the pattern stands for: no whitespace anywhere, exactly one
   * `@`, something before it, and a `.` after it that is neither the first
   * nor the last character of the domain.
   */
  predicate WellShapedEmail(s: string) {
    && (forall i :: 0 <= i < |s| ==> !IsWhitespace(s[i]))
    && exists at | 0 < at < |s| ::
         && s[at] == '@'
         && (forall j :: 0 <= j < |s| && j != at ==> s[j] != '@')
         && exists dot | at + 1 < dot < |s| - 1 :: s[dot] == '.'
  }

  /** The pattern and the shape describe the same strings. */
  lemma EmailPatternMeaning(s: string)
    ensures MatchesEmailPattern(s) <==> WellShapedEmail(s)
  {
    if MatchesEmailPattern(s) {
      var at, dot :| 0 < at && at + 1 < dot < |s| - 1 && MatchesEmailAt(s, at, dot);
      forall i | 0 <= i < |s| ensures !IsWhitespace(s[i]) && (i != at ==> s[i] != '@') {
        if i < at { assert InEmailClass(s[i]); }
        else if at < i < dot { assert InEmailClass(s[i]); }
        else if dot < i { assert InEmailClass(s[i]); }
      }
      assert s[dot] == '.';
    }
    if WellShapedEmail(s) {
      var at :| 0 < at < |s| && s[at] == '@' && (forall j :: 0 <= j < |s| && j != at ==> s[j] != '@')
                && exists dot | at + 1 < dot < |s| - 1 :: s[dot] == '.';
      var dot :| at + 1 < dot < |s| - 1 && s[dot] == '.';
      assert forall i :: 0 <= i < |s| && i != at ==> InEmailClass(s[i]);
      assert MatchesEmailAt(s, at, dot);
    }
  }

  /** The email has the shape `local@domain.tld`, as `WellShapedEmail` spells out. */
  function ValidateEmail(email: string): (r: Outcome<Error>)
    ensures r.Pass? <==> WellShapedEmail(email)
    ensures r.Fail? ==> r.error == ValidationError(InvalidEmailFormat)
  {
    EmailPatternMeaning(email);
    if MatchesEmailPattern(email) then Pass else Fail(ValidationError(InvalidEmailFormat))
  }

  // ----- enumerations and ranges -----

  const ValidMajors: seq<string> := ["CS", "SE", "IT", "CE", "DS"]

  /** The major is one of the five programmes, with exact case; a missing major fails. */
  function ValidateMajor(major: Option<string>): (r: Outcome<Error>)
    ensures r.Pass? <==>
      major == Some("CS") || major == Some("SE") || major == Some("IT") || major == Some("CE") || major == Some("DS")
    ensures r.Fail? ==> r.error == ValidationError(InvalidMajor)
  {
    if major.Some? && major.value in ValidMajors then Pass else Fail(ValidationError(InvalidMajor))
  }

  /** The GPA is present and lies in [0.0, 4.0], both ends included. */
  function ValidateGpa(gpa: Option<real>): (r: Outcome<Error>)
    ensures r.Pass? <==> gpa.Some? && 0.0 <= gpa.value <= 4.0
    ensures r.Fail? ==> r.error == ValidationError(GpaOutOfRange)
  {
    if gpa.None? || gpa.value < 0.0 || gpa.value > 4.0 then Fail(ValidationError(GpaOutOfRange)) else Pass
  }

  /** The status is one of the four lifecycle states, with exact case; a missing status fails. */
  function ValidateStatus(status: Option<string>): (r: Outcome<Error>)
    ensures r.Pass? <==>
      status == Some("active") || status == Some("graduated") || status == Some("suspended") || status == Some("withdrawn")
    ensures r.Fail? ==> r.error == ValidationError(InvalidStatus)
  {
    if status.Some? && KnownStatus(status.value) then Pass else Fail(ValidationError(InvalidStatus))
  }

  /**
   * The id text parses, the way `parseInt` reads it, to a positive integer,
   * which is returned.
   */
  function ValidateId(id: string): (r: Result<int, Error>)
    ensures r.Ok? ==> r.value >= 1 && ParseInt(id) == Some(r.value)
    ensures r.Err? <==> ParseInt(id).None? || ParseInt(id).value <= 0
    ensures r.Err? ==> r.error == ValidationError(InvalidStudentId)
  {
    match ParseInt(id)
    case None => Err(ValidationError(InvalidStudentId))
    case Some(n) => if n <= 0 then Err(ValidationError(InvalidStudentId)) else Ok(n)
  }

  /** Every positive id written in decimal, with any leading whitespace and trailing non-digits, is accepted as itself. */
  lemma ValidateIdOfDecimal(w: string, n: nat, t: string)
    requires n >= 1
    requires forall i :: 0 <= i < |w| ==> IsWhitespace(w[i])
    requires t == [] || !IsAsciiDigit(t[0])
    ensures ValidateId(w + Decimal(n) + t) == Ok(n)
  {
    ParseIntOfDecimal(w, n, t);
  }

  /** An id whose first character after the whitespace and the sign is missing or not a decimal digit is refused. */
  lemma ValidateIdNoLeadingDigit(id: string)
    requires UnsignedPart(id) == [] || !IsAsciiDigit(UnsignedPart(id)[0])
    ensures ValidateId(id) == Err(ValidationError(InvalidStudentId))
  {
    ParseIntNaN(id);
  }

  /** A filter on major: nothing to check when it is absent, otherwise the major check. */
  function ValidateMajorIfProvided(major: Option<string>): (r: Outcome<Error>)
    ensures major.None? ==> r.Pass?
    ensures major.Some? ==> r == ValidateMajor(major)
  {
    if major.Some? then ValidateMajor(major) else Pass
  }

  /** A filter on status: nothing to check when it is absent, otherwise the status check. */
  function ValidateStatusIfProvided(status: Option<string>): (r: Outcome<Error>)
    ensures status.None? ==> r.Pass?
    ensures status.Some? ==> r == ValidateStatus(status)
  {
    if status.Some? then ValidateStatus(status) else Pass
  }

  /** Sample student codes: one valid, one nine digits long, one with a letter. */
  lemma StudentCodeExamples()
    ensures ValidateStudentCode("6754321004").Pass?
    ensures ValidateStudentCode("675432100").Fail?
    ensures ValidateStudentCode("67A4321004").Fail?
  {
    assert "67A4321004"[2] == 'A';
  }

  /** A decimal id with trailing text is read up to the first non-digit. */
  lemma ValidateIdTrailingText()
    ensures ValidateId(" 7abc") == Ok(7)
  {
    assert Decimal(7) == "7";
    assert " " + Decimal(7) + "abc" == " 7abc";
    ValidateIdOfDecimal(" ", 7, "abc");
  }

  /** The hexadecimal prefix is honoured: "0x1A" is 26. */
  lemma ValidateIdHex()
    ensures ValidateId("0x1A") == Ok(26)
  {
    var s := "0x1A";
    assert !IsWhitespace(s[0]) && TrimStart(s) == s;
    assert s[2..] == "1A" && "1A"[1..] == "A" && "A"[1..] == [];
    assert DigitRun("A", 16) == 1;
    assert DigitRun("1A", 16) == 2;
    assert "1A"[..2] == "1A" && "1A"[..1] == "1" && "1"[..0] == [];
    assert NumeralValue("1", 16) == 1;
    assert NumeralValue("1A", 16) == 26;
    assert ParseUnsigned(s) == Some(26);
  }

  /** Zero is refused: it parses, but is not positive. */
  lemma ValidateIdZero()
    ensures ValidateId("0").Err?
  {
    assert !IsWhitespace('0') && TrimStart("0") == "0";
    assert "0"[1..] == [] && DigitRun("0", 10) == 1 && "0"[..1] == "0" && "0"[..0] == [];
    assert ParseUnsigned("0") == Some(0);
  }

  /** A negative id is refused. */
  lemma ValidateIdNegative()
    ensures ValidateId("-5").Err?
  {
    assert !IsWhitespace('-') && TrimStart("-5") == "-5";
    assert "-5"[1..] == "5" && "5"[1..] == [] && DigitRun("5", 10) == 1 && "5"[..1] == "5" && "5"[..0] == [];
    assert ParseUnsigned("5") == Some(5);
  }

  /** Text without a leading digit is refused (parseInt gives NaN). */
  lemma ValidateIdNotANumber()
    ensures ValidateId("abc").Err? && ValidateId("").Err?
  {
    assert !IsWhitespace('a') && TrimStart("abc") == "abc";
    assert DigitRun("abc", 10) == 0;
  }
}
