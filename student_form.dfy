/**
 * The student form: its field map, the validator that builds the error map field by
 * field, the change handler that edits one field and clears that field's error, and
 * the department code to full name lookup.
 */
module StudentForm {
  import opened Wrappers
  import opened JsBuiltins

  /** The form's inputs, by their `name` attribute. */
  datatype Field =
    | Name | Email | Phone | Department | Semester | Section
    | AcademicYear | StudentId | DateOfBirth | Address

  /** `formData`: every field holds the text of its input. */
  type Form = map<Field, string>

  /** `errors` / `newErrors`: a message per field; '' means cleared. */
  type Errors = map<Field, string>

  predicate Complete(form: Form)
  {
    Name in form && Email in form && Phone in form && Department in form && Semester in form &&
    Section in form && AcademicYear in form && StudentId in form && DateOfBirth in form && Address in form
  }

  const NameRequired := "Name is required"
  const EmailRequired := "Email is required"
  const AcademicYearFormat := "Academic year must be in format: YYYY-YYYY"
  const EmailFormat := "Invalid email format"
  const PhoneFormat := "Phone must be 10 digits"

  /** `!s.trim()`. */
  predicate IsBlank(s: string)
  {
    Trim(s) == ""
  }

  /** `/^\d{4}-\d{4}$/`: four digits, a hyphen, four digits, and nothing else. */
  predicate AcademicYearPattern(s: string)
  {
    |s| == 9 && s[4] == '-' &&
    (forall i :: 0 <= i < 4 ==> IsDecimalDigit(s[i])) &&
    (forall i :: 5 <= i < 9 ==> IsDecimalDigit(s[i]))
  }

  /** `/^\d{10}$/`: exactly ten digits. */
  predicate PhonePattern(s: string)
  {
    |s| == 10 && forall i :: 0 <= i < 10 ==> IsDecimalDigit(s[i])
  }

  /** The class `[^\s@]`. */
  predicate IsLocalChar(c: char)
  {
    !IsWhitespace(c) && c != '@'
  }

  /** `[^\s@]+` matches all of `s[lo..hi]`. */
  predicate RunOfLocalChars(s: string, lo: int, hi: int)
    requires 0 <= lo <= hi <= |s|
  {
    lo < hi && forall i :: lo <= i < hi ==> IsLocalChar(s[i])
  }

  /** `/^[^\s@]+@[^\s@]+\.[^\s@]+$/`: the string splits as run '@' run '.' run, with the
      '@' at index `at` and the '.' at index `dot`. */
  predicate EmailPattern(s: string)
  {
    exists at, dot | 0 <= at < dot < |s| ::
      s[at] == '@' && s[dot] == '.' &&
      RunOfLocalChars(s, 0, at) && RunOfLocalChars(s, at + 1, dot) && RunOfLocalChars(s, dot + 1, |s|)
  }

  /** The same language described by its shape: no whitespace, exactly one '@' and not
      first, and a '.' after it that is neither right after the '@' nor last. */
  predicate EmailShape(s: string)
  {
    (forall i :: 0 <= i < |s| ==> !IsWhitespace(s[i])) &&
    exists at | 0 < at < |s| ::
      s[at] == '@' &&
      (forall i :: 0 <= i < |s| && i != at ==> s[i] != '@') &&
      exists dot | at + 1 < dot < |s| - 1 :: s[dot] == '.'
  }

  lemma EmailPatternIffShape(s: string)
    ensures EmailPattern(s) <==> EmailShape(s)
  {
    if EmailPattern(s) {
      var at, dot :| 0 <= at < dot < |s| && s[at] == '@' && s[dot] == '.' &&
        RunOfLocalChars(s, 0, at) && RunOfLocalChars(s, at + 1, dot) && RunOfLocalChars(s, dot + 1, |s|);
      assert forall i :: 0 <= i < |s| && i != at && i != dot ==> IsLocalChar(s[i]);
    }
    if EmailShape(s) {
      var at :| 0 < at < |s| && s[at] == '@' &&
        (forall i :: 0 <= i < |s| && i != at ==> s[i] != '@') &&
        exists dot | at + 1 < dot < |s| - 1 :: s[dot] == '.';
      var dot :| at + 1 < dot < |s| - 1 && s[dot] == '.';
      assert RunOfLocalChars(s, 0, at) && RunOfLocalChars(s, at + 1, dot) && RunOfLocalChars(s, dot + 1, |s|);
    }
  }

  /** A string the email pattern accepts is never blank. */
  lemma EmailPatternNotBlank(s: string)
    requires EmailPattern(s)
    ensures !IsBlank(s)
  {
    var at, dot :| 0 <= at < dot < |s| && s[at] == '@' && s[dot] == '.' &&
      RunOfLocalChars(s, 0, at) && RunOfLocalChars(s, at + 1, dot) && RunOfLocalChars(s, dot + 1, |s|);
    assert !IsWhitespace(s[at]);
    TrimEmptyIffAllWhitespace(s);
  }

  /** The form passes `validate` exactly when all four checks pass. */
  predicate FormValid(form: Form)
    requires Complete(form)
  {
    !IsBlank(form[Name]) &&
    EmailPattern(form[Email]) &&
    AcademicYearPattern(form[AcademicYear]) &&
    (form[Phone] == "" || PhonePattern(form[Phone]))
  }

  /** The outcome of each test `validate` runs. */
  datatype CheckOutcome = CheckOutcome(
    nameBlank: bool, emailBlank: bool, emailEmpty: bool, emailMatches: bool,
    yearMatches: bool, phoneEmpty: bool, phoneMatches: bool)

  /** The tests run on a form: `!name.trim()`, `!email.trim()`, `email` being falsy, the
      email pattern, the academic-year pattern, `phone` being falsy, the phone pattern. */
  function Outcome(form: Form): CheckOutcome
    requires Complete(form)
  {
    CheckOutcome(IsBlank(form[Name]), IsBlank(form[Email]), form[Email] == "", EmailPattern(form[Email]),
                 AcademicYearPattern(form[AcademicYear]), form[Phone] == "", PhonePattern(form[Phone]))
  }

  /** An empty email is blank, and an email the pattern accepts is not. */
  lemma OutcomeConsistent(form: Form)
    requires Complete(form)
    ensures Outcome(form).emailEmpty ==> Outcome(form).emailBlank
    ensures Outcome(form).emailMatches ==> !Outcome(form).emailBlank
  {
    var email := form[Email];
    if EmailPattern(email) {
      EmailPatternNotBlank(email);
    }
    TrimEmptyIffAllWhitespace(email);
  }

  /** The error map `validate` leaves, given the outcome of each test: only the four
      checked fields ever get an error; the email error fires exactly when the email does
      not match the pattern, and says "required" only for an empty email, since the
      format message overwrites it. */
  predicate ErrorsMatch(errors: Errors, c: CheckOutcome)
  {
    errors.Keys <= {Name, Email, AcademicYear, Phone} &&
    (Name in errors <==> c.nameBlank) &&
    (Name in errors ==> errors[Name] == NameRequired) &&
    (Email in errors <==> !c.emailMatches) &&
    (Email in errors ==> errors[Email] == if c.emailEmpty then EmailRequired else EmailFormat) &&
    (AcademicYear in errors <==> !c.yearMatches) &&
    (AcademicYear in errors ==> errors[AcademicYear] == AcademicYearFormat) &&
    (Phone in errors <==> !c.phoneEmpty && !c.phoneMatches) &&
    (Phone in errors ==> errors[Phone] == PhoneFormat)
  }

  /** What `validate` puts in `newErrors` for a given form. */
  predicate ErrorsFor(form: Form, errors: Errors)
    requires Complete(form)
  {
    ErrorsMatch(errors, Outcome(form))
  }

  /** An error map of that description is empty exactly when every test passes. */
  lemma ErrorsMatchEmptyIff(errors: Errors, c: CheckOutcome)
    requires ErrorsMatch(errors, c)
    ensures |errors| == 0 <==> !c.nameBlank && c.emailMatches && c.yearMatches && (c.phoneEmpty || c.phoneMatches)
  {
    if |errors| != 0 {
      var f :| f in errors;
    }
  }

  /** An error map of that description is empty exactly when the form is valid. */
  lemma ErrorsEmptyIffValid(form: Form, errors: Errors)
    requires Complete(form) && ErrorsFor(form, errors)
    ensures |errors| == 0 <==> FormValid(form)
  {
    ErrorsMatchEmptyIff(errors, Outcome(form));
  }

  /** The writes `validate` makes into `newErrors`, in its order, given the outcome of
      each test; a later write may overwrite an earlier one's message for the same field. */
  method WriteErrors(c: CheckOutcome) returns (newErrors: Errors)
    requires c.emailEmpty ==> c.emailBlank
    requires c.emailMatches ==> !c.emailBlank
    ensures ErrorsMatch(newErrors, c)
  {
    newErrors := map[];
    if c.nameBlank {
      newErrors := newErrors[Name := NameRequired];
    }
    if c.emailBlank {
      newErrors := newErrors[Email := EmailRequired];
    }
    if !c.yearMatches {
      newErrors := newErrors[AcademicYear := AcademicYearFormat];
    }
    if !c.emailEmpty && !c.emailMatches {
      newErrors := newErrors[Email := EmailFormat];
    }
    if !c.phoneEmpty && !c.phoneMatches {
      newErrors := newErrors[Phone := PhoneFormat];
    }
  }

  /** The body of `validate` up to `setErrors`: the tests are run on the form, and the
      error map is written from their outcomes. */
  method CollectErrors(form: Form) returns (newErrors: Errors)
    requires Complete(form)
    ensures ErrorsFor(form, newErrors)
  {
    var outcome := Outcome(form);
    OutcomeConsistent(form);
    newErrors := WriteErrors(outcome);
  }

  /** Whether an input shows its error text: `errors[f] && <span>...`. */
  predicate ShowsError(errors: Errors, f: Field)
  {
    f in errors && errors[f] != ""
  }

  /** The error map after `handleChange` on field `f`: an error `f` had is set to ''
      and every other field's error is left as it was. */
  function ClearedError(errors: Errors, f: Field): (r: Errors)
    ensures r.Keys == errors.Keys
    ensures f in r ==> r[f] == ""
    ensures forall g :: g in errors && g != f ==> r[g] == errors[g]
  {
    if ShowsError(errors, f) then errors[f := ""] else errors
  }

  /** After a change to `f`, `f` shows no error and every other field shows exactly
      what it showed before. */
  lemma ChangeHidesOnlyThatError(errors: Errors, f: Field, g: Field)
    ensures !ShowsError(ClearedError(errors, f), f)
    ensures g != f ==> (ShowsError(ClearedError(errors, f), g) <==> ShowsError(errors, g))
  {
  }

  /** The 8 department codes of the drop-down. */
  const DepartmentCodes: seq<string> := ["CSE", "IT", "ECE", "EEE", "MECH", "CIVIL", "CHEMICAL", "AERO"]

  const DepartmentNames: map<string, string> := map[
    "CSE" := "Computer Science & Engineering",
    "IT" := "Information Technology",
    "ECE" := "Electronics & Communication Engineering",
    "EEE" := "Electrical & Electronics Engineering",
    "MECH" := "Mechanical Engineering",
    "CIVIL" := "Civil Engineering",
    "CHEMICAL" := "Chemical Engineering",
    "AERO" := "Aeronautical Engineering"
  ]

  /** `getDepartmentFullName`: `deptNames[code] || code`. */
  function DepartmentFullName(code: string): (r: string)
    ensures code in DepartmentCodes ==> r != "" && r !in DepartmentCodes
    ensures code !in DepartmentCodes ==> r == code
  {
    if code in DepartmentNames && DepartmentNames[code] != "" then DepartmentNames[code] else code
  }

  /** The lookup table covers exactly the drop-down's codes. */
  lemma DepartmentNamesCoverCodes()
    ensures DepartmentNames.Keys == set c | c in DepartmentCodes
  {
  }

  /** Reads a full name back to its code; codes that are not in the table are their own name. */
  function DepartmentCodeOf(name: string): string
  {
    if name == "Computer Science & Engineering" then "CSE"
    else if name == "Information Technology" then "IT"
    else if name == "Electronics & Communication Engineering" then "ECE"
    else if name == "Electrical & Electronics Engineering" then "EEE"
    else if name == "Mechanical Engineering" then "MECH"
    else if name == "Civil Engineering" then "CIVIL"
    else if name == "Chemical Engineering" then "CHEMICAL"
    else if name == "Aeronautical Engineering" then "AERO"
    else name
  }

  /** Distinct codes get distinct full names: the name determines the code. */
  lemma DepartmentFullNameRoundTrip(code: string)
    requires code in DepartmentCodes
    ensures DepartmentCodeOf(DepartmentFullName(code)) == code
  {
  }

  /** The form's initial value; `currentYear` stands for `new Date().getFullYear()`. */
  function InitialForm(currentYear: int): (form: Form)
    ensures Complete(form)
  {
    map[
      Name := "", Email := "", Phone := "", Department := "CSE", Semester := "1", Section := "A",
      AcademicYear := IntToString(currentYear) + "-" + IntToString(currentYear + 1),
      StudentId := "", DateOfBirth := "", Address := ""
    ]
  }

  lemma {:induction false} FourDigitDecimal(n: int)
    requires 1000 <= n <= 9999
    ensures |IntToString(n)| == 4
  {
    assert NatToDecimal(n) == NatToDecimal(n / 10) + [DecimalDigit(n % 10)];
    assert NatToDecimal(n / 10) == NatToDecimal(n / 100) + [DecimalDigit(n / 10 % 10)];
    assert NatToDecimal(n / 100) == NatToDecimal(n / 1000) + [DecimalDigit(n / 100 % 10)];
  }

  /** The default academic year passes the format check for four-digit years up to 9998;
      any academic year of two four-digit numbers passes, whether or not the second
      follows the first. */
  lemma DefaultAcademicYearValid(y1: int, y2: int)
    requires 1000 <= y1 <= 9999 && 1000 <= y2 <= 9999
    ensures AcademicYearPattern(IntToString(y1) + "-" + IntToString(y2))
    ensures y1 <= 9998 ==> AcademicYearPattern(InitialForm(y1)[AcademicYear])
  {
    FourDigitDecimal(y1);
    FourDigitDecimal(y2);
    var s := IntToString(y1) + "-" + IntToString(y2);
    assert forall i :: 0 <= i < 4 ==> s[i] == IntToString(y1)[i];
    assert forall i :: 5 <= i < 9 ==> s[i] == IntToString(y2)[i - 5];
    if y1 <= 9998 {
      FourDigitDecimal(y1 + 1);
      var t := IntToString(y1) + "-" + IntToString(y1 + 1);
      assert forall i :: 0 <= i < 4 ==> t[i] == IntToString(y1)[i];
      assert forall i :: 5 <= i < 9 ==> t[i] == IntToString(y1 + 1)[i - 5];
    }
  }

  /** A whitespace-only email ends with the format message, not the required one. */
  lemma WhitespaceEmailGetsFormatError(form: Form, errors: Errors)
    requires Complete(form) && ErrorsFor(form, errors)
    requires form[Email] != "" && AllWhitespace(form[Email])
    ensures Email in errors && errors[Email] == EmailFormat
  {
    TrimEmptyIffAllWhitespace(form[Email]);
  }

  /** The form component's state. */
  class StudentFormState {
    var formData: Form
    var errors: Errors

    ghost predicate Valid()
      reads this
    {
      Complete(formData)
    }

    /** A new-student form, opened in `currentYear`. */
    constructor (currentYear: int)
      ensures Valid()
      ensures formData == InitialForm(currentYear) && errors == map[]
    {
      formData := InitialForm(currentYear);
      errors := map[];
    }

    /** `validate`: stores the new error map and reports whether it is empty. */
    method Validate() returns (ok: bool)
      requires Valid()
      modifies this`errors
      ensures Valid()
      ensures ErrorsFor(formData, errors)
      ensures ok <==> FormValid(formData)
    {
      var newErrors := CollectErrors(formData);
      errors := newErrors;
      ok := |newErrors| == 0;
      ErrorsEmptyIffValid(formData, newErrors);
    }

    /** `handleChange` for the input named `f`. */
    method HandleChange(f: Field, value: string)
      requires Valid()
      modifies this
      ensures Valid()
      ensures formData == old(formData)[f := value]
      ensures errors == ClearedError(old(errors), f)
    {
      formData := formData[f := value];
      if ShowsError(errors, f) {
        errors := errors[f := ""];
      }
    }

    /** `handleSubmit` up to `onSave`: the form is handed on only when it validates. */
    method HandleSubmit() returns (saved: Option<Form>)
      requires Valid()
      modifies this`errors
      ensures Valid()
      ensures ErrorsFor(formData, errors)
      ensures saved.Some? <==> FormValid(formData)
      ensures saved.Some? ==> saved.value == formData
    {
      var ok := Validate();
      if !ok {
        return None;
      }
      return Some(formData);
    }
  }
}
