# Learning Progress Monitor: marks entry, student form and student store in Dafny

This project models the three pieces of rule-bearing logic in the Learning Progress
Monitor, a student-records web application, and proves properties about them:

- **Marks entry** (`frontend/src/components/MarksEntry.js`). Typed input is read with
  `parseInt` and clamped to an integer mark in 0..100. Each mark gets a letter grade from
  a seven-step ladder (A+/A/B+/B/C/D/F at 90/80/70/60/50/40) and a Pass/Fail status (pass
  at 40). The screen keeps a draft map from subject id to mark. It changes one entry per
  keystroke, is emptied by "Clear All", and is rebuilt from the student's stored marks.
  The save step refuses without a selected student or without any entered mark. Otherwise
  it sends `parseInt(mark)` for exactly the entered entries. Module `MarksEntry`, with
  the screen's state as class `MarksEntryScreen`.
- **Student form** (`frontend/src/components/StudentForm.js`). The validator requires a
  non-blank name and email and checks academic year, email and phone against their regular
  expressions. It builds an error map field by field, and the form is valid exactly when
  that map is empty. The change handler edits one field and clears that field's error. The
  department code maps to its full name. Module `StudentForm`, with the form's state as
  class `StudentFormState`.
- **Student store** (`backend/server.js`). An in-memory list that `POST /api/students`
  appends to with `id = length + 1` and the request body spread after it. `GET` returns the
  list, and the subjects list is never written. Module `Server`, class `StudentStore`.

The JavaScript built-ins these rely on are written out as definitions in module
`JsBuiltins`:

- the ECMAScript whitespace set, shared by `trim` and the regular-expression class `\s`;
- `String.prototype.trim`;
- the global `parseInt` with no radix, which skips leading whitespace, reads one sign,
  switches to radix 16 on a `0x` prefix, reads the longest digit run, and gives NaN when
  there are no digits;
- the decimal string of an integral Number.

`\d` is ASCII `0-9`. Module `Wrappers` holds an `Option` type.

Files: `wrappers.dfy`, `js_builtins.dfy`, `marks_entry.dfy`, `student_form.dfy`, `server.dfy`.

Notable behaviour the proofs pin down:

- The email error fires exactly when the email does not match the pattern. Its message is
  "Email is required" only for the empty string. A whitespace-only email ends with
  "Invalid email format", because the format check runs second and overwrites the message.
- Emptying a mark's input box stores 0. The box then displays nothing, because
  `studentMarks[id] || ''` treats 0 as falsy. The subject still shows an F badge, and a save
  still sends 0 for it.
- A POST body that carries an `id` overrides the assigned one, so ids can repeat. Posting
  `{id: 4}` and then `{}` to the seeded store gives two records with id 4. Without such
  bodies, every record's id is its position plus one.
- Input that `parseInt` cannot read stores 0 even when it holds a digit: ".5", "abc85",
  "- 5" and a bare "0x" all store 0.
- The academic-year check does not relate the two years, so "2024-2030" passes. The
  default `Y-(Y+1)` passes for four-digit years up to 9998.

## Model

| member | source | states |
|---|---|---|
| `JsBuiltins.IsWhitespace` | frontend/src/components/StudentForm.js:46-47 | definition of the WhiteSpace and LineTerminator code points of ECMA-262, the one set that `trim` (here and at StudentForm.js:47), `parseInt` (MarksEntry.js:44) and the class `\s` (StudentForm.js:52) use; its use is stated in `TrimEmptyIffAllWhitespace`, `ParseIntNaNIff` and `EmailPatternIffShape` |
| `JsBuiltins.IsDecimalDigit` | frontend/src/components/StudentForm.js:48 | definition of `\d`: ASCII '0'..'9' only, as in the year pattern and the phone pattern (StudentForm.js:56) and in `parseInt`'s radix-10 digits; its use is stated in `CollectErrors` and `ParseIntNaNIff` |
| `JsBuiltins.TrimStart` | frontend/src/components/StudentForm.js:46-47 | the result is the longest suffix that does not start with whitespace; everything dropped is whitespace |
| `JsBuiltins.TrimEnd` | frontend/src/components/StudentForm.js:46-47 | the result is the longest prefix that does not end with whitespace; everything dropped is whitespace |
| `JsBuiltins.Trim` | frontend/src/components/StudentForm.js:46-47 | `s.trim()` is no longer than `s`, and a non-empty result starts and ends with a non-whitespace character |
| `JsBuiltins.TrimEmptyIffAllWhitespace` | frontend/src/components/StudentForm.js:46-47 | `s.trim()` is empty exactly when every character of `s` is whitespace |
| `JsBuiltins.TrimIsSlice` | frontend/src/components/StudentForm.js:46-47 | `s.trim()` is a contiguous slice of `s` with only whitespace before and after it |
| `JsBuiltins.TrimSliceStart` | frontend/src/components/StudentForm.js:46-47 | gives the start of that slice: the trimmed text is `s` from there for its own length, and everything before and after it is whitespace |
| `JsBuiltins.DigitRun` | frontend/src/components/MarksEntry.js:44 | `parseInt` reads the longest prefix of radix digits: all digits, and the next character (if any) is not one |
| `JsBuiltins.ParseInt` | frontend/src/components/MarksEntry.js:44 | definition of `parseInt(s)` with no radix: leading whitespace skipped, one sign read, the rest read by `ParseUnsigned`; its properties are stated in `ParseIntNaNIff`, `ParseIntOfDecimalPrefix`, `ParseIntRoundTrip` and `ParseIntWithoutDigits` |
| `JsBuiltins.ParseUnsigned` | frontend/src/components/MarksEntry.js:44 | definition of the part after the sign: a "0x"/"0X" prefix selects radix 16, the longest digit run is the magnitude, no digits gives NaN; its properties are stated in `ParseIntNaNIff` |
| `JsBuiltins.ParseIntNaNIff` | frontend/src/components/MarksEntry.js:44 | `parseInt(s)` is NaN exactly when, after leading whitespace and one sign, the text does not start with a decimal digit, or starts with "0x"/"0X" with no hex digit after it |
| `JsBuiltins.NatToDecimal` | frontend/src/components/MarksEntry.js:75 | the decimal string of a Number is non-empty and made of ASCII digits |
| `JsBuiltins.IntToString` | frontend/src/components/MarksEntry.js:75 | `String(n)` is non-empty, starts with '-' exactly when n is negative; `ParseIntRoundTrip` states that `parseInt` reads it back as n |
| `JsBuiltins.IntToStringDigits` | frontend/src/components/MarksEntry.js:75 | after the sign, if any, `String(n)` is made of ASCII digits |
| `JsBuiltins.DigitsValueOfDecimal` | frontend/src/components/MarksEntry.js:75 | reading the decimal digits of n back in radix 10 gives n |
| `JsBuiltins.DigitRunOfDigits` | frontend/src/components/MarksEntry.js:44 | a digit string followed by a non-digit is read up to the non-digit exactly |
| `JsBuiltins.ParseIntOfDecimalPrefix` | frontend/src/components/MarksEntry.js:44 | `parseInt` of an integer's numeral followed by a tail that starts with neither a digit nor 'x' is that integer ("85", "85.5", "85abc" read 85; "-7" reads -7) |
| `JsBuiltins.ParseIntRoundTrip` | frontend/src/components/MarksEntry.js:75 | `parseInt(String(n)) === n` for every integer n, so the saved value is the drafted one |
| `JsBuiltins.ParseIntWithoutDigits` | frontend/src/components/MarksEntry.js:44 | a string with no decimal digit (including "" and whitespace) parses to NaN |
| `MarksEntry.Clamp` | frontend/src/components/MarksEntry.js:44 | the clamped mark is in 0..100; an in-range value is kept, negatives become 0, values above 100 become 100 |
| `MarksEntry.OrZero` | frontend/src/components/MarksEntry.js:44 | definition of `x \|\| 0` on a `parseInt` result: NaN becomes 0, a number is kept; its effect is stated in `MarkOfUnparsable` and `MarkOfNumeral` |
| `MarksEntry.MarkOfInput` | frontend/src/components/MarksEntry.js:44 | the mark stored for any typed text is an integer in 0..100 |
| `MarksEntry.MarkOfNumeral` | frontend/src/components/MarksEntry.js:44 | typing an integer's numeral stores that integer clamped to 0..100 |
| `MarksEntry.MarkOfInputWithoutDigits` | frontend/src/components/MarksEntry.js:44 | input with no decimal digit at all (including an emptied box) stores 0 |
| `MarksEntry.MarkOfUnparsable` | frontend/src/components/MarksEntry.js:44 | any input `parseInt` finds nothing to read in is NaN and stores 0, whether or not it holds a digit |
| `MarksEntry.LeadingNonDigitStoresZero` | frontend/src/components/MarksEntry.js:44 | text starting with neither whitespace, a sign nor a digit stores 0 even when a digit follows (".5", "abc85") |
| `MarksEntry.SignWithoutDigitStoresZero` | frontend/src/components/MarksEntry.js:44 | a sign not followed by a digit stores 0 ("-.5", "- 5") |
| `MarksEntry.BareHexPrefixStoresZero` | frontend/src/components/MarksEntry.js:44 | "0x" with no hex digit after it stores 0 ("0x", "0xg1"), though it starts with a digit |
| `MarksEntry.ClampIdempotent` | frontend/src/components/MarksEntry.js:44 | clamping twice equals clamping once; re-typing a stored mark stores the same mark |
| `MarksEntry.Grade` | frontend/src/components/MarksEntry.js:233-238 | definition of the inline ladder, highest threshold first with closed lower bounds, shared by the badge and by the table at lines 295-300; its properties are stated in `GradeCountsThresholds`, `GradeMonotone` and `GradeBoundaries` |
| `MarksEntry.GradeCountsThresholds` | frontend/src/components/MarksEntry.js:233-238 | the ladder, checked highest first with closed lower bounds, gives the grade whose rank is the number of thresholds 40,50,60,70,80,90 the mark reaches; it is total |
| `MarksEntry.ThresholdsReachedMonotone` | frontend/src/components/MarksEntry.js:233-238 | a higher mark reaches at least as many thresholds |
| `MarksEntry.GradeMonotone` | frontend/src/components/MarksEntry.js:295-300 | a higher mark never yields a lower grade in the order F<D<C<B<B+<A<A+ |
| `MarksEntry.GradeBoundaries` | frontend/src/components/MarksEntry.js:225-238 | 90 is A+, 89 is A, 80 is A, 79 is B+, 50 is C, 49 is D, 40 is D, 39 is F |
| `MarksEntry.Status` | frontend/src/components/MarksEntry.js:302-303 | a mark is Pass exactly when it is at least 40, which is exactly when its ladder grade is not F |
| `MarksEntry.RowClass` | frontend/src/components/MarksEntry.js:287-294 | the table's separately written class ladder agrees on every mark with the class of that mark's ladder grade |
| `MarksEntry.Entered` | frontend/src/components/MarksEntry.js:67 | definition of `v !== undefined && v !== ''`, the test of the save filter here, of the `hasMarks` guard (line 58) and of the badge (lines 222 and 243); its use is stated in `SavePlan` and `ShownBadge` |
| `MarksEntry.ToJsString` | frontend/src/components/MarksEntry.js:75 | definition of the ToString that `parseInt(marks)` applies to a draft value: "undefined", "" or the numeral; its use is stated in `SavePlan` through `ParseIntRoundTrip` |
| `MarksEntry.WithMark` | frontend/src/components/MarksEntry.js:42-49 | after a change to one subject's input, that subject holds the clamped mark and every other subject keeps its entry; no key is dropped |
| `MarksEntry.MarksObject` | frontend/src/components/MarksEntry.js:26-29 | the loaded map's keys are exactly the subjects of the records, and every value is a number |
| `MarksEntry.MarksObjectLastWins` | frontend/src/components/MarksEntry.js:27-29 | when a subject appears in several records, the map holds the mark of the last one |
| `MarksEntry.BuildMarksObject` | frontend/src/components/MarksEntry.js:26-29 | the `forEach` loop builds exactly that map, and fails (stores nothing) exactly when some record's subject is null |
| `MarksEntry.SavePlan` | frontend/src/components/MarksEntry.js:51-78 | save is refused exactly when no student is selected, or else exactly when no entry is both defined and non-empty; otherwise it sends for the selected student exactly the entered entries, each with its own value, and the sent set is never empty |
| `MarksEntry.ShownBadge` | frontend/src/components/MarksEntry.js:222-249 | a subject shows its grade badge and Pass/Fail status exactly when its draft entry is defined and non-empty |
| `MarksEntry.BadgeIffSent` | frontend/src/components/MarksEntry.js:58-67 | when a save goes out, a subject is in it exactly when it shows a badge |
| `MarksEntry.DisplayedInput` | frontend/src/components/MarksEntry.js:217 | definition of `studentMarks[id] \|\| ''`: a missing entry and a mark of 0 show as empty text, another mark as its numeral; its consequence is stated in `EmptiedBoxStillSendsZero` |
| `MarksEntry.EmptiedBoxStillSendsZero` | frontend/src/components/MarksEntry.js:212-249 | after emptying a box, the box displays nothing, the badge reads "F" with Fail, and a save sends 0 for that subject |
| `MarksEntry.RefusedOnlyWhenEmpty` | frontend/src/components/MarksEntry.js:57-62 | when every entry is a number, the "enter at least one mark" refusal happens exactly when the draft is empty |
| `MarksEntry.MarksEntryScreen.constructor` | frontend/src/components/MarksEntry.js:5-7 | no student selected, empty draft, empty table |
| `MarksEntry.MarksEntryScreen.SelectStudent` | frontend/src/components/MarksEntry.js:124-128 | the selection becomes the chosen student id |
| `MarksEntry.MarksEntryScreen.HandleMarkChange` | frontend/src/components/MarksEntry.js:42-49 | the draft becomes `WithMark` of the old draft, and every entry stays a number |
| `MarksEntry.MarksEntryScreen.ClearMarks` | frontend/src/components/MarksEntry.js:91-96 | the draft becomes empty |
| `MarksEntry.MarksEntryScreen.LoadStudentMarks` | frontend/src/components/MarksEntry.js:19-40 | with a readable response the draft becomes the records' map and the table the records; on a failed request or a null subject, both stay as they were |
| `MarksEntry.MarksEntryScreen.SaveMarks` | frontend/src/components/MarksEntry.js:51-78 | returns the outcome `SavePlan` describes for the current selection and draft; with a student selected, the "enter at least one mark" refusal happens exactly when the draft is empty, because the screen keeps every entry a number |
| `StudentForm.IsBlank` | frontend/src/components/StudentForm.js:46-47 | definition of `!s.trim()`; its meaning, every character is whitespace, is stated in `JsBuiltins.TrimEmptyIffAllWhitespace` |
| `StudentForm.AcademicYearPattern` | frontend/src/components/StudentForm.js:48 | definition of `/^\d{4}-\d{4}$/`: nine characters, four ASCII digits, '-', four ASCII digits; its use is stated in `CollectErrors` and `DefaultAcademicYearValid` |
| `StudentForm.EmailPattern` | frontend/src/components/StudentForm.js:52 | definition of `/^[^\s@]+@[^\s@]+\.[^\s@]+$/` as a split into run, '@', run, '.', run; its meaning is stated in `EmailPatternIffShape` |
| `StudentForm.PhonePattern` | frontend/src/components/StudentForm.js:56 | definition of `/^\d{10}$/`: exactly ten ASCII digits; its use is stated in `CollectErrors` |
| `StudentForm.EmailPatternIffShape` | frontend/src/components/StudentForm.js:52 | the email pattern accepts exactly the strings with no whitespace, exactly one '@' which is not first, and a '.' after it that is neither right after the '@' nor last |
| `StudentForm.EmailPatternNotBlank` | frontend/src/components/StudentForm.js:47-54 | an email the pattern accepts is never blank after trimming |
| `StudentForm.Outcome` | frontend/src/components/StudentForm.js:46-56 | definition of the seven tests `validate` runs (name blank, email blank, email empty, email pattern, year pattern, phone empty, phone pattern); its properties are stated in `OutcomeConsistent` and `ErrorsEmptyIffValid` |
| `StudentForm.OutcomeConsistent` | frontend/src/components/StudentForm.js:47-52 | an empty email is blank after trimming, and an email the pattern accepts is not |
| `StudentForm.WriteErrors` | frontend/src/components/StudentForm.js:44-58 | the writes in `validate`'s order, from the tests' outcomes, leave errors only for name, email, academic year and phone. Name: exactly when blank. Email: exactly when the pattern fails, "required" only when the email is empty, because the format write comes later. Academic year: exactly when the pattern fails. Phone: exactly when non-empty and not matching |
| `StudentForm.CollectErrors` | frontend/src/components/StudentForm.js:43-59 | the error map has errors only for name, email, academic year and phone. Name: exactly when blank after trimming. Email: exactly when the pattern fails, "required" only for "". Academic year: exactly when not `\d{4}-\d{4}`. Phone: exactly when non-empty and not ten digits |
| `StudentForm.ErrorsMatchEmptyIff` | frontend/src/components/StudentForm.js:61 | the error map is empty exactly when the name is not blank, the email and academic year match, and the phone is empty or matches |
| `StudentForm.ErrorsEmptyIffValid` | frontend/src/components/StudentForm.js:61 | the error map is empty exactly when all four checks pass |
| `StudentForm.WhitespaceEmailGetsFormatError` | frontend/src/components/StudentForm.js:47-54 | a whitespace-only email ends with "Invalid email format" |
| `StudentForm.DefaultAcademicYearValid` | frontend/src/components/StudentForm.js:48-50 | any two four-digit years joined by '-' pass, whatever their order; the default year range passes for years up to 9998 |
| `StudentForm.ShowsError` | frontend/src/components/StudentForm.js:120 | definition of `errors[f]` being truthy, that is present and not '', as the `errors.x &&` spans (lines 120, 149, 163, 231) and `handleChange` (line 71) test it; its use is stated in `ClearedError` and `ChangeHidesOnlyThatError` |
| `StudentForm.ClearedError` | frontend/src/components/StudentForm.js:71-76 | after a change to a field, that field's error (if present) is '' and every other error is as it was |
| `StudentForm.ChangeHidesOnlyThatError` | frontend/src/components/StudentForm.js:71-76 | after a change, the changed field shows no error and every other field shows one exactly when it did before |
| `StudentForm.DepartmentFullName` | frontend/src/components/StudentForm.js:272-284 | each of the 8 department codes maps to a non-empty full name that is not itself a code; any other input is returned unchanged |
| `StudentForm.DepartmentNamesCoverCodes` | frontend/src/components/StudentForm.js:21 | the name table's keys are exactly the drop-down's 8 codes |
| `StudentForm.DepartmentFullNameRoundTrip` | frontend/src/components/StudentForm.js:273-283 | the full name determines the code, so no two codes share a name |
| `StudentForm.InitialForm` | frontend/src/components/StudentForm.js:5-16 | the initial form holds every field |
| `StudentForm.StudentFormState.constructor` | frontend/src/components/StudentForm.js:5-18 | the form starts at its initial value with no errors |
| `StudentForm.StudentFormState.Validate` | frontend/src/components/StudentForm.js:43-62 | the stored errors are the map described for `CollectErrors`, and the result is true exactly when the form passes all four checks |
| `StudentForm.StudentFormState.HandleChange` | frontend/src/components/StudentForm.js:64-77 | only the named field of the form changes; the errors become `ClearedError` of the old errors |
| `StudentForm.StudentFormState.HandleSubmit` | frontend/src/components/StudentForm.js:79-84 | the form is handed on, unchanged, exactly when it validates |
| `Server.NewStudent` | backend/server.js:30-33 | the new record has every body property with its value, plus `id`; `id` is the previous length + 1 unless the body supplies one |
| `Server.PostAll` | backend/server.js:29-35 | each POST adds exactly one record at the end; earlier records keep their positions and values |
| `Server.PostAllAppend` | backend/server.js:29-35 | one more POST after a series of them appends exactly the record built from its body, with id the list's length + 1 unless the body has one |
| `Server.PostAllKeepsIds` | backend/server.js:30-34 | if no body carries an `id`, every id stays equal to its position plus one |
| `Server.IdsArePositionsDistinct` | backend/server.js:31 | under that invariant no two records share an id |
| `Server.SeedIdsArePositions` | backend/server.js:14-17 | the seeded records satisfy the invariant |
| `Server.BodyIdCanDuplicate` | backend/server.js:30-33 | a body-supplied id can produce two records with the same id |
| `Server.StudentStore.constructor` | backend/server.js:14-22 | the store starts with the two seeded students, the two seeded subjects and no POST served |
| `Server.StudentStore.IdsStayPositions` | backend/server.js:29-35 | while no POST served so far had an `id` in its body, every stored id is its position plus one, so `IdsArePositionsDistinct` applies |
| `Server.StudentStore.GetStudents` | backend/server.js:25-27 | returns the current list, which is the seed followed by one record per POST served, in the order served |
| `Server.StudentStore.PostStudent` | backend/server.js:29-36 | the list becomes the old list plus the new record at the end; the reply is 201 with that record; subjects are untouched; the body joins the served POSTs, so the list stays the seed after those POSTs |
| `Server.StudentStore.GetSubjects` | backend/server.js:38-40 | always returns the two seeded subjects |

## Left out

- Network and UI. The `fetch` calls, `Promise.all`, `alert`, `console.error`, loading flags
  and all JSX rendering are not modelled. The only exceptions are the text of a mark's input
  box and its grade badge, which are modelled as functions of the draft. A response from
  the server is a parameter (`LoadStudentMarks`).
- The reload after save or clear. `clearMarks` and `saveMarks` reload the student's marks
  asynchronously. The model treats that reload as a separate `LoadStudentMarks` call.
- The progress card. `loadStudentMarks` also stores the student's info and a progress summary.
  Both are computed by server routes that are not part of this model.
- Reports and grade points. `Reports.js`, `App.js`, the grade-point/CGPA/status computation
  and the backend report routes are not part of this model. They only fetch and display
  server-computed values, or are not among the modelled files.
- `backend/models/Mark.js` and `backend/models/Student.js`. These are database schema
  declarations. Their 0..100 mark range agrees with the clamp.
- MarksEntry.MarkRecord: stored marks are integers. The schema allows any Number, and
  `parseInt` would truncate a fractional stored mark when it is saved again. That truncation
  is not modelled.
- JsBuiltins.ParseInt: the value is an exact integer, not a double. Digit runs longer than
  a double holds exactly are rounded by JavaScript. This does not change any clamped mark.
- JsBuiltins.IntToString: exponent notation for magnitudes of 10^21 and above is not
  modelled. Marks never reach it.
- MarksEntry.SavePlan: the requests are modelled as a map from subject id to payload. The
  order in which `Object.entries` lists them is not modelled, since they are sent
  concurrently.
- StudentForm.DepartmentFullName: property names inherited from `Object.prototype` (such
  as "constructor") would return a function, not the code. The model does a plain table
  lookup. The function is only called with the 8 codes.
- The clock. The current year is a constructor parameter. The date-of-birth formatting and
  the edit-mode prefill from a `student` prop (`useEffect`, StudentForm.js:25-41) are not
  modelled, because they depend on library date formatting.
- The semester. It starts as the number 1 and is stored as the text "1". No check reads it.
- React state timing. State updates are modelled as immediate and sequential. Stale
  closures and batched updates are not modelled.
- Express plumbing. Express/cors/dotenv setup, `app.listen`, the `/` health route and
  request-body parse failures are not modelled. JSON numbers in request bodies are
  integers.
