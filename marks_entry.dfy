/**
 * The marks-entry screen: the 0..100 clamp applied to typed input, the
 * A+/A/B+/B/C/D/F ladder and the pass mark shown beside each subject, the
 * draft map from subject id to mark, the map built from a student's stored
 * marks, and the guards and entry filter of the save step.
 */
module MarksEntry {
  import opened Wrappers
  import opened JsBuiltins

  const MinMark := 0
  const MaxMark := 100
  const PassMark := 40

  function Max(a: int, b: int): int { if a >= b then a else b }

  function Min(a: int, b: int): int { if a <= b then a else b }

  /** `x || 0` on what `parseInt` returned: NaN (and 0) become 0. */
  function OrZero(p: ParseResult): int
  {
    match p
    case NaN => 0
    case Int(v) => v
  }

  /** `Math.min(Math.max(x, 0), 100)`. */
  function Clamp(x: int): (r: int)
    ensures MinMark <= r <= MaxMark
    ensures MinMark <= x <= MaxMark ==> r == x
    ensures x < MinMark ==> r == MinMark
    ensures x > MaxMark ==> r == MaxMark
  {
    Min(Max(x, MinMark), MaxMark)
  }

  /** The mark stored for a subject when its input box holds `raw`. */
  function MarkOfInput(raw: string): (m: int)
    ensures MinMark <= m <= MaxMark
  {
    Clamp(OrZero(ParseInt(raw)))
  }

  /** Typing the decimal numeral of any integer stores that integer clamped to 0..100:
      numerals already in range are kept, negatives become 0, larger values 100. */
  lemma MarkOfNumeral(n: int)
    ensures MarkOfInput(IntToString(n)) == Clamp(n)
  {
    ParseIntRoundTrip(n);
  }

  /** Input with no digit in it (an emptied box, text, a lone sign) stores 0. */
  lemma MarkOfInputWithoutDigits(raw: string)
    requires forall i :: 0 <= i < |raw| ==> !IsDecimalDigit(raw[i])
    ensures MarkOfInput(raw) == 0
  {
    ParseIntWithoutDigits(raw);
  }

  /** Any input `parseInt` finds nothing to read in stores 0, whether or not it holds a
      digit somewhere. */
  lemma MarkOfUnparsable(raw: string)
    requires NothingToRead(raw)
    ensures ParseInt(raw) == NaN
    ensures MarkOfInput(raw) == 0
  {
    ParseIntNaNIff(raw);
  }

  /** Text that starts with neither whitespace, a sign nor a digit stores 0 even when a
      digit follows (".5", "abc85"). */
  lemma LeadingNonDigitStoresZero(raw: string)
    requires raw != [] && !IsWhitespace(raw[0]) && !IsDecimalDigit(raw[0])
    requires raw[0] != '-' && raw[0] != '+'
    ensures MarkOfInput(raw) == 0
  {
    assert TrimStart(raw) == raw;
    MarkOfUnparsable(raw);
  }

  /** A sign not followed by a digit stores 0 ("-.5", "- 5"). */
  lemma SignWithoutDigitStoresZero(raw: string)
    requires |raw| >= 2 && (raw[0] == '-' || raw[0] == '+') && !IsDecimalDigit(raw[1])
    ensures MarkOfInput(raw) == 0
  {
    assert TrimStart(raw) == raw;
    MarkOfUnparsable(raw);
  }

  /** A "0x" prefix with no hex digit after it stores 0, though it starts with a digit
      ("0x", "0xg1"). */
  lemma BareHexPrefixStoresZero(raw: string)
    requires HasHexPrefix(raw) && (|raw| == 2 || !IsHexDigit(raw[2]))
    ensures MarkOfInput(raw) == 0
  {
    assert TrimStart(raw) == raw;
    MarkOfUnparsable(raw);
  }

  /** Clamping is idempotent, so re-entering a stored mark leaves it unchanged. */
  lemma ClampIdempotent(x: int)
    ensures Clamp(Clamp(x)) == Clamp(x)
    ensures MarkOfInput(IntToString(MarkOfInput(IntToString(x)))) == MarkOfInput(IntToString(x))
  {
    MarkOfNumeral(x);
    MarkOfNumeral(Clamp(x));
  }

  /** The seven letter grades, lowest first. */
  datatype LetterGrade = F | D | C | B | BPlus | A | APlus

  /** Position in the order F < D < C < B < B+ < A < A+. */
  function Rank(g: LetterGrade): nat
  {
    match g
    case F => 0
    case D => 1
    case C => 2
    case B => 3
    case BPlus => 4
    case A => 5
    case APlus => 6
  }

  /** The text the screen shows for a grade. */
  function Label(g: LetterGrade): string
  {
    match g
    case F => "F"
    case D => "D"
    case C => "C"
    case B => "B"
    case BPlus => "B+"
    case A => "A"
    case APlus => "A+"
  }

  /** The inline grade ladder, highest threshold first, closed lower bounds. The grade
      badge beside an input and the Grade column of the stored-marks table use the same
      ladder text, so both are this one function. */
  function Grade(m: int): LetterGrade
  {
    if m >= 90 then APlus
    else if m >= 80 then A
    else if m >= 70 then BPlus
    else if m >= 60 then B
    else if m >= 50 then C
    else if m >= 40 then D
    else F
  }

  /** The ladder's thresholds, one per grade above F, ascending. */
  const GradeThresholds: seq<int> := [40, 50, 60, 70, 80, 90]

  /** How many thresholds of `ts` the mark reaches. */
  function ThresholdsReached(ts: seq<int>, m: int): nat
  {
    if ts == [] then 0 else (if ts[0] <= m then 1 else 0) + ThresholdsReached(ts[1..], m)
  }

  /** Reference reading of the ladder: a mark's grade is the one whose rank is the
      number of thresholds the mark reaches. */
  lemma {:induction false} GradeCountsThresholds(m: int)
    ensures Rank(Grade(m)) == ThresholdsReached(GradeThresholds, m)
  {
    var ts := GradeThresholds;
    assert ts[1..][1..][1..][1..][1..][1..] == [];
    assert ThresholdsReached(ts[1..][1..][1..][1..][1..], m) == if 90 <= m then 1 else 0;
    assert ThresholdsReached(ts[1..][1..][1..][1..], m) == (if 80 <= m then 1 else 0) + (if 90 <= m then 1 else 0);
    assert ThresholdsReached(ts[1..][1..][1..], m) ==
      (if 70 <= m then 1 else 0) + (if 80 <= m then 1 else 0) + (if 90 <= m then 1 else 0);
    assert ThresholdsReached(ts[1..][1..], m) ==
      (if 60 <= m then 1 else 0) + (if 70 <= m then 1 else 0) + (if 80 <= m then 1 else 0) + (if 90 <= m then 1 else 0);
    assert ThresholdsReached(ts[1..], m) ==
      (if 50 <= m then 1 else 0) + (if 60 <= m then 1 else 0) + (if 70 <= m then 1 else 0) +
      (if 80 <= m then 1 else 0) + (if 90 <= m then 1 else 0);
  }

  lemma {:induction false} ThresholdsReachedMonotone(ts: seq<int>, a: int, b: int)
    requires a <= b
    ensures ThresholdsReached(ts, a) <= ThresholdsReached(ts, b)
  {
    if ts != [] {
      ThresholdsReachedMonotone(ts[1..], a, b);
    }
  }

  /** A higher mark never gets a lower grade. */
  lemma GradeMonotone(a: int, b: int)
    requires a <= b
    ensures Rank(Grade(a)) <= Rank(Grade(b))
  {
    GradeCountsThresholds(a);
    GradeCountsThresholds(b);
    ThresholdsReachedMonotone(GradeThresholds, a, b);
  }

  /** The ladder's boundaries: each threshold belongs to the grade above it. */
  lemma GradeBoundaries()
    ensures Grade(90) == APlus && Grade(89) == A && Grade(80) == A && Grade(79) == BPlus
    ensures Grade(50) == C && Grade(49) == D && Grade(40) == D && Grade(39) == F
  {
  }

  datatype MarkStatus = Pass | Fail

  /** The Pass/Fail status shown beside a mark: a pass is exactly a grade other than F. */
  function Status(m: int): (s: MarkStatus)
    ensures s == Pass <==> Grade(m) != F
    ensures s == Pass <==> m >= PassMark
  {
    if m >= PassMark then Pass else Fail
  }

  /** The CSS class the stored-marks table gives a grade cell; it coarsens the ladder. */
  function GradeClass(g: LetterGrade): string
  {
    match g
    case APlus | A => "grade-a"
    case BPlus | B => "grade-b"
    case C => "grade-c"
    case D => "grade-d"
    case F => "grade-f"
  }

  /** The class ladder of the stored-marks table, written inline with its own thresholds;
      it agrees with the class of the mark's grade on every mark. */
  function RowClass(m: int): (r: string)
    ensures r == GradeClass(Grade(m))
  {
    if m >= 90 then "grade-a"
    else if m >= 80 then "grade-a"
    else if m >= 70 then "grade-b"
    else if m >= 60 then "grade-b"
    else if m >= 50 then "grade-c"
    else if m >= 40 then "grade-d"
    else "grade-f"
  }

  /** A value held in the draft map: the map may hold anything JavaScript can, and the
      screen distinguishes `undefined`, the empty string and a number. */
  datatype DraftValue = Undefined | EmptyString | Number(n: int)

  /** `marks !== undefined && marks !== ''`. */
  predicate Entered(v: DraftValue)
  {
    v != Undefined && v != EmptyString
  }

  /** The draft map `studentMarks`, keyed by subject id. */
  type Draft = map<string, DraftValue>

  /** `String(v)`, the text `parseInt` reads when it is given a draft value. */
  function ToJsString(v: DraftValue): string
  {
    match v
    case Undefined => "undefined"
    case EmptyString => ""
    case Number(n) => IntToString(n)
  }

  /** The draft after the input for `subjectId` changes to `raw`: that subject now holds
      the clamped mark and every other subject keeps its entry. */
  function WithMark(draft: Draft, subjectId: string, raw: string): (r: Draft)
    ensures r.Keys == draft.Keys + {subjectId}
    ensures r[subjectId] == Number(MarkOfInput(raw))
    ensures forall k :: k in draft && k != subjectId ==> r[k] == draft[k]
  {
    draft[subjectId := Number(MarkOfInput(raw))]
  }

  /** One stored mark as the server returns it: the populated subject (`None` when the
      reference is null) and the mark. */
  datatype MarkRecord = MarkRecord(subject: Option<string>, marks: int)

  predicate AllLinked(records: seq<MarkRecord>)
  {
    forall i :: 0 <= i < |records| ==> records[i].subject.Some?
  }

  /** The subjects the records name. */
  function SubjectsOf(records: seq<MarkRecord>): set<string>
    requires AllLinked(records)
  {
    set i | 0 <= i < |records| :: records[i].subject.value
  }

  /** `marksObj` after writing each record's mark under its subject id, in order. */
  function MarksObject(records: seq<MarkRecord>): (r: Draft)
    requires AllLinked(records)
    ensures r.Keys == SubjectsOf(records)
    ensures forall k :: k in r ==> r[k].Number?
    decreases |records|
  {
    if records == [] then map[]
    else
      var init := records[..|records| - 1];
      var last := records[|records| - 1];
      assert SubjectsOf(records) == SubjectsOf(init) + {last.subject.value} by {
        forall k | k in SubjectsOf(records) ensures k in SubjectsOf(init) + {last.subject.value} {
          var i :| 0 <= i < |records| && records[i].subject.value == k;
          if i < |records| - 1 { assert init[i] == records[i]; }
        }
        forall k | k in SubjectsOf(init) ensures k in SubjectsOf(records) {
          var i :| 0 <= i < |init| && init[i].subject.value == k;
          assert records[i] == init[i];
        }
      }
      MarksObject(init)[last.subject.value := Number(last.marks)]
  }

  /** When a subject appears in several records, the last one wins. */
  lemma {:induction false} MarksObjectLastWins(records: seq<MarkRecord>, i: nat)
    requires AllLinked(records) && i < |records|
    requires forall j :: i < j < |records| ==> records[j].subject != records[i].subject
    ensures MarksObject(records)[records[i].subject.value] == Number(records[i].marks)
    decreases |records|
  {
    if i < |records| - 1 {
      var init := records[..|records| - 1];
      assert init[i] == records[i];
      MarksObjectLastWins(init, i);
    }
  }

  /** `loadStudentMarks`' `forEach` loop: `None` when a record's subject is null, which
      throws out of the loop before anything is stored. */
  method BuildMarksObject(records: seq<MarkRecord>) returns (r: Option<Draft>)
    ensures r.None? <==> !AllLinked(records)
    ensures r.Some? ==> AllLinked(records) && r.value == MarksObject(records)
  {
    var marksObj: Draft := map[];
    var i := 0;
    while i < |records|
      invariant 0 <= i <= |records|
      invariant AllLinked(records[..i])
      invariant marksObj == MarksObject(records[..i])
    {
      var mark := records[i];
      if mark.subject.None? {
        return None;
      }
      assert records[..i + 1][..i] == records[..i];
      marksObj := marksObj[mark.subject.value := Number(mark.marks)];
      i := i + 1;
    }
    assert records[..i] == records;
    return Some(marksObj);
  }

  /** What pressing save does: one of the two alerts, or the requests it sends. */
  datatype SaveOutcome =
    | NoStudentSelected
    | NoMarksEntered
    | Send(studentId: string, payload: map<string, ParseResult>)

  /** The save step: refuse without a selected student, refuse when no entry is entered,
      otherwise send `parseInt(marks)` for exactly the entered entries. */
  function SavePlan(selected: string, draft: Draft): (r: SaveOutcome)
    ensures r.NoStudentSelected? <==> selected == ""
    ensures r.NoMarksEntered? <==> selected != "" && forall k :: k in draft ==> !Entered(draft[k])
    ensures r.Send? ==> r.studentId == selected && r.payload != map[]
    ensures r.Send? ==> forall k :: k in r.payload <==> k in draft && Entered(draft[k])
    ensures r.Send? ==> forall k :: k in r.payload ==> r.payload[k] == Int(draft[k].n)
  {
    if selected == "" then NoStudentSelected
    else if !(exists k :: k in draft && Entered(draft[k])) then NoMarksEntered
    else
      var payload := map k | k in draft && Entered(draft[k]) :: ParseInt(ToJsString(draft[k]));
      assert forall k :: k in payload ==> payload[k] == Int(draft[k].n) by {
        forall k | k in payload ensures payload[k] == Int(draft[k].n) {
          ParseIntRoundTrip(draft[k].n);
        }
      }
      var k :| k in draft && Entered(draft[k]);
      assert k in payload;
      Send(selected, payload)
  }

  /** The grade badge and Pass/Fail status shown under a subject's input. */
  datatype Badge = Badge(grade: LetterGrade, status: MarkStatus)

  function ShownBadge(draft: Draft, subjectId: string): (b: Option<Badge>)
    ensures b.Some? <==> subjectId in draft && Entered(draft[subjectId])
  {
    if subjectId !in draft then None
    else
      match draft[subjectId]
      case Number(n) => Some(Badge(Grade(n), Status(n)))
      case _ => None
  }

  /** A subject shows a badge exactly when saving would send its entry. */
  lemma BadgeIffSent(selected: string, draft: Draft, subjectId: string)
    requires SavePlan(selected, draft).Send?
    ensures subjectId in SavePlan(selected, draft).payload <==> ShownBadge(draft, subjectId).Some?
  {
  }

  /** The input box's text, `studentMarks[id] || ''`: a mark of 0 is falsy and shows empty. */
  function DisplayedInput(draft: Draft, subjectId: string): string
  {
    if subjectId in draft && draft[subjectId].Number? && draft[subjectId].n != 0
    then IntToString(draft[subjectId].n)
    else ""
  }

  /** Emptying a subject's box stores 0: the box then shows nothing, yet the subject
      shows an F badge and a save sends 0 for it. */
  lemma EmptiedBoxStillSendsZero(selected: string, draft: Draft, subjectId: string)
    requires selected != ""
    ensures DisplayedInput(WithMark(draft, subjectId, ""), subjectId) == ""
    ensures ShownBadge(WithMark(draft, subjectId, ""), subjectId) == Some(Badge(F, Fail))
    ensures Label(ShownBadge(WithMark(draft, subjectId, ""), subjectId).value.grade) == "F"
    ensures SavePlan(selected, WithMark(draft, subjectId, "")).Send?
    ensures SavePlan(selected, WithMark(draft, subjectId, "")).payload[subjectId] == Int(0)
  {
    MarkOfInputWithoutDigits("");
    var d := WithMark(draft, subjectId, "");
    assert d[subjectId] == Number(0);
    assert Entered(d[subjectId]);
    ParseIntRoundTrip(0);
  }

  /** When every entry is a number (as the screen's own updates keep it), the "enter at
      least one mark" refusal happens exactly when the draft is empty. */
  lemma RefusedOnlyWhenEmpty(selected: string, draft: Draft)
    requires selected != ""
    requires forall k :: k in draft ==> draft[k].Number?
    ensures SavePlan(selected, draft).NoMarksEntered? <==> draft == map[]
  {
    if draft != map[] {
      var k :| k in draft;
      assert Entered(draft[k]);
    }
  }

  /** The screen's state: the selected student id ("" for none), the draft map, and
      the stored marks last loaded for the table. */
  class MarksEntryScreen {
    var selectedStudent: string
    var studentMarks: Draft
    var marksData: seq<MarkRecord>

    /** Every draft entry is a number. */
    ghost predicate Valid()
      reads this
    {
      forall k :: k in studentMarks ==> studentMarks[k].Number?
    }

    constructor ()
      ensures Valid()
      ensures selectedStudent == "" && studentMarks == map[] && marksData == []
    {
      selectedStudent := "";
      studentMarks := map[];
      marksData := [];
    }

    /** Choosing a student in the drop-down; loading that student's marks follows as a
        separate call with the server's response. */
    method SelectStudent(studentId: string)
      modifies this`selectedStudent
      ensures selectedStudent == studentId
    {
      selectedStudent := studentId;
    }

    /** `handleMarkChange`: only `subjectId`'s entry changes. */
    method HandleMarkChange(subjectId: string, raw: string)
      requires Valid()
      modifies this`studentMarks
      ensures Valid()
      ensures studentMarks == WithMark(old(studentMarks), subjectId, raw)
    {
      var validMarks := Clamp(OrZero(ParseInt(raw)));
      studentMarks := studentMarks[subjectId := Number(validMarks)];
    }

    /** `clearMarks`: the draft becomes empty (the reload that follows is a separate call). */
    method ClearMarks()
      modifies this`studentMarks
      ensures Valid()
      ensures studentMarks == map[]
    {
      studentMarks := map[];
    }

    /** `loadStudentMarks` given the server's answer (`None` when the request or its JSON
        failed): the draft and table are replaced only if every record could be read. */
    method LoadStudentMarks(response: Option<seq<MarkRecord>>)
      requires Valid()
      modifies this`studentMarks, this`marksData
      ensures Valid()
      ensures response.Some? && AllLinked(response.value) ==>
                studentMarks == MarksObject(response.value) && marksData == response.value
      ensures !(response.Some? && AllLinked(response.value)) ==>
                studentMarks == old(studentMarks) && marksData == old(marksData)
    {
      if response.Some? {
        var marksObj := BuildMarksObject(response.value);
        if marksObj.Some? {
          studentMarks := marksObj.value;
          marksData := response.value;
        }
      }
    }

    /** `saveMarks` up to the requests it sends. */
    method SaveMarks() returns (r: SaveOutcome)
      requires Valid()
      ensures r == SavePlan(selectedStudent, studentMarks)
      ensures selectedStudent != "" ==> (r.NoMarksEntered? <==> studentMarks == map[])
    {
      if selectedStudent != "" {
        RefusedOnlyWhenEmpty(selectedStudent, studentMarks);
      }
      if selectedStudent == "" {
        return NoStudentSelected;
      }
      var hasMarks := exists k :: k in studentMarks && Entered(studentMarks[k]);
      if !hasMarks {
        return NoMarksEntered;
      }
      var payload := map k | k in studentMarks && Entered(studentMarks[k]) :: ParseInt(ToJsString(studentMarks[k]));
      return Send(selectedStudent, payload);
    }
  }
}
