/** ExamMarkCreateUpdateSerializer and the attendance getters of the list and
    detail serializers (exams/serializers.py). */
module MarkValidation {
  import opened Wrappers
  import opened ExamRecords
  import opened Averages

  datatype ValidationError =
    | AttendanceExceedsClasses   // "Present + Absent cannot exceed total classes"
    | DuplicateMark              // "Marks already exist for this student-subject-exam combination"
    | MissingFields(names: seq<string>) // the required fields a create request left out

  /** The literal defaults `validate` uses for attendance fields the request
      leaves out (not the stored row's values, even on update). */
  const DefaultTotalClass: int := 10
  const DefaultPresent: int := 0
  const DefaultAbsent: int := 0

  /** The attendance check of `validate`, with its defaults filled in. */
  predicate AttendanceConsistent(data: MarkData)
  {
    data.present.GetOr(DefaultPresent) + data.absent.GetOr(DefaultAbsent)
      <= data.totalClass.GetOr(DefaultTotalClass)
  }

  /** A stored row has the payload's (exam_name, student, subject, session).
      A key the payload leaves out is looked up as NULL, which no stored row
      has. */
  predicate DuplicateExists(rows: seq<ExamMark>, data: MarkData)
  {
    exists i :: 0 <= i < |rows| && SameKey(rows[i], data)
  }

  predicate SameKey(row: ExamMark, data: MarkData)
  {
    && data.examName == Some(row.examName)
    && data.student == Some(row.student)
    && data.subject == Some(row.subject)
    && data.session == Some(row.session)
  }

  /** `validate`: the attendance check first, then, only when there is no
      instance (a create), the duplicate-key check against the stored rows;
      on success the payload is returned unchanged. */
  function Validate(data: MarkData, instance: Option<ExamMark>, rows: seq<ExamMark>)
    : (r: Result<MarkData, ValidationError>)
    ensures r.Success? ==> r.value == data
    ensures r.Failure? <==> !AttendanceConsistent(data) || (instance.None? && DuplicateExists(rows, data))
    ensures !AttendanceConsistent(data) ==> r == Failure(AttendanceExceedsClasses)
    ensures r.Failure? && AttendanceConsistent(data) ==> r.error == DuplicateMark
    ensures instance.Some? ==> (r.Success? <==> AttendanceConsistent(data))
  {
    var totalClass := data.totalClass.GetOr(DefaultTotalClass);
    var present := data.present.GetOr(DefaultPresent);
    var absent := data.absent.GetOr(DefaultAbsent);
    if present + absent > totalClass then Failure(AttendanceExceedsClasses)
    else if instance.None? && DuplicateExists(rows, data) then Failure(DuplicateMark)
    else Success(data)
  }

  /** Validation consults the stored instance only for whether there is one:
      an update is judged on the payload and the literal defaults alone. */
  lemma ValidateIgnoresInstanceFields(data: MarkData, a: ExamMark, b: ExamMark, rows: seq<ExamMark>)
    ensures Validate(data, Some(a), rows) == Validate(data, Some(b), rows)
    ensures Validate(data, Some(a), rows) == Validate(data, Some(a), [])
  {
  }

  /** With the defaults 10 / 0 / 0: an empty payload passes the attendance
      check, `present = 11` alone fails it, and `present = 8, absent = 3,
      total_class = 10` fails it. */
  lemma AttendanceDefaultsExamples()
    ensures AttendanceConsistent(EmptyData)
    ensures !AttendanceConsistent(EmptyData.(present := Some(11)))
    ensures !AttendanceConsistent(EmptyData.(present := Some(8), absent := Some(3), totalClass := Some(10)))
  {
  }

  /** The four fields a create request must carry: ExamMark's key columns
      have no default, so the serializer's field validation requires them
      before `validate` runs, and reports every one that is missing, in field
      order; a partial update requires nothing. */
  function MissingRequired(data: MarkData): (r: seq<string>)
    ensures "exam_name" in r <==> data.examName.None?
    ensures "student" in r <==> data.student.None?
    ensures "subject" in r <==> data.subject.None?
    ensures "session" in r <==> data.session.None?
    ensures forall n :: n in r ==> n in ["exam_name", "student", "subject", "session"]
    ensures r == [] <==> data.examName.Some? && data.student.Some? && data.subject.Some? && data.session.Some?
  {
    (if data.examName.None? then ["exam_name"] else [])
    + (if data.student.None? then ["student"] else [])
    + (if data.subject.None? then ["subject"] else [])
    + (if data.session.None? then ["session"] else [])
  }

  /** `is_valid` of ExamMarkCreateUpdateSerializer: the required-field check on
      create, then `validate`. */
  function IsValid(data: MarkData, instance: Option<ExamMark>, rows: seq<ExamMark>)
    : (r: Result<MarkData, ValidationError>)
    ensures r.Success? ==> r.value == data && AttendanceConsistent(data)
    ensures r.Success? && instance.None? ==> MissingRequired(data) == [] && !DuplicateExists(rows, data)
    ensures instance.Some? ==> r == Validate(data, instance, rows)
    ensures instance.None? && MissingRequired(data) != [] ==> r == Failure(MissingFields(MissingRequired(data)))
    ensures instance.None? && MissingRequired(data) == [] ==> r == Validate(data, instance, rows)
  {
    if instance.None? && MissingRequired(data) != [] then Failure(MissingFields(MissingRequired(data)))
    else Validate(data, instance, rows)
  }

  /** The row a successful create writes (before ExamMark.save, which is not
      part of this model, fills in `total_marks`): the payload's fields, NULL
      for component marks it leaves out, and the column defaults for
      attendance fields it leaves out. */
  function Created(id: nat, data: MarkData, defaults: (int, int, int)): (row: ExamMark)
    requires MissingRequired(data) == []
    ensures row.id == id && SameKey(row, data) && row.totalMarks.None?
    ensures row.cq == data.cq.GetOr(None) && row.mct == data.mct.GetOr(None) && row.lab == data.lab.GetOr(None)
    ensures row.totalClass == data.totalClass.GetOr(defaults.0)
    ensures row.present == data.present.GetOr(defaults.1)
    ensures row.absent == data.absent.GetOr(defaults.2)
  {
    ExamMark(id, data.examName.value, data.student.value, data.subject.value, data.session.value,
             data.cq.GetOr(None), data.mct.GetOr(None), data.lab.GetOr(None), None,
             data.totalClass.GetOr(defaults.0), data.present.GetOr(defaults.1),
             data.absent.GetOr(defaults.2))
  }

  /** The row a successful partial update writes: every field the payload
      carries overwrites the stored one, every other field is kept. */
  function Updated(row: ExamMark, data: MarkData): (r: ExamMark)
    ensures r.id == row.id && r.totalMarks == row.totalMarks
    ensures data == EmptyData ==> r == row
    ensures data.examName.Some? ==> r.examName == data.examName.value
    ensures data.examName.None? ==> r.examName == row.examName
    ensures data.student.Some? ==> r.student == data.student.value
    ensures data.student.None? ==> r.student == row.student
    ensures data.subject.Some? ==> r.subject == data.subject.value
    ensures data.subject.None? ==> r.subject == row.subject
    ensures data.session.Some? ==> r.session == data.session.value
    ensures data.session.None? ==> r.session == row.session
    ensures data.cq.Some? ==> r.cq == data.cq.value
    ensures data.cq.None? ==> r.cq == row.cq
    ensures data.mct.Some? ==> r.mct == data.mct.value
    ensures data.mct.None? ==> r.mct == row.mct
    ensures data.lab.Some? ==> r.lab == data.lab.value
    ensures data.lab.None? ==> r.lab == row.lab
    ensures data.totalClass.Some? ==> r.totalClass == data.totalClass.value
    ensures data.totalClass.None? ==> r.totalClass == row.totalClass
    ensures data.present.Some? ==> r.present == data.present.value
    ensures data.present.None? ==> r.present == row.present
    ensures data.absent.Some? ==> r.absent == data.absent.value
    ensures data.absent.None? ==> r.absent == row.absent
  {
    row.(examName := data.examName.GetOr(row.examName),
         student := data.student.GetOr(row.student),
         subject := data.subject.GetOr(row.subject),
         session := data.session.GetOr(row.session),
         cq := data.cq.GetOr(row.cq),
         mct := data.mct.GetOr(row.mct),
         lab := data.lab.GetOr(row.lab),
         totalClass := data.totalClass.GetOr(row.totalClass),
         present := data.present.GetOr(row.present),
         absent := data.absent.GetOr(row.absent))
  }

  /** `get_attendance_percentage` of the list serializer: present classes as a
      percentage of all classes, 0 when there were none. */
  function AttendancePercentage(m: ExamMark): (p: real)
    ensures m.totalClass <= 0 ==> p == 0.0
    ensures m.totalClass > 0 ==> p * m.totalClass as real == m.present as real * 100.0
    ensures 0 <= m.present <= m.totalClass ==> 0.0 <= p <= 100.0
  {
    if m.totalClass > 0 then
      var p := m.present as real / m.totalClass as real * 100.0;
      PercentBounds(m.present, m.totalClass);
      p
    else 0.0
  }

  /** The attendance block of the detail serializer. */
  datatype AttendanceSummary = AttendanceSummary(totalClass: int, present: int, absent: int, percentage: real)

  /** `get_attendance_summary`: the row's attendance fields and the same
      percentage the list serializer reports. */
  function SummaryOf(m: ExamMark): (s: AttendanceSummary)
    ensures s.totalClass == m.totalClass && s.present == m.present && s.absent == m.absent
    ensures s.percentage == AttendancePercentage(m)
  {
    var pct := if m.totalClass > 0 then m.present as real / m.totalClass as real * 100.0 else 0.0;
    AttendanceSummary(m.totalClass, m.present, m.absent, pct)
  }
}
