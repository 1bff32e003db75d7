/** The ExamMark rows and request payloads that the exam serializers and views
    work on. The ExamMark model class itself is not part of this model; the
    fields below are the ones the serializers and views read and write. */
module ExamRecords {
  import opened Wrappers

  /** A stored ExamMark row. The four key columns are required foreign keys or
      choices and never NULL; the component marks and `total_marks` may be. */
  datatype ExamMark = ExamMark(
    id: nat,
    examName: string,
    student: nat,
    subject: nat,
    session: nat,
    cq: Option<real>,
    mct: Option<real>,
    lab: Option<real>,
    totalMarks: Option<real>,
    totalClass: int,
    present: int,
    absent: int)

  /** A student as the exam views read it: the roll number they order by and
      the group they filter on. */
  datatype Student = Student(rollNumber: string, group: Option<string>)

  /** The fields ExamMarkCreateUpdateSerializer accepts. `None` means the
      request left the field out; for the nullable component marks,
      `Some(None)` is an explicit null. */
  datatype MarkData = MarkData(
    examName: Option<string>,
    student: Option<nat>,
    subject: Option<nat>,
    session: Option<nat>,
    cq: Option<Option<real>>,
    mct: Option<Option<real>>,
    lab: Option<Option<real>>,
    totalClass: Option<int>,
    present: Option<int>,
    absent: Option<int>)

  /** A payload with no fields at all. */
  const EmptyData := MarkData(None, None, None, None, None, None, None, None, None, None)
}
