/** The legacy grade rule of `Mark.save` (exams/models.py): a mark's grade is
    derived from its percentage of the exam's total marks through a fixed chain
    of inclusive lower bounds, and a table of marks holds at most one mark per
    (exam, student) pair. Decimal fields are exact rationals here. */
module Grading {
  import opened Wrappers

  /** The six letters `Mark.save` can assign. */
  datatype Letter = APlus | A | AMinus | B | C | F

  function LetterName(g: Letter): string
  {
    match g
    case APlus => "A+"
    case A => "A"
    case AMinus => "A-"
    case B => "B"
    case C => "C"
    case F => "F"
  }

  const LetterNames: set<string> := {"A+", "A", "A-", "B", "C", "F"}

  /** Position of a letter on the scale, F lowest. */
  function Rank(g: Letter): nat
  {
    match g
    case F => 0
    case C => 1
    case B => 2
    case AMinus => 3
    case A => 4
    case APlus => 5
  }

  /** A row of the legacy Mark table; `grade` is the stored, nullable letter. */
  datatype Mark = Mark(exam: nat, student: nat, marksObtained: real,
                       grade: Option<string>, remarks: Option<string>)

  datatype SaveError =
    | DivisionUndefined      // the exam's total_marks is zero
    | DuplicateExamStudent   // the (exam, student) unique constraint

  function Percentage(obtained: real, total: real): real
    requires total != 0.0
  {
    obtained / total * 100.0
  }

  /** The letter for a percentage: each letter owns the half-open band between
      its inclusive lower bound and the next letter's. */
  function LetterFor(percentage: real): (g: Letter)
    ensures g == APlus <==> percentage >= 80.0
    ensures g == A <==> 70.0 <= percentage < 80.0
    ensures g == AMinus <==> 60.0 <= percentage < 70.0
    ensures g == B <==> 50.0 <= percentage < 60.0
    ensures g == C <==> 40.0 <= percentage < 50.0
    ensures g == F <==> percentage < 40.0
  {
    if percentage >= 80.0 then APlus
    else if percentage >= 70.0 then A
    else if percentage >= 60.0 then AMinus
    else if percentage >= 50.0 then B
    else if percentage >= 40.0 then C
    else F
  }

  /** `Mark.save`: overwrite the grade with the letter of the mark's percentage,
      then persist. A zero total makes the division fail. */
  function Save(m: Mark, examTotal: real): (r: Result<Mark, SaveError>)
    ensures r.Failure? <==> examTotal == 0.0
    ensures r.Failure? ==> r.error == DivisionUndefined
    ensures r.Success? ==> r.value.(grade := m.grade) == m
    ensures r.Success? ==> r.value.grade.Some? && r.value.grade.value in LetterNames
    ensures r.Success? ==>
      r.value.grade == Some(LetterName(LetterFor(Percentage(m.marksObtained, examTotal))))
  {
    if examTotal == 0.0 then Failure(DivisionUndefined)
    else Success(m.(grade := Some(LetterName(LetterFor(Percentage(m.marksObtained, examTotal))))))
  }

  /** A higher percentage never yields a lower letter. */
  lemma LetterForMonotone(p: real, q: real)
    requires p <= q
    ensures Rank(LetterFor(p)) <= Rank(LetterFor(q))
  {
  }

  /** The grade the caller supplied plays no part: saving overwrites it, and
      saving twice is saving once. */
  lemma SaveIgnoresSuppliedGrade(m: Mark, examTotal: real, supplied: Option<string>)
    requires examTotal != 0.0
    ensures Save(m.(grade := supplied), examTotal) == Save(m, examTotal)
    ensures Save(Save(m, examTotal).value, examTotal) == Save(m, examTotal)
  {
  }

  /** For a positive total, `obtained / total * 100 >= bound` is the
      division-free comparison `obtained * 100 >= bound * total`. */
  lemma PercentageAtLeast(obtained: real, total: real, bound: real)
    requires total > 0.0
    ensures Percentage(obtained, total) >= bound <==> obtained * 100.0 >= bound * total
  {
    var q := obtained / total;
    assert q * total == obtained;
    if q * 100.0 >= bound {
      assert q * 100.0 * total >= bound * total;
    } else {
      assert q * 100.0 * total < bound * total;
    }
  }

  /** The saved grade of a mark against a positive total, stated without
      division: the letter thresholds 80, 70, 60, 50, 40 are inclusive lower
      bounds on `marks_obtained * 100` against `threshold * total_marks`. */
  lemma SavedGradeBands(m: Mark, total: real)
    requires total > 0.0
    ensures var g := Save(m, total).value.grade.value; var o := m.marksObtained * 100.0;
      && (g == "A+" <==> o >= 80.0 * total)
      && (g == "A" <==> 70.0 * total <= o < 80.0 * total)
      && (g == "A-" <==> 60.0 * total <= o < 70.0 * total)
      && (g == "B" <==> 50.0 * total <= o < 60.0 * total)
      && (g == "C" <==> 40.0 * total <= o < 50.0 * total)
      && (g == "F" <==> o < 40.0 * total)
  {
    var p := Percentage(m.marksObtained, total);
    PercentageAtLeast(m.marksObtained, total, 80.0);
    PercentageAtLeast(m.marksObtained, total, 70.0);
    PercentageAtLeast(m.marksObtained, total, 60.0);
    PercentageAtLeast(m.marksObtained, total, 50.0);
    PercentageAtLeast(m.marksObtained, total, 40.0);
  }

  /** More marks against the same positive total never give a lower letter. */
  lemma SaveMonotoneInMarks(m: Mark, better: real, total: real)
    requires total > 0.0 && m.marksObtained <= better
    ensures Rank(LetterFor(Percentage(m.marksObtained, total)))
         <= Rank(LetterFor(Percentage(better, total)))
  {
    var q := 100.0 / total;
    assert Percentage(m.marksObtained, total) == m.marksObtained * q;
    assert Percentage(better, total) == better * q;
    assert m.marksObtained * q <= better * q;
    LetterForMonotone(Percentage(m.marksObtained, total), Percentage(better, total));
  }

  /** At most one mark per (exam, student) pair: `unique_together` on Mark. */
  ghost predicate UniqueExamStudent(ms: seq<Mark>)
  {
    forall i, j :: 0 <= i < j < |ms| ==> ms[i].exam != ms[j].exam || ms[i].student != ms[j].student
  }

  predicate HasExamStudent(ms: seq<Mark>, exam: nat, student: nat)
  {
    exists i :: 0 <= i < |ms| && ms[i].exam == exam && ms[i].student == student
  }

  /** Saving a new mark into the table: the grade is computed first, then the
      insert is refused by the unique constraint if the pair is taken. */
  function Create(ms: seq<Mark>, m: Mark, examTotal: real): (r: Result<seq<Mark>, SaveError>)
    ensures r.Failure? <==> examTotal == 0.0 || HasExamStudent(ms, m.exam, m.student)
    ensures r.Failure? && examTotal == 0.0 ==> r.error == DivisionUndefined
    ensures r.Failure? && examTotal != 0.0 ==> r.error == DuplicateExamStudent
    ensures r.Success? ==> r.value == ms + [Save(m, examTotal).value]
    ensures r.Success? && UniqueExamStudent(ms) ==> UniqueExamStudent(r.value)
  {
    match Save(m, examTotal)
    case Failure(e) => Failure(e)
    case Success(saved) =>
      if HasExamStudent(ms, m.exam, m.student) then Failure(DuplicateExamStudent)
      else Success(ms + [saved])
  }
}
