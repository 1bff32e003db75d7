/** The read side of ExamMarkViewSet (exams/views.py): the filtered and
    ordered listing `get_queryset`, the `by_exam` action and the `report`
    action with its two averages. */
module MarkQueries {
  import opened Wrappers
  import opened ExamRecords
  import opened Lex
  import opened Averages

  /** Query-string parameters; `None` when the request does not carry one.
      Numeric ids are given or not; text parameters follow Python truthiness,
      so an empty string imposes no filter. */
  datatype Params = Params(
    examName: Option<string>,
    subject: Option<nat>,
    session: Option<nat>,
    group: Option<string>,
    student: Option<nat>)

  const NoParams := Params(None, None, None, None, None)

  predicate Given(p: Option<string>)
  {
    p.Some? && p.value != ""
  }

  /** One row passes every filter the parameters ask for. */
  predicate Matches(students: map<nat, Student>, params: Params, r: ExamMark)
  {
    && (Given(params.examName) ==> r.examName == params.examName.value)
    && (params.subject.Some? ==> r.subject == params.subject.value)
    && (params.session.Some? ==> r.session == params.session.value)
    && (Given(params.group) ==>
          r.student in students && students[r.student].group == Some(params.group.value))
    && (params.student.Some? ==> r.student == params.student.value)
  }

  function Filter(students: map<nat, Student>, params: Params, rows: seq<ExamMark>): (out: seq<ExamMark>)
    ensures forall r :: r in out <==> r in rows && Matches(students, params, r)
    ensures multiset(out) <= multiset(rows)
    ensures forall r :: multiset(out)[r] == if Matches(students, params, r) then multiset(rows)[r] else 0
    ensures params == NoParams ==> out == rows
  {
    if rows == [] then []
    else
      assert rows == [rows[0]] + rows[1..];
      var rest := Filter(students, params, rows[1..]);
      if Matches(students, params, rows[0]) then [rows[0]] + rest else rest
  }

  /** The roll number of a row's student. */
  function Roll(students: map<nat, Student>, r: ExamMark): string
  {
    if r.student in students then students[r.student].rollNumber else ""
  }

  /** `a` may come before `b` under `order_by('exam_name', 'student__roll_number')`. */
  predicate Before(students: map<nat, Student>, a: ExamMark, b: ExamMark)
  {
    StrLess(a.examName, b.examName)
    || (a.examName == b.examName && !StrLess(Roll(students, b), Roll(students, a)))
  }

  ghost predicate Ordered(students: map<nat, Student>, s: seq<ExamMark>)
  {
    forall i, j :: 0 <= i < j < |s| ==> Before(students, s[i], s[j])
  }

  lemma BeforeTotal(students: map<nat, Student>, a: ExamMark, b: ExamMark)
    ensures Before(students, a, b) || Before(students, b, a)
  {
    if a.examName != b.examName {
      StrLessTotal(a.examName, b.examName);
    } else if StrLess(Roll(students, b), Roll(students, a)) {
      StrLessAsymmetric(Roll(students, b), Roll(students, a));
    }
  }

  lemma BeforeTransitive(students: map<nat, Student>, a: ExamMark, b: ExamMark, c: ExamMark)
    requires Before(students, a, b) && Before(students, b, c)
    ensures Before(students, a, c)
  {
    if StrLess(a.examName, b.examName) && StrLess(b.examName, c.examName) {
      StrLessTransitive(a.examName, b.examName, c.examName);
    } else if a.examName == b.examName == c.examName {
      var ra, rb, rc := Roll(students, a), Roll(students, b), Roll(students, c);
      if StrLess(rc, ra) {
        if ra == rb {
        } else if StrLess(ra, rb) {
          StrLessTransitive(rc, ra, rb);
        } else {
          StrLessTotal(ra, rb);
        }
      }
    }
  }

  function Insert(students: map<nat, Student>, x: ExamMark, s: seq<ExamMark>): (r: seq<ExamMark>)
    ensures multiset(r) == multiset(s) + multiset{x}
  {
    if s == [] then [x]
    else if Before(students, x, s[0]) then [x] + s
    else
      assert s == [s[0]] + s[1..];
      [s[0]] + Insert(students, x, s[1..])
  }

  lemma {:induction false} InsertOrdered(students: map<nat, Student>, x: ExamMark, s: seq<ExamMark>)
    requires Ordered(students, s)
    ensures Ordered(students, Insert(students, x, s))
  {
    if s == [] {
    } else if Before(students, x, s[0]) {
      forall j | 0 <= j < |s| ensures Before(students, x, s[j]) {
        if j > 0 { BeforeTransitive(students, x, s[0], s[j]); }
      }
      var r := [x] + s;
      forall i, j | 0 <= i < j < |r| ensures Before(students, r[i], r[j]) {
        assert r[j] == s[j - 1];
        if i > 0 { assert r[i] == s[i - 1]; }
      }
    } else {
      BeforeTotal(students, x, s[0]);
      InsertOrdered(students, x, s[1..]);
      var rest := Insert(students, x, s[1..]);
      forall j | 0 <= j < |rest| ensures Before(students, s[0], rest[j]) {
        assert rest[j] in multiset(rest);
        if rest[j] != x {
          assert rest[j] in multiset(s[1..]);
          var k :| 0 <= k < |s[1..]| && s[1..][k] == rest[j];
          assert s[k + 1] == rest[j];
        }
      }
    }
  }

  /** The rows in `order_by('exam_name', 'student__roll_number')` order. */
  function Sort(students: map<nat, Student>, s: seq<ExamMark>): (r: seq<ExamMark>)
    ensures multiset(r) == multiset(s)
    ensures Ordered(students, r)
  {
    if s == [] then []
    else
      assert s == [s[0]] + s[1..];
      InsertOrdered(students, s[0], Sort(students, s[1..]));
      Insert(students, s[0], Sort(students, s[1..]))
  }

  /** `get_queryset`: the AND of the filters the parameters give, ordered by
      exam name and then by the student's roll number. Every stored row that
      passes the filters is listed exactly as often as it is stored. */
  function Query(rows: seq<ExamMark>, students: map<nat, Student>, params: Params): (out: seq<ExamMark>)
    ensures forall r :: r in out <==> r in rows && Matches(students, params, r)
    ensures multiset(out) == multiset(Filter(students, params, rows)) <= multiset(rows)
    ensures Ordered(students, out)
    ensures params == NoParams ==> multiset(out) == multiset(rows)
  {
    var out := Sort(students, Filter(students, params, rows));
    SameMembers(out, Filter(students, params, rows));
    out
  }

  lemma SameMembers(a: seq<ExamMark>, b: seq<ExamMark>)
    requires multiset(a) == multiset(b)
    ensures forall r :: r in a <==> r in b
  {
    forall r ensures r in a <==> r in b {
      assert r in a <==> r in multiset(a);
      assert r in b <==> r in multiset(b);
    }
  }

  /** Keep the rows of one exam, in their order (`.filter(exam_name=...)`). */
  function OfExam(s: seq<ExamMark>, name: string): (out: seq<ExamMark>)
    ensures forall r :: r in out <==> r in s && r.examName == name
  {
    if s == [] then []
    else
      assert s == [s[0]] + s[1..];
      if s[0].examName == name then [s[0]] + OfExam(s[1..], name) else OfExam(s[1..], name)
  }

  /** Filtering a listing again on a condition all its rows meet changes nothing. */
  lemma {:induction false} OfExamKeepsAll(s: seq<ExamMark>, name: string)
    requires forall r :: r in s ==> r.examName == name
    ensures OfExam(s, name) == s
  {
    if s != [] {
      assert s[0] in s;
      forall r | r in s[1..] ensures r in s { }
      OfExamKeepsAll(s[1..], name);
    }
  }

  datatype ByExamResult = ByExamResult(examName: string, count: nat, marks: seq<ExamMark>)

  /** `by_exam`: 400 without an exam name; otherwise the listing for that
      exam and its size. The listing already carries the exam-name filter, so
      the action's second filter leaves it as it is. */
  function ByExam(rows: seq<ExamMark>, students: map<nat, Student>, params: Params)
    : (r: Result<ByExamResult, string>)
    ensures r.Failure? <==> !Given(params.examName)
    ensures r.Success? ==> r.value.examName == params.examName.value
    ensures r.Success? ==> r.value.marks == Query(rows, students, params)
    ensures r.Success? ==> r.value.count == |r.value.marks|
    ensures r.Success? ==> forall m :: m in r.value.marks <==>
              m in rows && m.examName == params.examName.value && Matches(students, params, m)
  {
    if !Given(params.examName) then Failure("exam_name parameter is required")
    else
      var listing := Query(rows, students, params);
      OfExamKeepsAll(listing, params.examName.value);
      var marks := OfExam(listing, params.examName.value);
      Success(ByExamResult(params.examName.value, |marks|, marks))
  }

  /** Integer division truncating toward zero, as SQL divides two integer
      columns (`F('present') * 100 / F('total_class')`). */
  function TruncDiv(a: int, b: int): (q: int)
    requires b > 0
    ensures a >= 0 ==> q == a / b
  {
    if a >= 0 then a / b else -((-a) / b)
  }

  /** Truncation rounds toward zero from both sides: negating the dividend
      negates the quotient (Euclidean division would not). */
  lemma TruncDivOdd(a: int, b: int)
    requires b > 0
    ensures TruncDiv(-a, b) == -TruncDiv(a, b)
  {
  }

  /** A row's attendance term `present * 100 / total_class`, dividing the
      integer columns as SQL does. */
  function Term(r: ExamMark): real
    requires r.totalClass > 0
  {
    TruncDiv(r.present * 100, r.totalClass) as real
  }

  /** The number of rows whose `total_marks` is known and equal to `x`. */
  ghost function TotalCount(s: seq<ExamMark>, x: real): nat
  {
    |set i | 0 <= i < |s| && s[i].totalMarks == Some(x)|
  }

  /** The number of rows with classes held whose attendance term is `x`. */
  ghost function TermCount(s: seq<ExamMark>, x: real): nat
  {
    |set i | 0 <= i < |s| && s[i].totalClass > 0 && Term(s[i]) == x|
  }

  /** The non-NULL `total_marks` of the rows, in order: each value occurs as
      often as rows carry it as their total, and nothing else occurs. */
  function KnownTotals(s: seq<ExamMark>): (xs: seq<real>)
    ensures forall x :: multiset(xs)[x] == TotalCount(s, x)
    ensures |xs| == |set i | 0 <= i < |s| && s[i].totalMarks.Some?| <= |s|
    ensures forall i :: 0 <= i < |s| && s[i].totalMarks.Some? ==> s[i].totalMarks.value in xs
    ensures forall x :: x in xs ==> exists r :: r in s && r.totalMarks == Some(x)
  {
    if s == [] then []
    else
      var init, last := s[..|s| - 1], s[|s| - 1];
      var rest := KnownTotals(init);
      KnownIndicesSplit(s);
      assert s == init + [last];
      TotalsSnoc(init, last, rest);
      if last.totalMarks.Some? then rest + [last.totalMarks.value] else rest
  }

  /** The per-row attendance term `present * 100 / total_class` (integer
      division) of the rows with classes held, in order: each term occurs as
      often as rows with total_class > 0 have it, and nothing else occurs. */
  function AttendanceTerms(s: seq<ExamMark>): (xs: seq<real>)
    ensures forall x :: multiset(xs)[x] == TermCount(s, x)
    ensures |xs| == |set i | 0 <= i < |s| && s[i].totalClass > 0| <= |s|
    ensures forall i :: 0 <= i < |s| && s[i].totalClass > 0 ==>
      Term(s[i]) in xs
    ensures forall x :: x in xs ==>
      exists r :: r in s && r.totalClass > 0 && x == Term(r)
  {
    if s == [] then []
    else
      var init, last := s[..|s| - 1], s[|s| - 1];
      var rest := AttendanceTerms(init);
      HeldIndicesSplit(s);
      assert s == init + [last];
      TermsSnoc(init, last, rest);
      if last.totalClass > 0 then rest + [Term(last)] else rest
  }

  /** The rows of `s` with a known total: those of all rows but the last,
      and the last one if its total is known. */
  lemma KnownIndicesSplit(s: seq<ExamMark>)
    requires s != []
    ensures var n := |s| - 1;
      |set i | 0 <= i < |s| && s[i].totalMarks.Some?|
        == |set i | 0 <= i < n && s[..n][i].totalMarks.Some?| + (if s[n].totalMarks.Some? then 1 else 0)
  {
    var n := |s| - 1;
    var all, init := set i | 0 <= i < |s| && s[i].totalMarks.Some?, set i | 0 <= i < n && s[..n][i].totalMarks.Some?;
    assert n !in init;
    assert all == init + (if s[n].totalMarks.Some? then {n} else {});
  }

  /** The same split for the rows with classes held. */
  lemma HeldIndicesSplit(s: seq<ExamMark>)
    requires s != []
    ensures var n := |s| - 1;
      |set i | 0 <= i < |s| && s[i].totalClass > 0|
        == |set i | 0 <= i < n && s[..n][i].totalClass > 0| + (if s[n].totalClass > 0 then 1 else 0)
  {
    var n := |s| - 1;
    var all, init := set i | 0 <= i < |s| && s[i].totalClass > 0, set i | 0 <= i < n && s[..n][i].totalClass > 0;
    assert n !in init;
    assert all == init + (if s[n].totalClass > 0 then {n} else {});
  }

  /** Per value, the rows with that known total: those of the rows before
      the last, and the last one if it carries it. */
  lemma TotalCountSplit(init: seq<ExamMark>, last: ExamMark)
    ensures forall x ::
      TotalCount(init + [last], x) == TotalCount(init, x) + (if last.totalMarks == Some(x) then 1 else 0)
  {
    var s, n := init + [last], |init|;
    forall x ensures TotalCount(s, x) == TotalCount(init, x) + (if last.totalMarks == Some(x) then 1 else 0) {
      var all := set i | 0 <= i < |s| && s[i].totalMarks == Some(x);
      var pre := set i | 0 <= i < n && init[i].totalMarks == Some(x);
      assert n !in pre;
      assert all == pre + (if last.totalMarks == Some(x) then {n} else {});
    }
  }

  /** Appending the last row's total, when it is known, to totals counted
      right for the rows before it counts them right for all rows, and keeps
      every known total among them and every one a row's total. */
  lemma TotalsSnoc(init: seq<ExamMark>, last: ExamMark, rest: seq<real>)
    requires forall x :: multiset(rest)[x] == TotalCount(init, x)
    requires forall i :: 0 <= i < |init| && init[i].totalMarks.Some? ==> init[i].totalMarks.value in rest
    requires forall x :: x in rest ==> exists r :: r in init && r.totalMarks == Some(x)
    ensures var s, xs := init + [last], if last.totalMarks.Some? then rest + [last.totalMarks.value] else rest;
      && (forall x :: multiset(xs)[x] == TotalCount(s, x))
      && (forall i :: 0 <= i < |s| && s[i].totalMarks.Some? ==> s[i].totalMarks.value in xs)
      && (forall x :: x in xs ==> exists r :: r in s && r.totalMarks == Some(x))
  {
    TotalCountSplit(init, last);
    forall r | r in init ensures r in init + [last] { }
  }

  /** Appending the last row's term, when it has one, to terms counted
      right for all rows but the last counts them right for all rows, and
      keeps every held row's term among them and every one a row's term. */
  lemma TermsSnoc(init: seq<ExamMark>, last: ExamMark, rest: seq<real>)
    requires forall x :: multiset(rest)[x] == TermCount(init, x)
    requires forall i :: 0 <= i < |init| && init[i].totalClass > 0 ==> Term(init[i]) in rest
    requires forall x :: x in rest ==> exists r :: r in init && r.totalClass > 0 && x == Term(r)
    ensures var s, xs := init + [last], if last.totalClass > 0 then rest + [Term(last)] else rest;
      && (forall x :: multiset(xs)[x] == TermCount(s, x))
      && (forall i :: 0 <= i < |s| && s[i].totalClass > 0 ==> Term(s[i]) in xs)
      && (forall x :: x in xs ==> exists r :: r in s && r.totalClass > 0 && x == Term(r))
  {
    TermCountSplit(init, last);
    forall r | r in init ensures r in init + [last] { }
  }

  /** The same split for the attendance terms. */
  lemma TermCountSplit(init: seq<ExamMark>, last: ExamMark)
    ensures forall x ::
      TermCount(init + [last], x) == TermCount(init, x) + (if last.totalClass > 0 && Term(last) == x then 1 else 0)
  {
    var s, n := init + [last], |init|;
    forall x ensures TermCount(s, x) == TermCount(init, x) + (if last.totalClass > 0 && Term(last) == x then 1 else 0) {
      var all := set i | 0 <= i < |s| && s[i].totalClass > 0 && Term(s[i]) == x;
      var pre := set i | 0 <= i < n && init[i].totalClass > 0 && Term(init[i]) == x;
      assert n !in pre;
      assert all == pre + (if last.totalClass > 0 && Term(last) == x then {n} else {});
    }
  }

  datatype Statistics = Statistics(totalRecords: nat, averageMarks: real, averageAttendance: real)

  datatype Report = Report(
    examName: Option<string>,
    subject: Option<nat>,
    session: Option<nat>,
    statistics: Statistics,
    marks: seq<ExamMark>)

  /** The rows of a report filtered again by the report's own three filters:
      exam name (when given and not empty), subject and session. */
  function ReFilter(s: seq<ExamMark>, params: Params): (out: seq<ExamMark>)
    ensures forall r :: r in out <==>
      && r in s
      && (Given(params.examName) ==> r.examName == params.examName.value)
      && (params.subject.Some? ==> r.subject == params.subject.value)
      && (params.session.Some? ==> r.session == params.session.value)
    ensures multiset(out) <= multiset(s)
  {
    Filter(map[], Params(params.examName, params.subject, params.session, None, None), s)
  }

  /** `report`: the listing for the parameters, refiltered by exam name,
      subject and session; its size, the mean of its known total marks and
      the mean of its per-row attendance terms, each 0 when nothing qualifies. */
  function RunReport(rows: seq<ExamMark>, students: map<nat, Student>, params: Params): (r: Report)
    ensures r.examName == params.examName && r.subject == params.subject && r.session == params.session
    ensures r.marks == Query(rows, students, params)
    ensures r.statistics.totalRecords == |r.marks|
    ensures r.statistics.averageMarks == Mean(KnownTotals(r.marks))
    ensures r.statistics.averageAttendance == Mean(AttendanceTerms(r.marks))
  {
    var listing := Query(rows, students, params);
    ReFilterKeepsAll(listing, params, students);
    var marks := ReFilter(listing, params);
    Report(params.examName, params.subject, params.session,
           Statistics(|marks|, Mean(KnownTotals(marks)), Mean(AttendanceTerms(marks))),
           marks)
  }

  lemma {:induction false} ReFilterKeepsAll(s: seq<ExamMark>, params: Params, students: map<nat, Student>)
    requires forall r :: r in s ==> Matches(students, params, r)
    ensures ReFilter(s, params) == s
  {
    if s != [] {
      assert s == [s[0]] + s[1..];
      assert s[0] in s;
      forall r | r in s[1..] ensures r in s { }
      ReFilterKeepsAll(s[1..], params, students);
    }
  }

  /** Each attendance term of a row whose present count lies between 0 and its
      classes lies in [0, 100]. */
  lemma {:induction false} AttendanceTermsBetween(s: seq<ExamMark>)
    requires forall i :: 0 <= i < |s| ==> 0 <= s[i].present <= s[i].totalClass
    ensures AllBetween(AttendanceTerms(s), 0.0, 100.0)
  {
    if s != [] {
      var last := s[|s| - 1];
      AttendanceTermsBetween(s[..|s| - 1]);
      if last.totalClass > 0 {
        DivBounded(last.present * 100, last.totalClass, 100);
      }
    }
  }

  /** `0 <= n <= bound * d` gives `0 <= n / d <= bound`. */
  lemma DivBounded(n: int, d: int, bound: nat)
    requires d > 0 && 0 <= n <= bound * d
    ensures 0 <= n / d <= bound
  {
    var q, m := n / d, n % d;
    assert n == d * q + m && 0 <= m < d;
  }

  lemma {:induction false} KnownTotalsBetween(s: seq<ExamMark>, lo: real, hi: real)
    requires forall i :: 0 <= i < |s| ==> s[i].totalMarks.Some? ==> lo <= s[i].totalMarks.value <= hi
    ensures AllBetween(KnownTotals(s), lo, hi)
  {
    if s != [] {
      KnownTotalsBetween(s[..|s| - 1], lo, hi);
    }
  }

  /** Bounds of the report: when every stored total lies in [0, 100] so does
      the average mark, and when no row counts more presences than classes the
      average attendance lies in [0, 100]. */
  lemma ReportAveragesBounded(rows: seq<ExamMark>, students: map<nat, Student>, params: Params)
    requires forall i :: 0 <= i < |rows| ==> rows[i].totalMarks.Some? ==> 0.0 <= rows[i].totalMarks.value <= 100.0
    requires forall i :: 0 <= i < |rows| ==> 0 <= rows[i].present <= rows[i].totalClass
    ensures 0.0 <= RunReport(rows, students, params).statistics.averageMarks <= 100.0
    ensures 0.0 <= RunReport(rows, students, params).statistics.averageAttendance <= 100.0
  {
    var marks := RunReport(rows, students, params).marks;
    forall i | 0 <= i < |marks| ensures marks[i] in rows { assert marks[i] in marks; }
    KnownTotalsBetween(marks, 0.0, 100.0);
    MeanBetween(KnownTotals(marks), 0.0, 100.0);
    AttendanceTermsBetween(marks);
    MeanBetween(AttendanceTerms(marks), 0.0, 100.0);
  }

  /** Two rows with totals 80 and 40, each of 10 classes, 10 and 5 of them
      attended: the averages are 60 marks and (100 + 50) / 2 = 75 percent. */
  lemma ReportAveragesExample(a: ExamMark, b: ExamMark)
    requires a.totalMarks == Some(80.0) && a.totalClass == 10 && a.present == 10
    requires b.totalMarks == Some(40.0) && b.totalClass == 10 && b.present == 5
    ensures Mean(KnownTotals([a, b])) == 60.0
    ensures Mean(AttendanceTerms([a, b])) == 75.0
  {
    assert [a, b][..1] == [a] && [a][..0] == [];
    assert KnownTotals([a, b]) == [80.0, 40.0];
    assert [80.0, 40.0][1..] == [40.0];
    assert Sum([80.0, 40.0]) == 120.0;
    assert TruncDiv(1000, 10) == 100 && TruncDiv(500, 10) == 50;
    assert AttendanceTerms([a, b]) == [100.0, 50.0];
    assert [100.0, 50.0][1..] == [50.0];
    assert Sum([100.0, 50.0]) == 150.0;
  }
}
