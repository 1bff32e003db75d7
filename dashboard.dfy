/** The aggregates of `DashboardView.get` (dashboard/views.py) over the
    legacy Mark table and the Student, Class and Session tables: grade
    distribution, passed count and pass percentage, average class size, and
    students per class and per session. */
module Dashboard {
  import opened Wrappers
  import opened Lex
  import opened Tally
  import opened Averages
  import opened Grading

  /** A student as the dashboard counts it: the class and session it belongs to. */
  datatype Student = Student(id: nat, classId: nat, sessionId: nat)

  /** A Class or Session row: its id and its name. */
  datatype Named = Named(id: nat, name: string)

  /** The grades the dashboard counts as passed, exactly as listed in the view. */
  const PassedGrades: set<string> := {"A+", "A", "B+", "B", "C+"}

  predicate IsPassed(g: Option<string>)
  {
    g.Some? && g.value in PassedGrades
  }

  function Grades(marks: seq<Mark>): (gs: seq<Option<string>>)
    ensures |gs| == |marks| && forall i :: 0 <= i < |marks| ==> gs[i] == marks[i].grade
  {
    seq(|marks|, i requires 0 <= i < |marks| => marks[i].grade)
  }

  /** The positions of the marks whose grade is in the passed list. */
  ghost function PassedIndices(marks: seq<Mark>): set<int>
  {
    set i | 0 <= i < |marks| && IsPassed(marks[i].grade)
  }

  /** `total_marks_passed`: the marks whose grade is in the passed list. */
  function PassedCount(marks: seq<Mark>): (n: nat)
    ensures n == |PassedIndices(marks)|
    ensures n <= |marks|
    ensures n == 0 <==> forall i :: 0 <= i < |marks| ==> !IsPassed(marks[i].grade)
    ensures n == |marks| <==> forall i :: 0 <= i < |marks| ==> IsPassed(marks[i].grade)
  {
    if marks == [] then 0
    else
      var k := |marks| - 1;
      PassedIndicesSplit(marks);
      (if IsPassed(marks[k].grade) then 1 else 0) + PassedCount(marks[..k])
  }

  /** The passed marks are those among all marks but the last, and the last
      one if it passed. */
  lemma PassedIndicesSplit(marks: seq<Mark>)
    requires marks != []
    ensures var k := |marks| - 1;
      PassedIndices(marks) == PassedIndices(marks[..k]) + (if IsPassed(marks[k].grade) then {k} else {})
  {
  }

  /** `pass_percentage`: passed marks as a percentage of all marks, 0 when
      there are none. */
  function PassPercentage(marks: seq<Mark>): (p: real)
    ensures |marks| == 0 ==> p == 0.0
    ensures |marks| > 0 ==> p == PassedCount(marks) as real / |marks| as real * 100.0
    ensures 0.0 <= p <= 100.0
  {
    var passed := PassedCount(marks);
    if |marks| > 0 then
      PercentBounds(passed, |marks|);
      passed as real / |marks| as real * 100.0
    else 0.0
  }

  /** `grade_distribution`: one (grade, count) entry per grade value present,
      ordered by grade with the NULL grade first, each with the number of
      marks holding it; the counts sum to the number of marks. */
  function GradeDistribution(marks: seq<Mark>): (d: seq<(Option<string>, nat)>)
    ensures KeysSorted(d, OptLess)
    ensures Total(d) == |marks|
    ensures forall i :: 0 <= i < |d| ==> d[i].1 > 0 && d[i].1 == Occ(Grades(marks), d[i].0)
    ensures forall g :: g in Keys(d) <==> exists i :: 0 <= i < |marks| && marks[i].grade == g
  {
    OptLessIsStrictTotalOrder();
    CountIsGroupBy(Grades(marks), OptLess);
    GradesPresent(marks);
    Count(Grades(marks), OptLess)
  }

  lemma GradesPresent(marks: seq<Mark>)
    ensures forall g :: g in Grades(marks) <==> exists i :: 0 <= i < |marks| && marks[i].grade == g
  {
    var gs := Grades(marks);
    forall g ensures g in gs <==> exists i :: 0 <= i < |marks| && marks[i].grade == g {
      if g in gs {
        var i :| 0 <= i < |gs| && gs[i] == g;
        assert marks[i].grade == g;
      }
      if exists i :: 0 <= i < |marks| && marks[i].grade == g {
        var i :| 0 <= i < |marks| && marks[i].grade == g;
        assert gs[i] == g;
      }
    }
  }

  /** A grade written by `Mark.save` counts as passed exactly when it is A+, A
      or B: the list names B+ and C+, which the grade rule never writes, and
      leaves out A- and C, which it does. */
  lemma SavedGradePassed(m: Mark, examTotal: real)
    requires examTotal != 0.0
    ensures var g := LetterFor(Percentage(m.marksObtained, examTotal));
      IsPassed(Save(m, examTotal).value.grade) <==> g == APlus || g == A || g == B
  {
  }

  /** Hence passing is not monotone in the percentage: 55 percent (B) passes
      while 65 percent (A-) does not. */
  lemma PassNotMonotoneInPercentage()
    ensures IsPassed(Some(LetterName(LetterFor(55.0))))
    ensures !IsPassed(Some(LetterName(LetterFor(65.0))))
  {
  }

  predicate NatLess(a: nat, b: nat)
  {
    a < b
  }

  lemma NatLessIsStrictTotalOrder()
    ensures StrictTotalOrder(NatLess)
  {
  }

  function ClassIds(students: seq<Student>): (ids: seq<nat>)
    ensures |ids| == |students| && forall i :: 0 <= i < |students| ==> ids[i] == students[i].classId
  {
    seq(|students|, i requires 0 <= i < |students| => students[i].classId)
  }

  function SessionIds(students: seq<Student>): (ids: seq<nat>)
    ensures |ids| == |students| && forall i :: 0 <= i < |students| ==> ids[i] == students[i].sessionId
  {
    seq(|students|, i requires 0 <= i < |students| => students[i].sessionId)
  }

  function CountsAsReals<K>(t: seq<(K, nat)>): (xs: seq<real>)
    ensures |xs| == |t|
  {
    if t == [] then [] else [t[0].1 as real] + CountsAsReals(t[1..])
  }

  lemma {:induction false} SumOfCounts<K>(t: seq<(K, nat)>)
    ensures Sum(CountsAsReals(t)) == Total(t) as real
  {
    if t != [] { SumOfCounts(t[1..]); }
  }

  /** `average_class_size`: the mean over the classes that have students of
      their number of students, which is the number of students divided by
      the number of distinct classes they belong to, or 0 without students. */
  function AverageClassSize(students: seq<Student>): (avg: real)
    ensures |students| == 0 ==> avg == 0.0
    ensures |students| > 0 ==> |Elems(ClassIds(students))| > 0
    ensures |students| > 0 ==> avg == |students| as real / |Elems(ClassIds(students))| as real
  {
    var t := Count(ClassIds(students), NatLess);
    NatLessIsStrictTotalOrder();
    CountIsGroupBy(ClassIds(students), NatLess);
    SumOfCounts(t);
    assert |students| > 0 ==> t != [];
    Mean(CountsAsReals(t))
  }

  /** `students_per_class` / `students_per_session`: every group row with
      the number of students in it, zero included, in table order. */
  function PerGroupCounts(groups: seq<Named>, memberOf: seq<nat>): (r: seq<(string, nat)>)
    ensures |r| == |groups|
    ensures forall i :: 0 <= i < |groups| ==>
      r[i].0 == groups[i].name && r[i].1 == multiset(memberOf)[groups[i].id]
  {
    if groups == [] then []
    else
      OccMultiplicity(memberOf, groups[0].id);
      [(groups[0].name, Occ(memberOf, groups[0].id))] + PerGroupCounts(groups[1..], memberOf)
  }

  lemma {:induction false} OccMultiplicity(xs: seq<nat>, k: nat)
    ensures Occ(xs, k) == multiset(xs)[k]
  {
    if xs != [] {
      assert xs == [xs[0]] + xs[1..];
      OccMultiplicity(xs[1..], k);
    }
  }

  /** `students_per_class`: every class with the number of its students, in
      table order; with distinct class ids and every student in a listed
      class, the counts add up to the number of students. */
  function StudentsPerClass(classes: seq<Named>, students: seq<Student>): (r: seq<(string, nat)>)
    ensures |r| == |classes|
    ensures forall i :: 0 <= i < |classes| ==>
      r[i].0 == classes[i].name && r[i].1 == multiset(ClassIds(students))[classes[i].id]
    ensures DistinctIds(classes)
      && (forall i :: 0 <= i < |students| ==> exists j :: 0 <= j < |classes| && classes[j].id == students[i].classId)
      ==> SumCounts(r) == |students|
  {
    var ids := ClassIds(students);
    PerGroupCountsCover(classes, ids);
    assert (forall i :: 0 <= i < |students| ==> exists j :: 0 <= j < |classes| && classes[j].id == students[i].classId)
      ==> AllListed(classes, ids);
    PerGroupCounts(classes, ids)
  }

  /** `students_per_session`: the same for sessions. */
  function StudentsPerSession(sessions: seq<Named>, students: seq<Student>): (r: seq<(string, nat)>)
    ensures |r| == |sessions|
    ensures forall i :: 0 <= i < |sessions| ==>
      r[i].0 == sessions[i].name && r[i].1 == multiset(SessionIds(students))[sessions[i].id]
    ensures DistinctIds(sessions)
      && (forall i :: 0 <= i < |students| ==> exists j :: 0 <= j < |sessions| && sessions[j].id == students[i].sessionId)
      ==> SumCounts(r) == |students|
  {
    var ids := SessionIds(students);
    PerGroupCountsCover(sessions, ids);
    assert (forall i :: 0 <= i < |students| ==> exists j :: 0 <= j < |sessions| && sessions[j].id == students[i].sessionId)
      ==> AllListed(sessions, ids);
    PerGroupCounts(sessions, ids)
  }

  function SumCounts(r: seq<(string, nat)>): nat
  {
    if r == [] then 0 else r[0].1 + SumCounts(r[1..])
  }

  function GroupIds(groups: seq<Named>): set<nat>
  {
    if groups == [] then {} else {groups[0].id} + GroupIds(groups[1..])
  }

  ghost predicate DistinctIds(groups: seq<Named>)
  {
    forall i, j :: 0 <= i < j < |groups| ==> groups[i].id != groups[j].id
  }

  /** Number of entries of `xs` whose value lies in `s`. */
  function OccIn(xs: seq<nat>, s: set<nat>): nat
  {
    if xs == [] then 0 else (if xs[0] in s then 1 else 0) + OccIn(xs[1..], s)
  }

  lemma {:induction false} OccInAdd(xs: seq<nat>, s: set<nat>, k: nat)
    requires k !in s
    ensures OccIn(xs, s + {k}) == OccIn(xs, s) + Occ(xs, k)
  {
    if xs != [] { OccInAdd(xs[1..], s, k); }
  }

  lemma {:induction false} OccInAll(xs: seq<nat>, s: set<nat>)
    requires forall i :: 0 <= i < |xs| ==> xs[i] in s
    ensures OccIn(xs, s) == |xs|
  {
    if xs != [] { OccInAll(xs[1..], s); }
  }

  lemma {:induction false} GroupIdsMembership(groups: seq<Named>, k: nat)
    ensures k in GroupIds(groups) <==> exists i :: 0 <= i < |groups| && groups[i].id == k
  {
    if groups != [] {
      GroupIdsMembership(groups[1..], k);
      if groups[0].id != k && k in GroupIds(groups[1..]) {
        var i :| 0 <= i < |groups[1..]| && groups[1..][i].id == k;
        assert groups[i + 1].id == k;
      }
      if exists i :: 0 <= i < |groups| && groups[i].id == k {
        var i :| 0 <= i < |groups| && groups[i].id == k;
        if i > 0 { assert groups[1..][i - 1].id == k; }
      }
    }
  }

  lemma {:induction false} PerGroupCountsSumsIds(groups: seq<Named>, xs: seq<nat>)
    requires DistinctIds(groups)
    ensures SumCounts(PerGroupCounts(groups, xs)) == OccIn(xs, GroupIds(groups))
  {
    if groups != [] {
      PerGroupCountsSumsIds(groups[1..], xs);
      GroupIdsMembership(groups[1..], groups[0].id);
      forall i | 0 <= i < |groups[1..]| ensures groups[1..][i].id != groups[0].id {
        assert groups[1..][i] == groups[i + 1];
      }
      OccInAdd(xs, GroupIds(groups[1..]), groups[0].id);
      assert GroupIds(groups) == GroupIds(groups[1..]) + {groups[0].id};
    } else {
      OccInEmpty(xs);
    }
  }

  lemma {:induction false} OccInEmpty(xs: seq<nat>)
    ensures OccIn(xs, {}) == 0
  {
    if xs != [] { OccInEmpty(xs[1..]); }
  }

  /** With distinct group ids and every member in a listed group, the
      per-group counts add up to the number of members. */
  lemma PerGroupCountsCover(groups: seq<Named>, xs: seq<nat>)
    ensures DistinctIds(groups) && AllListed(groups, xs) ==> SumCounts(PerGroupCounts(groups, xs)) == |xs|
  {
    if DistinctIds(groups) && AllListed(groups, xs) {
      ListedIds(groups, xs);
      PerGroupCountsListed(groups, xs);
    }
  }

  /** Every member id is the id of one of the groups. */
  ghost predicate AllListed(groups: seq<Named>, xs: seq<nat>)
  {
    forall i :: 0 <= i < |xs| ==> exists j :: 0 <= j < |groups| && groups[j].id == xs[i]
  }

  /** A member whose group is among `groups` has its id in their id set. */
  lemma ListedIds(groups: seq<Named>, xs: seq<nat>)
    requires AllListed(groups, xs)
    ensures forall i :: 0 <= i < |xs| ==> xs[i] in GroupIds(groups)
  {
    forall i | 0 <= i < |xs| ensures xs[i] in GroupIds(groups) {
      GroupIdsMembership(groups, xs[i]);
    }
  }

  lemma PerGroupCountsListed(groups: seq<Named>, xs: seq<nat>)
    requires DistinctIds(groups)
    requires forall i :: 0 <= i < |xs| ==> xs[i] in GroupIds(groups)
    ensures SumCounts(PerGroupCounts(groups, xs)) == |xs|
  {
    PerGroupCountsSumsIds(groups, xs);
    OccInAll(xs, GroupIds(groups));
  }
}
