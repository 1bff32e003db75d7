# Exam marks, bulk imports and dashboard aggregates of a college administration system

This project models, in Dafny, the parts of a Django college-administration
application that compute something rather than store or route it:

- the legacy grade rule of `Mark.save`, which maps a mark's percentage of the
  exam's total to one of six letters, and the one-mark-per-(exam, student)
  constraint of the Mark table (module `Grading`);
- `ExamMarkCreateUpdateSerializer.validate` and the attendance-percentage
  getters of the list and detail serializers (module `MarkValidation`, over the
  row and payload types of `ExamRecords`);
- the read side of `ExamMarkViewSet`: the filtered, ordered listing
  `get_queryset`, the `by_exam` action and the `report` action with its two
  averages (module `MarkQueries`);
- the `bulk_update` action, which creates or updates ExamMark rows one item at
  a time and reports per-item failures (module `BulkMarks`, a `MarkStore`
  class whose method is proved against a specification fold);
- `BulkSubjectImportSerializer.create`, the sequential insert of subjects into
  a code-keyed table (module `SubjectImport`, a `SubjectTable` class proved
  against a specification fold);
- the aggregates of `DashboardView.get`: grade distribution, passed count,
  pass percentage, average class size and students per class and per session
  (module `Dashboard`).

Supporting modules: `Wrappers` (Option, Result), `Lex` (the order of text
columns: code point by code point, a proper prefix first, NULL before any
string), `Tally` (GROUP BY with COUNT, ordered by key) and `Averages` (SUM and
AVG over exact rationals).

Modelling choices:

- Decimal fields are exact rationals (`real`); floating-point output and
  `round(..., 2)` are not modelled.
- The attendance term `present * 100 / total_class` of `report` divides two
  integer columns in SQL, so the model truncates toward zero (`TruncDiv`)
  before averaging.
- The store is a sequence of rows; the database's lookups, filters and
  ordering are functions over it.
- The grade distribution puts the NULL grade first (an ascending ORDER BY on
  SQLite, Django's default database).
- The ExamMark model class is not part of this model. What it contributes to a
  write is a parameter (`BulkMarks.RowHooks`): the defaults of the attendance
  columns and the `total_marks` its save computes. Its four key columns
  (`exam_name`, `student`, `subject`, `session`) are taken as required and
  non-null, so a create request must carry them.

Where the repository's files disagree with each other, the model follows the
views and serializers:

- The exam views and serializers key marks on
  `(exam_name, student, subject, session)`, while
  exams/migrations/0004_consolidate_exam_models.py:69 declares
  `unique_together` on `(exam_type, exam_date, student, subject, session)`.
- `get_queryset` orders by exam name and then by roll number. The same
  migration's model ordering (line 80) starts with `-exam_date`.
- The grade rule exists only in the legacy `Mark.save`, where the grade is a
  percentage of the exam's total. No recomputation of `total_marks` or `grade`
  for ExamMark appears in the files modelled here.
- The dashboard's passed list is `A+, A, B+, B, C+`. It leaves out `A-` and
  `C`, which the grade rule writes, and names `B+` and `C+`, which the rule
  never writes. `Dashboard.SavedGradePassed` and
  `Dashboard.PassNotMonotoneInPercentage` state what follows from this: 55
  percent passes and 65 percent does not.
- The views filter on a student's `group`, which the Student model as shown
  does not declare. The import writes a subject's `group` and `category`,
  which the Subject model as shown does not declare either. The import also
  writes a NULL `class_name`, although the Subject model declares it as a
  non-null foreign key (academics/models.py:28). The model follows the views
  and the serializer.

## Model

| member | source | states |
|---|---|---|
| `Grading.LetterFor` | exams/models.py:46-58 | each letter owns its band: A+ exactly at 80 or more; A, A-, B, C on [70,80), [60,70), [50,60), [40,50); F exactly below 40 |
| `Grading.Save` | exams/models.py:44-59 | fails exactly when the exam total is 0; otherwise only the grade changes, it is always one of the six letters, and it is the letter of the mark's percentage |
| `Grading.LetterForMonotone` | exams/models.py:47-58 | a higher percentage never yields a lower letter |
| `Grading.SaveIgnoresSuppliedGrade` | exams/models.py:44-59 | the saved grade does not depend on any grade the caller supplied, and saving twice is the same as saving once |
| `Grading.PercentageAtLeast` | exams/models.py:46-47 | for a positive total, percentage >= b is the same as marks * 100 >= b * total |
| `Grading.SavedGradeBands` | exams/models.py:46-58 | the six letters as division-free inclusive lower bounds on marks * 100 against 80/70/60/50/40 times the total |
| `Grading.SaveMonotoneInMarks` | exams/models.py:46-58 | against the same positive total, more marks never give a lower letter |
| `Grading.Create` | exams/models.py:59-62 | an insert fails exactly when the total is 0 (the division error) or the (exam, student) pair is already stored (the unique-constraint error); otherwise it appends the graded mark, and the table keeps at most one mark per pair |
| `MarkValidation.Validate` | exams/serializers.py:124-154 | fails exactly when present + absent > total_class (missing fields read as 10 / 0 / 0), or when there is no instance and a stored row has the same (exam_name, student, subject, session); the attendance error is reported first; on update only the attendance check applies; on success the input is returned unchanged |
| `MarkValidation.ValidateIgnoresInstanceFields` | exams/serializers.py:127-143 | an update's outcome does not depend on the stored instance's fields or on the other stored rows |
| `MarkValidation.AttendanceDefaultsExamples` | exams/serializers.py:127-134 | an empty payload passes the attendance check; `present = 11` alone fails it; present 8, absent 3, total 10 fails it |
| `MarkValidation.MissingRequired` | exams/serializers.py:116-122 | names exactly the absent ones among exam_name, student, subject and session, and nothing else; empty exactly when all four are present |
| `MarkValidation.IsValid` | exams/serializers.py:113-154 | a create lacking required fields fails naming all of them, before `validate` runs; otherwise, and on every update, the result is `validate`'s; success means the payload is unchanged, its attendance is consistent and, on create, it is complete and no duplicate |
| `MarkValidation.Created` | exams/serializers.py:116-122 | a created row carries the payload's key fields, its given component marks (NULL otherwise), and its given attendance fields (column defaults otherwise) |
| `MarkValidation.Updated` | exams/serializers.py:116-122 | a partial update overwrites exactly the fields the payload carries and keeps id and total_marks; an empty payload changes nothing |
| `MarkValidation.AttendancePercentage` | exams/serializers.py:26-30 | 0 when total_class is not positive; otherwise the value whose product with total_class is present * 100, lying in [0, 100] when 0 <= present <= total_class |
| `MarkValidation.SummaryOf` | exams/serializers.py:82-93 | the detail summary copies the attendance fields and its percentage equals the list serializer's |
| `MarkQueries.Filter` | exams/views.py:49-72 | keeps exactly the rows matching every given filter, each as often as it is stored, an empty text parameter imposing none; with no parameters it keeps every row |
| `MarkQueries.Sort` | exams/views.py:74 | a permutation of its input ordered by exam name, then by student roll number |
| `MarkQueries.Query` | exams/views.py:45-74 | lists exactly the stored rows matching every given filter, as often as they are stored, ordered by exam name and then roll number; no filters list every row |
| `MarkQueries.OfExamKeepsAll` | exams/views.py:86 | filtering the listing again by the exam name it was already filtered by changes nothing |
| `MarkQueries.ByExam` | exams/views.py:76-92 | 400 exactly when exam_name is missing or empty; otherwise the listing for that exam, whose count is its length and whose rows are exactly the stored rows of that exam passing the filters |
| `MarkQueries.TruncDiv` | exams/views.py:176 | agrees with floor division on non-negative dividends |
| `MarkQueries.TruncDivOdd` | exams/views.py:176 | negating the dividend negates the quotient (rounding toward zero) |
| `MarkQueries.KnownTotals` | exams/views.py:172-174 | each value occurs exactly as many times as rows carry it as their non-NULL total_marks, so there are as many values as such rows; every such row's total is among them, and every value is the total of some row |
| `MarkQueries.AttendanceTerms` | exams/views.py:175-177 | each term occurs exactly as many times as rows with total_class > 0 have present * 100 / total_class (integer division) equal to it, so there are as many terms as such rows; each such row's term is among them, and every term is that of some such row |
| `MarkQueries.ReFilterKeepsAll` | exams/views.py:161-168 | the report's second filtering by exam name, subject and session changes nothing |
| `MarkQueries.ReFilter` | exams/views.py:163-168 | keeps exactly the rows matching the exam name (when given and not empty), the subject and the session, never more often than stored |
| `MarkQueries.RunReport` | exams/views.py:154-191 | the report echoes the exam name, subject and session filters it was given and lists the query's rows; total_records is their number; average_marks is the mean of their known totals and average_attendance the mean of their attendance terms, each 0 when nothing qualifies |
| `MarkQueries.ReportAveragesBounded` | exams/views.py:171-188 | with totals in [0, 100] and 0 <= present <= total_class, both averages lie in [0, 100] |
| `MarkQueries.ReportAveragesExample` | exams/views.py:171-188 | totals 80 and 40, with attendance 10/10 and 5/10, give average marks 60 and average attendance 75 |
| `BulkMarks.IndexOf` | exams/views.py:126 | finds a row with the requested id, or reports that none is stored |
| `BulkMarks.Step` | exams/views.py:121-146 | each item either adds one to `updated` or appends exactly one error, keeping the earlier errors; a reported item leaves the store and the next id unchanged |
| `BulkMarks.Run` | exams/views.py:118-151 | over a batch, updated + len(errors) grows by exactly the number of items, and errors are only appended |
| `BulkMarks.NotFoundLeavesStore` | exams/views.py:123-146 | an id that is not stored appends 'not found' for that id and changes neither the store nor the count |
| `BulkMarks.UpdateTouchesOneRow` | exams/views.py:124-136 | an update leaves every row but the one with the item's id untouched and keeps that row's id; when the payload passes the attendance check the row becomes the partial merge of the payload as ExamMark's save stores it, and the update count rises by one with no new error; otherwise no row changes, the count stays, and the attendance error for the item's student is appended |
| `BulkMarks.StepKeepsIds` | exams/views.py:121-146 | one item keeps row ids distinct and below the next id, and no stored row is lost or renumbered |
| `BulkMarks.RunKeepsIds` | exams/views.py:118-151 | the same for a whole batch |
| `BulkMarks.CreateAppends` | exams/views.py:130-136 | a complete, consistent, new create appends its row and counts as updated |
| `BulkMarks.CreateRejected` | exams/views.py:130-141 | a create the serializer rejects against the store as it stands (missing key fields, inconsistent attendance, or a key already stored) changes no row and no count, and appends exactly that serializer error for the item's student |
| `BulkMarks.RepeatedCreateRejected` | exams/views.py:130-141 | the same new create twice in one batch stores one row, counts one update, and reports the second as a duplicate, because each item is checked against the store as the earlier items left it |
| `BulkMarks.BadMiddleItemExample` | exams/views.py:118-152 | three creates with the second inconsistent: updated 2, a single error naming item 2's student and the attendance check, and items 1 and 3 stored |
| `BulkMarks.MarkStore.Process` | exams/views.py:122-146 | one loop pass changes the store and the counters exactly as `BulkMarks.Step` describes |
| `BulkMarks.MarkStore.BulkUpdate` | exams/views.py:107-152 | an empty list gives 400 and changes nothing; otherwise the store ends as the item-by-item fold leaves it, updated + len(errors) == total == len(marks), and the status is 200 exactly when there are no errors, 207 otherwise |
| `SubjectImport.NewSubject` | academics/serializers.py:43-50 | a created subject has the item's name and code, group `science` and category `compulsory` when the item lacks them, and no class |
| `SubjectImport.Step` | academics/serializers.py:25-51 | an item is inserted, with the next id and appended to both the table and the created list, exactly when it has a name and a code and its code is not yet in the table; otherwise the table is unchanged and one error with the item's index and data is appended, whose reason is 'name and code are required' when either is missing or empty, and otherwise that the code already exists |
| `SubjectImport.Run` | academics/serializers.py:23-58 | every item ends up either created or reported, and earlier created subjects and errors stay in place |
| `SubjectImport.StepKeepsInv` | academics/serializers.py:23-58 | one item keeps the table equal to the old rows plus the created subjects, codes unique, ids valid, and error indices increasing |
| `SubjectImport.RunKeepsInv` | academics/serializers.py:23-58 | the same over the whole list |
| `SubjectImport.ImportOutcome` | academics/serializers.py:18-65 | total_created + total_errors == len(subjects); codes stay unique; every created code is new to the table and to the batch; old rows are untouched and the table grows by exactly the created subjects; error indices increase; created ids increase in input order |
| `SubjectImport.MissingFieldsRejected` | academics/serializers.py:25-32 | an item whose name or code is missing or empty yields an error with its index and inserts nothing |
| `SubjectImport.RepeatedCodeRejected` | academics/serializers.py:34-41 | an item repeating the code of an earlier accepted item of the same batch is rejected with 'already exists' |
| `SubjectImport.CodeStaysTaken` | academics/serializers.py:34-51 | once an item with a name and code has been processed, its code is in the table for the rest of the batch |
| `SubjectImport.SubjectTable.Process` | academics/serializers.py:25-51 | one loop pass changes the table and the created and error lists exactly as `SubjectImport.Step` describes |
| `SubjectImport.SubjectTable.Import` | academics/serializers.py:18-65 | the table ends as the fold over the items leaves it, keeps unique codes, grows by exactly the created subjects, and reports totals adding up to the number of items |
| `Dashboard.PassedCount` | dashboard/views.py:52 | exactly the number of marks whose grade is in the passed list; so never more than the number of marks, 0 exactly when no grade is in the list, and all exactly when every grade is |
| `Dashboard.PassPercentage` | dashboard/views.py:53 | 0 when there are no marks; otherwise the passed count divided by the number of marks, times 100; always in [0, 100] |
| `Dashboard.GradeDistribution` | dashboard/views.py:47-49 | one entry per grade value present (NULL included), sorted by grade, each with its positive number of marks; exactly the grades of the marks occur; the counts sum to the number of marks |
| `Dashboard.SavedGradePassed` | dashboard/views.py:52 | a grade written by `Mark.save` counts as passed exactly when it is A+, A or B |
| `Dashboard.PassNotMonotoneInPercentage` | dashboard/views.py:52 | 55 percent (B) passes while 65 percent (A-) does not |
| `Dashboard.AverageClassSize` | dashboard/views.py:36-39 | the number of students over the number of distinct classes they belong to, and 0 without students |
| `Dashboard.PerGroupCounts` | dashboard/views.py:21-24 | one entry per group row, in table order, zero included, with its name and the multiplicity of its id among the members' group ids |
| `Dashboard.StudentsPerClass` | dashboard/views.py:21-24 | every class with its name and number of students, zero included; with distinct class ids and every student in a listed class, the counts add up to the number of students |
| `Dashboard.StudentsPerSession` | dashboard/views.py:41-44 | every session with its name and number of students, zero included; with distinct session ids and every student in a listed session, the counts add up to the number of students |

## Left out

- ORM persistence, querysets and transactions are left out. So is an `IntegrityError` escaping `bulk_update`, for example from the database's own unique key on ExamMark. The store is a sequence of rows.
- DRF request and response plumbing, `IsAuthenticated` and `get_serializer_class` are left out. DRF's field-level validation is left out too (types, foreign-key existence, blank strings in the subject dicts). Only the presence of the required fields on create is modelled.
- The ExamMark model class is not part of this model. Its column defaults and the `total_marks` its save computes are parameters (`BulkMarks.RowHooks`). No grade is derived for ExamMark.
- `round(..., 2)` and floating-point output are left out. Values are exact rationals.
- The `except Exception` branch of the subject import is left out. It catches database failures, such as the NOT NULL `class_name` of the Subject model as shown. In the model every accepted create succeeds.
- Query parameters that are not numbers where ids are expected are left out, because Django rejects them before any filtering.
- The `exam_names` action is left out: it returns a constant list.
- `ExamListView` and `MarkListView` are left out: they are projections with no logic.
- The dashboard's plain table counts (`total_students` and the like) are left out, as are `teachers_per_department` and `exams_by_type`. The Teacher and Exam tables they group are not part of this model.
- Re-saving an existing Mark through `Grading.Create` is left out. `Grading.Save` covers the grade of any save.
- String ordering is by code point. Database collations other than the binary one are left out.
- The schema migration, admin registrations, URL routing and the one-off scripts are left out. They hold no logic beyond declarations, `get_or_create` calls and printing.
