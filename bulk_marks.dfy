/** `ExamMarkViewSet.bulk_update` (exams/views.py): every item of the `marks`
    array is an update (it carries an id), a create (it does not), a rejected
    payload, or an id that is not stored; each item is handled on its own
    against the store as the previous items left it, and the response counts
    the successes and lists the failures. */
module BulkMarks {
  import opened Wrappers
  import opened ExamRecords
  import opened MarkValidation

  /** One element of the request's `marks` array. */
  datatype MarkItem = MarkItem(id: Option<int>, data: MarkData)

  /** One entry of the response's `errors` list. */
  datatype BulkError =
    | NotFound(id: int)                                        // 'ExamMark not found'
    | Invalid(student: Option<nat>, reason: ValidationError)   // the serializer's errors

  /** What the ExamMark model (not part of this model) contributes to a write:
      the column defaults of the attendance fields, and the `total_marks` its
      save computes for the row being written. */
  datatype RowHooks = RowHooks(defaults: (int, int, int), totalOf: ExamMark -> Option<real>)

  /** The store and the two accumulators of the loop. */
  datatype BulkState = BulkState(rows: seq<ExamMark>, nextId: nat, updated: nat, errors: seq<BulkError>)

  datatype BulkResponse =
    | BadRequest                                                             // 400: 'marks array is required'
    | Processed(updated: nat, total: nat, errors: seq<BulkError>, status: int) // 200 or 207

  /** Row ids are distinct and below the next id the store hands out. */
  ghost predicate IdsValid(rows: seq<ExamMark>, nextId: nat)
  {
    && (forall i :: 0 <= i < |rows| ==> rows[i].id < nextId)
    && (forall i, j :: 0 <= i < j < |rows| ==> rows[i].id != rows[j].id)
  }

  /** `ExamMark.objects.get(id=...)`: where the row with this id is stored. */
  function IndexOf(rows: seq<ExamMark>, id: int): (r: Option<nat>)
    ensures r.Some? ==> r.value < |rows| && rows[r.value].id == id
    ensures r.None? ==> forall i :: 0 <= i < |rows| ==> rows[i].id != id
  {
    if rows == [] then None
    else if rows[0].id == id then Some(0)
    else match IndexOf(rows[1..], id)
      case None => None
      case Some(k) => Some(k + 1)
  }

  /** The row as ExamMark's save stores it. */
  function Persist(hooks: RowHooks, row: ExamMark): ExamMark
  {
    row.(totalMarks := hooks.totalOf(row))
  }

  /** `if mark_id:` — an id of 0, like a missing one, means "create". */
  predicate HasId(item: MarkItem)
  {
    item.id.Some? && item.id.value != 0
  }

  /** One pass of the loop body: the item is either counted as updated or
      reported as exactly one appended error, and a reported item leaves the
      store as it was. */
  function Step(st: BulkState, item: MarkItem, hooks: RowHooks): (r: BulkState)
    ensures r.updated == st.updated || r.updated == st.updated + 1
    ensures r.updated == st.updated + 1 ==> r.errors == st.errors
    ensures r.updated == st.updated ==>
      && |r.errors| == |st.errors| + 1 && r.errors[..|st.errors|] == st.errors
      && r.rows == st.rows && r.nextId == st.nextId
  {
    if HasId(item) then
      match IndexOf(st.rows, item.id.value)
      case None => st.(errors := st.errors + [NotFound(item.id.value)])
      case Some(k) =>
        match IsValid(item.data, Some(st.rows[k]), st.rows)
        case Success(_) =>
          st.(rows := st.rows[k := Persist(hooks, Updated(st.rows[k], item.data))], updated := st.updated + 1)
        case Failure(e) => st.(errors := st.errors + [Invalid(item.data.student, e)])
    else
      match IsValid(item.data, None, st.rows)
      case Success(_) =>
        st.(rows := st.rows + [Persist(hooks, Created(st.nextId, item.data, hooks.defaults))],
            nextId := st.nextId + 1, updated := st.updated + 1)
      case Failure(e) => st.(errors := st.errors + [Invalid(item.data.student, e)])
  }

  /** The loop over `items`, from the state `st`: `updated + len(errors)`
      grows by exactly the number of items, and errors are only appended. */
  function Run(st: BulkState, items: seq<MarkItem>, hooks: RowHooks): (r: BulkState)
    ensures r.updated + |r.errors| == st.updated + |st.errors| + |items|
    ensures |st.errors| <= |r.errors| && r.errors[..|st.errors|] == st.errors
    decreases |items|
  {
    if items == [] then st
    else
      var mid := Run(st, items[..|items| - 1], hooks);
      var r := Step(mid, items[|items| - 1], hooks);
      assert r.errors[..|st.errors|] == r.errors[..|mid.errors|][..|st.errors|];
      r
  }

  /** One more item is one more step. */
  lemma RunSnoc(st: BulkState, items: seq<MarkItem>, i: nat, hooks: RowHooks)
    requires i < |items|
    ensures Run(st, items[..i + 1], hooks) == Step(Run(st, items[..i], hooks), items[i], hooks)
  {
    assert items[..i + 1][..i] == items[..i];
  }

  function Status(errors: seq<BulkError>): int
  {
    if errors == [] then 200 else 207
  }

  /** An id that is not stored adds 'not found' for that id and touches
      neither the store nor the count. */
  lemma NotFoundLeavesStore(st: BulkState, item: MarkItem, hooks: RowHooks)
    requires HasId(item) && IndexOf(st.rows, item.id.value).None?
    ensures Step(st, item, hooks) == st.(errors := st.errors + [NotFound(item.id.value)])
  {
  }

  /** An update whose payload passes the attendance check stores the
      partial merge of the payload into the row with the item's id and counts
      it; one that fails appends the attendance error and changes no row.
      Either way the other rows and the row's id stay as they were. */
  lemma UpdateTouchesOneRow(st: BulkState, item: MarkItem, hooks: RowHooks, k: nat)
    requires HasId(item) && k < |st.rows| && st.rows[k].id == item.id.value
    requires IdsValid(st.rows, st.nextId)
    ensures var st' := Step(st, item, hooks);
      && |st'.rows| == |st.rows| && st'.nextId == st.nextId && st'.rows[k].id == st.rows[k].id
      && (forall i :: 0 <= i < |st.rows| && i != k ==> st'.rows[i] == st.rows[i])
      && (AttendanceConsistent(item.data) ==>
            && st'.rows[k] == Persist(hooks, Updated(st.rows[k], item.data))
            && st'.updated == st.updated + 1 && st'.errors == st.errors)
      && (!AttendanceConsistent(item.data) ==>
            && st'.rows == st.rows && st'.updated == st.updated
            && st'.errors == st.errors + [Invalid(item.data.student, AttendanceExceedsClasses)])
  {
    var found := IndexOf(st.rows, item.id.value);
    assert found == Some(k);
  }

  lemma StepKeepsIds(st: BulkState, item: MarkItem, hooks: RowHooks)
    requires IdsValid(st.rows, st.nextId)
    ensures var st' := Step(st, item, hooks);
      && IdsValid(st'.rows, st'.nextId)
      && st.nextId <= st'.nextId && |st.rows| <= |st'.rows|
      && forall i :: 0 <= i < |st.rows| ==> st'.rows[i].id == st.rows[i].id
  {
  }

  /** The store's ids stay distinct and below the next id, and no stored row
      disappears or changes id. */
  lemma {:induction false} RunKeepsIds(st: BulkState, items: seq<MarkItem>, hooks: RowHooks)
    requires IdsValid(st.rows, st.nextId)
    ensures var st' := Run(st, items, hooks);
      && IdsValid(st'.rows, st'.nextId)
      && |st.rows| <= |st'.rows|
      && forall i :: 0 <= i < |st.rows| ==> st'.rows[i].id == st.rows[i].id
    decreases |items|
  {
    if items != [] {
      RunKeepsIds(st, items[..|items| - 1], hooks);
      StepKeepsIds(Run(st, items[..|items| - 1], hooks), items[|items| - 1], hooks);
    }
  }

  /** A create whose payload is complete, consistent and new is stored. */
  ghost predicate FreshCreate(item: MarkItem)
  {
    !HasId(item) && MissingRequired(item.data) == [] && AttendanceConsistent(item.data)
  }

  lemma CreateAppends(st: BulkState, item: MarkItem, hooks: RowHooks)
    requires FreshCreate(item) && !DuplicateExists(st.rows, item.data)
    ensures var st' := Step(st, item, hooks);
      && st'.rows == st.rows + [Persist(hooks, Created(st.nextId, item.data, hooks.defaults))]
      && st'.updated == st.updated + 1 && st'.errors == st.errors
  {
  }

  /** A create the serializer rejects (missing key fields, inconsistent
      attendance, or a key already stored) is reported with the serializer's
      error for the item's student and changes nothing else. */
  lemma CreateRejected(st: BulkState, item: MarkItem, hooks: RowHooks)
    requires !HasId(item) && IsValid(item.data, None, st.rows).Failure?
    ensures Step(st, item, hooks)
      == st.(errors := st.errors + [Invalid(item.data.student, IsValid(item.data, None, st.rows).error)])
  {
  }

  /** The same new create twice in one batch: the first is stored, and the
      second is checked against the store as the first left it, so it is
      rejected as a duplicate. */
  lemma RepeatedCreateRejected(rows: seq<ExamMark>, nextId: nat, a: MarkItem, hooks: RowHooks)
    requires FreshCreate(a) && !DuplicateExists(rows, a.data)
    ensures var st' := Run(BulkState(rows, nextId, 0, []), [a, a], hooks);
      && st'.updated == 1
      && st'.errors == [Invalid(a.data.student, DuplicateMark)]
      && st'.rows == rows + [Persist(hooks, Created(nextId, a.data, hooks.defaults))]
  {
    var s0 := BulkState(rows, nextId, 0, []);
    assert [a, a][..1] == [a] && [a][..0] == [];
    var s1 := Step(s0, a, hooks);
    CreateAppends(s0, a, hooks);
    assert Run(s0, [a], hooks) == s1;
    var created := Persist(hooks, Created(nextId, a.data, hooks.defaults));
    assert s1.rows[|rows|] == created && SameKey(created, a.data);
    assert DuplicateExists(s1.rows, a.data);
  }

  /** Three creates with distinct keys, none stored yet, the second one with
      more presences and absences than classes: two rows are added, and the
      one error names the second item's student and the attendance check. */
  lemma BadMiddleItemExample(rows: seq<ExamMark>, nextId: nat, a: MarkItem, b: MarkItem, c: MarkItem, hooks: RowHooks)
    requires FreshCreate(a) && FreshCreate(c)
    requires !HasId(b) && MissingRequired(b.data) == [] && !AttendanceConsistent(b.data)
    requires !DuplicateExists(rows, a.data) && !DuplicateExists(rows, c.data)
    requires !SameKey(Created(nextId, a.data, hooks.defaults), c.data)
    ensures var st' := Run(BulkState(rows, nextId, 0, []), [a, b, c], hooks);
      && st'.updated == 2
      && st'.errors == [Invalid(b.data.student, AttendanceExceedsClasses)]
      && st'.rows == rows + [Persist(hooks, Created(nextId, a.data, hooks.defaults)),
                             Persist(hooks, Created(nextId + 1, c.data, hooks.defaults))]
  {
    var s0 := BulkState(rows, nextId, 0, []);
    assert [a, b, c][..2] == [a, b] && [a, b][..1] == [a] && [a][..0] == [];
    var s1 := Step(s0, a, hooks);
    CreateAppends(s0, a, hooks);
    assert Run(s0, [a], hooks) == s1;
    var s2 := Step(s1, b, hooks);
    assert s2 == s1.(errors := [Invalid(b.data.student, AttendanceExceedsClasses)]);
    assert Run(s0, [a, b], hooks) == s2;
    var created := Persist(hooks, Created(nextId, a.data, hooks.defaults));
    assert !SameKey(created, c.data);
    assert !DuplicateExists(s2.rows, c.data) by {
      forall i | 0 <= i < |s2.rows| ensures !SameKey(s2.rows[i], c.data) {
        if i < |rows| { assert s2.rows[i] == rows[i]; } else { assert s2.rows[i] == created; }
      }
    }
    CreateAppends(s2, c, hooks);
  }

  /** The ExamMark table as `bulk_update` sees it. */
  class MarkStore {
    var rows: seq<ExamMark>
    var nextId: nat
    const hooks: RowHooks

    ghost predicate Valid()
      reads this
    {
      IdsValid(rows, nextId)
    }

    constructor (hooks: RowHooks)
      ensures Valid() && rows == [] && nextId == 1
    {
      rows := [];
      nextId := 1;
      this.hooks := hooks;
    }

    /** One pass of the loop body of `bulk_update`: update the row with the
        item's id, or create a row when the item has none, through the
        serializer's checks; a failure is recorded instead. */
    method Process(item: MarkItem, updated: nat, errors: seq<BulkError>)
      returns (updated': nat, errors': seq<BulkError>)
      modifies this
      ensures BulkState(rows, nextId, updated', errors')
        == Step(BulkState(old(rows), old(nextId), updated, errors), item, hooks)
    {
      updated', errors' := updated, errors;
      if HasId(item) {
        var found := IndexOf(rows, item.id.value);
        if found.None? {
          errors' := errors + [NotFound(item.id.value)];
        } else {
          var k := found.value;
          var check := IsValid(item.data, Some(rows[k]), rows);
          if check.Success? {
            rows := rows[k := Persist(hooks, Updated(rows[k], item.data))];
            updated' := updated + 1;
          } else {
            errors' := errors + [Invalid(item.data.student, check.error)];
          }
        }
      } else {
        var check := IsValid(item.data, None, rows);
        if check.Success? {
          rows := rows + [Persist(hooks, Created(nextId, item.data, hooks.defaults))];
          nextId := nextId + 1;
          updated' := updated + 1;
        } else {
          errors' := errors + [Invalid(item.data.student, check.error)];
        }
      }
    }

    /** `bulk_update`: 400 and no change for an empty `marks` list; otherwise
        every item is processed in order, the store ends as the loop over the
        items leaves it, and the response reports `updated`, `total` and
        `errors`, with status 200 exactly when there are no errors. */
    method BulkUpdate(items: seq<MarkItem>) returns (resp: BulkResponse)
      requires Valid()
      modifies this
      ensures Valid()
      ensures items == [] ==> resp == BadRequest && rows == old(rows) && nextId == old(nextId)
      ensures items != [] ==>
        var st := Run(BulkState(old(rows), old(nextId), 0, []), items, hooks);
        && rows == st.rows && nextId == st.nextId
        && resp == Processed(st.updated, |items|, st.errors, Status(st.errors))
      ensures resp.Processed? ==> resp.updated + |resp.errors| == resp.total == |items|
      ensures resp.Processed? ==> (resp.status == 200 <==> resp.errors == [])
    {
      if items == [] {
        return BadRequest;
      }
      ghost var start := BulkState(rows, nextId, 0, []);
      var updated: nat := 0;
      var errors := [];
      var i := 0;
      while i < |items|
        invariant 0 <= i <= |items|
        invariant Run(start, items[..i], hooks) == BulkState(rows, nextId, updated, errors)
        invariant IdsValid(rows, nextId)
      {
        var item := items[i];
        StepKeepsIds(BulkState(rows, nextId, updated, errors), item, hooks);
        updated, errors := Process(item, updated, errors);
        RunSnoc(start, items, i, hooks);
        i := i + 1;
      }
      assert items[..i] == items;
      resp := Processed(updated, |items|, errors, Status(errors));
    }
  }
}
