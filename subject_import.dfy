/** `BulkSubjectImportSerializer.create` (academics/serializers.py): a list of
    subject dicts is inserted one by one into the Subject table, whose `code`
    is unique; an item without a name or code, or with a code already in the
    table (including one inserted earlier in the same batch), is reported
    with its index and skipped, and the other items go on. */
module SubjectImport {
  import opened Wrappers

  /** A Subject row as the import creates it. */
  datatype Subject = Subject(id: nat, name: string, code: string, group: string,
                             category: string, className: Option<nat>)

  /** One dict of the `subjects` list; `None` for a key the dict lacks. */
  datatype SubjectItem = SubjectItem(name: Option<string>, code: Option<string>,
                                     group: Option<string>, category: Option<string>)

  datatype ImportReason =
    | NameAndCodeRequired   // 'name and code are required'
    | CodeExists(code: string)  // 'Subject with code ... already exists'

  /** One entry of `errors`: the item's index, why it failed, and the item. */
  datatype ImportError = ImportError(index: nat, reason: ImportReason, data: SubjectItem)

  /** The table and the two lists the loop appends to. */
  datatype ImportState = ImportState(rows: seq<Subject>, nextId: nat,
                                     created: seq<Subject>, errors: seq<ImportError>)

  datatype ImportResult = ImportResult(created: seq<Subject>, errors: seq<ImportError>,
                                       totalCreated: nat, totalErrors: nat)

  const DefaultGroup := "science"
  const DefaultCategory := "compulsory"

  /** Python truthiness of `dict.get(key)`: present and not empty. */
  predicate Truthy(s: Option<string>)
  {
    s.Some? && s.value != ""
  }

  predicate CodeTaken(rows: seq<Subject>, code: string)
  {
    exists i :: 0 <= i < |rows| && rows[i].code == code
  }

  /** Subject codes are unique in the table. */
  ghost predicate CodesUnique(rows: seq<Subject>)
  {
    forall i, j :: 0 <= i < j < |rows| ==> rows[i].code != rows[j].code
  }

  /** Row ids are distinct and below the next id the table hands out. */
  ghost predicate IdsValid(rows: seq<Subject>, nextId: nat)
  {
    && (forall i :: 0 <= i < |rows| ==> rows[i].id < nextId)
    && (forall i, j :: 0 <= i < j < |rows| ==> rows[i].id != rows[j].id)
  }

  /** The subject `Subject.objects.create` makes from an accepted item: its
      name and code, group and category defaulting to science and compulsory
      when the item lacks them, and no class. */
  function NewSubject(id: nat, item: SubjectItem): (s: Subject)
    requires Truthy(item.name) && Truthy(item.code)
    ensures s.id == id && s.name == item.name.value && s.code == item.code.value
    ensures s.group == (if item.group.Some? then item.group.value else "science")
    ensures s.category == (if item.category.Some? then item.category.value else "compulsory")
    ensures s.className.None?
  {
    Subject(id, item.name.value, item.code.value,
            item.group.GetOr(DefaultGroup), item.category.GetOr(DefaultCategory), None)
  }

  /** An item the import inserts into a table holding `rows`. */
  predicate Accepted(rows: seq<Subject>, item: SubjectItem)
  {
    Truthy(item.name) && Truthy(item.code) && !CodeTaken(rows, item.code.value)
  }

  /** One pass of the loop body for the item at `index`: the item is inserted
      exactly when it has a name and a code and its code is not yet in the
      table; otherwise the table is unchanged and one error carrying the
      item's index and data is appended, saying that name and code are
      required when either is missing, and otherwise that the code exists. */
  function Step(st: ImportState, index: nat, item: SubjectItem): (r: ImportState)
    ensures Accepted(st.rows, item) ==>
      && r.rows == st.rows + [NewSubject(st.nextId, item)] && r.created == st.created + [NewSubject(st.nextId, item)]
      && r.nextId == st.nextId + 1 && r.errors == st.errors
    ensures !Accepted(st.rows, item) ==>
      && r.rows == st.rows && r.created == st.created && r.nextId == st.nextId
      && |r.errors| == |st.errors| + 1 && r.errors[..|st.errors|] == st.errors
      && r.errors[|st.errors|].index == index && r.errors[|st.errors|].data == item
    ensures !Truthy(item.name) || !Truthy(item.code) ==> r.errors[|st.errors|].reason == NameAndCodeRequired
    ensures Truthy(item.name) && Truthy(item.code) && !Accepted(st.rows, item) ==>
      r.errors[|st.errors|].reason == CodeExists(item.code.value)
  {
    if !Truthy(item.name) || !Truthy(item.code) then
      st.(errors := st.errors + [ImportError(index, NameAndCodeRequired, item)])
    else if CodeTaken(st.rows, item.code.value) then
      st.(errors := st.errors + [ImportError(index, CodeExists(item.code.value), item)])
    else
      var s := NewSubject(st.nextId, item);
      st.(rows := st.rows + [s], nextId := st.nextId + 1, created := st.created + [s])
  }

  /** The loop over `items`, from the state `st`; item k has index k. Every
      item is either created or reported, and earlier subjects and errors
      stay in place. */
  function Run(st: ImportState, items: seq<SubjectItem>): (r: ImportState)
    ensures |r.created| + |r.errors| == |st.created| + |st.errors| + |items|
    ensures |st.created| <= |r.created| && r.created[..|st.created|] == st.created
    ensures |st.errors| <= |r.errors| && r.errors[..|st.errors|] == st.errors
    decreases |items|
  {
    if items == [] then st
    else
      var mid := Run(st, items[..|items| - 1]);
      var r := Step(mid, |items| - 1, items[|items| - 1]);
      assert r.created[..|st.created|] == r.created[..|mid.created|][..|st.created|];
      assert r.errors[..|st.errors|] == r.errors[..|mid.errors|][..|st.errors|];
      r
  }

  /** One more item is one more step. */
  lemma RunSnoc(st: ImportState, items: seq<SubjectItem>, i: nat)
    requires i < |items|
    ensures Run(st, items[..i + 1]) == Step(Run(st, items[..i]), i, items[i])
  {
    assert items[..i + 1][..i] == items[..i];
  }

  function Start(rows: seq<Subject>, nextId: nat): ImportState
  {
    ImportState(rows, nextId, [], [])
  }

  /** Everything the loop keeps true: the table is the old table followed by
      the created subjects, codes and ids stay valid, every processed item is
      either created or reported, and errors carry increasing indices below
      the number of items processed. */
  ghost predicate Inv(base: seq<Subject>, st: ImportState, processed: nat)
  {
    && st.rows == base + st.created
    && CodesUnique(st.rows)
    && IdsValid(st.rows, st.nextId)
    && |st.created| + |st.errors| == processed
    && (forall i :: 0 <= i < |st.errors| ==> st.errors[i].index < processed)
    && (forall i, j :: 0 <= i < j < |st.errors| ==> st.errors[i].index < st.errors[j].index)
    && (forall i, j :: 0 <= i < j < |st.created| ==> st.created[i].id < st.created[j].id)
  }

  lemma StepKeepsInv(base: seq<Subject>, st: ImportState, n: nat, item: SubjectItem)
    requires Inv(base, st, n)
    ensures Inv(base, Step(st, n, item), n + 1)
  {
    var st' := Step(st, n, item);
    if Accepted(st.rows, item) {
      var s := NewSubject(st.nextId, item);
      InsertKeepsInv(base, st, n, s);
      assert st' == st.(rows := st.rows + [s], nextId := st.nextId + 1, created := st.created + [s]);
    } else {
      var e := st'.errors[|st.errors|];
      ReportKeepsInv(base, st, n, e);
      assert st'.errors == st.errors + [e];
      assert st' == st.(errors := st.errors + [e]);
    }
  }

  /** Inserting a subject with a new code and the next id keeps the invariant. */
  lemma InsertKeepsInv(base: seq<Subject>, st: ImportState, n: nat, s: Subject)
    requires Inv(base, st, n) && !CodeTaken(st.rows, s.code) && s.id == st.nextId
    ensures Inv(base, st.(rows := st.rows + [s], nextId := st.nextId + 1, created := st.created + [s]), n + 1)
  {
    var st' := st.(rows := st.rows + [s], nextId := st.nextId + 1, created := st.created + [s]);
    assert st'.rows == base + st'.created;
    forall i, j | 0 <= i < j < |st'.rows| ensures st'.rows[i].code != st'.rows[j].code {
      if j == |st.rows| { assert st'.rows[i] == st.rows[i]; }
    }
    forall i | 0 <= i < |st.created| ensures st.created[i].id < st.nextId {
      assert st.rows[|base| + i] == st.created[i];
    }
  }

  /** Reporting the item at index `n` keeps the invariant. */
  lemma ReportKeepsInv(base: seq<Subject>, st: ImportState, n: nat, e: ImportError)
    requires Inv(base, st, n) && e.index == n
    ensures Inv(base, st.(errors := st.errors + [e]), n + 1)
  {
  }

  /** Importing from a valid table keeps it valid and accounts for every item. */
  lemma {:induction false} RunKeepsInv(base: seq<Subject>, nextId: nat, items: seq<SubjectItem>)
    requires CodesUnique(base) && IdsValid(base, nextId)
    ensures Inv(base, Run(Start(base, nextId), items), |items|)
    decreases |items|
  {
    if items != [] {
      var n := |items| - 1;
      RunKeepsInv(base, nextId, items[..n]);
      var mid := Run(Start(base, nextId), items[..n]);
      StepKeepsInv(base, mid, n, items[n]);
      assert Run(Start(base, nextId), items) == Step(mid, n, items[n]);
    } else {
      assert base + [] == base;
    }
  }

  /** The batch-level promises of the import: one outcome per item, codes
      still unique afterwards, every created code new to the table and to the
      batch, the old rows untouched, and the table grown by exactly the
      created subjects, which carry increasing ids in input order. */
  lemma ImportOutcome(base: seq<Subject>, nextId: nat, items: seq<SubjectItem>)
    requires CodesUnique(base) && IdsValid(base, nextId)
    ensures var st := Run(Start(base, nextId), items);
      && |st.created| + |st.errors| == |items|
      && CodesUnique(st.rows)
      && st.rows == base + st.created
      && (forall k :: 0 <= k < |st.created| ==> !CodeTaken(base, st.created[k].code))
      && (forall i, j :: 0 <= i < j < |st.created| ==> st.created[i].code != st.created[j].code)
      && (forall i, j :: 0 <= i < j < |st.errors| ==> st.errors[i].index < st.errors[j].index)
      && (forall i :: 0 <= i < |st.errors| ==> st.errors[i].index < |items|)
      && (forall i, j :: 0 <= i < j < |st.created| ==> st.created[i].id < st.created[j].id)
  {
    RunKeepsInv(base, nextId, items);
    InvOutcome(base, Run(Start(base, nextId), items), |items|);
  }

  /** What the invariant says about the created subjects: their codes are
      new to the old table and distinct from each other. */
  lemma InvOutcome(base: seq<Subject>, st: ImportState, n: nat)
    requires Inv(base, st, n)
    ensures forall k :: 0 <= k < |st.created| ==> !CodeTaken(base, st.created[k].code)
    ensures forall i, j :: 0 <= i < j < |st.created| ==> st.created[i].code != st.created[j].code
  {
    forall k | 0 <= k < |st.created| ensures !CodeTaken(base, st.created[k].code) {
      assert st.rows[|base| + k] == st.created[k];
      forall i | 0 <= i < |base| ensures base[i].code != st.created[k].code {
        assert st.rows[i] == base[i];
      }
    }
    forall i, j | 0 <= i < j < |st.created| ensures st.created[i].code != st.created[j].code {
      assert st.rows[|base| + i] == st.created[i] && st.rows[|base| + j] == st.created[j];
    }
  }

  /** An item without a truthy name or code is reported with its index and
      nothing is inserted. */
  lemma MissingFieldsRejected(st: ImportState, index: nat, item: SubjectItem)
    requires !Truthy(item.name) || !Truthy(item.code)
    ensures Step(st, index, item) == st.(errors := st.errors + [ImportError(index, NameAndCodeRequired, item)])
  {
  }

  /** A code already in the table is rejected, also when an earlier item of
      the same batch put it there. */
  lemma RepeatedCodeRejected(base: seq<Subject>, nextId: nat, items: seq<SubjectItem>, i: nat, j: nat)
    requires i < j < |items|
    requires Truthy(items[i].name) && Truthy(items[i].code)
    requires Truthy(items[j].name) && items[j].code == items[i].code
    ensures var before := Run(Start(base, nextId), items[..j]);
      Run(Start(base, nextId), items[..j + 1])
        == before.(errors := before.errors + [ImportError(j, CodeExists(items[j].code.value), items[j])])
  {
    assert items[..j][i] == items[i];
    CodeStaysTaken(base, nextId, items[..j], i);
    RunSnoc(Start(base, nextId), items, j);
  }

  /** Once item i is processed, its code is in the table for good: after
      any run over a list containing it, the table holds its code. */
  lemma {:induction false} CodeStaysTaken(base: seq<Subject>, nextId: nat, items: seq<SubjectItem>, i: nat)
    requires i < |items|
    requires Truthy(items[i].name) && Truthy(items[i].code)
    ensures CodeTaken(Run(Start(base, nextId), items).rows, items[i].code.value)
    decreases |items|
  {
    var n := |items| - 1;
    var mid := Run(Start(base, nextId), items[..n]);
    assert items[..n + 1] == items;
    RunSnoc(Start(base, nextId), items, n);
    assert Run(Start(base, nextId), items) == Step(mid, n, items[n]);
    if i < n {
      assert items[..n][i] == items[i];
      CodeStaysTaken(base, nextId, items[..n], i);
      StepKeepsCode(mid, n, items[n], items[i].code.value);
    } else {
      StepTakesCode(mid, n, items[n]);
    }
  }

  /** A code in the table stays there after one more item. */
  lemma StepKeepsCode(st: ImportState, index: nat, item: SubjectItem, code: string)
    requires CodeTaken(st.rows, code)
    ensures CodeTaken(Step(st, index, item).rows, code)
  {
    var k :| 0 <= k < |st.rows| && st.rows[k].code == code;
    assert Step(st, index, item).rows[k] == st.rows[k];
  }

  /** After an item with a name and a code, its code is in the table, whether
      it was inserted or refused as taken. */
  lemma StepTakesCode(st: ImportState, index: nat, item: SubjectItem)
    requires Truthy(item.name) && Truthy(item.code)
    ensures CodeTaken(Step(st, index, item).rows, item.code.value)
  {
    if !CodeTaken(st.rows, item.code.value) {
      assert Step(st, index, item).rows[|st.rows|].code == item.code.value;
    }
  }

  /** The Subject table. */
  class SubjectTable {
    var rows: seq<Subject>
    var nextId: nat

    ghost predicate Valid()
      reads this
    {
      CodesUnique(rows) && IdsValid(rows, nextId)
    }

    constructor ()
      ensures Valid() && rows == [] && nextId == 1
    {
      rows := [];
      nextId := 1;
    }

    /** One pass of the loop body of the import for the item at `index`:
        insert it, or record why not. */
    method Process(index: nat, item: SubjectItem, created: seq<Subject>, errors: seq<ImportError>)
      returns (created': seq<Subject>, errors': seq<ImportError>)
      modifies this
      ensures ImportState(rows, nextId, created', errors')
        == Step(ImportState(old(rows), old(nextId), created, errors), index, item)
    {
      created', errors' := created, errors;
      if !Truthy(item.name) || !Truthy(item.code) {
        errors' := errors + [ImportError(index, NameAndCodeRequired, item)];
      } else if CodeTaken(rows, item.code.value) {
        errors' := errors + [ImportError(index, CodeExists(item.code.value), item)];
      } else {
        var subject := NewSubject(nextId, item);
        rows := rows + [subject];
        nextId := nextId + 1;
        created' := created + [subject];
      }
    }

    /** `BulkSubjectImportSerializer.create`: the table ends as the loop over
        the items leaves it, with unique codes, grown by exactly the created
        subjects; `total_created + total_errors` is the number of items. */
    method Import(items: seq<SubjectItem>) returns (result: ImportResult)
      requires Valid()
      modifies this
      ensures Valid()
      ensures var st := Run(Start(old(rows), old(nextId)), items);
        && rows == st.rows && nextId == st.nextId
        && result == ImportResult(st.created, st.errors, |st.created|, |st.errors|)
      ensures rows == old(rows) + result.created
      ensures result.totalCreated + result.totalErrors == |items|
    {
      ghost var base := rows;
      ghost var start := Start(rows, nextId);
      var created := [];
      var errors := [];
      var idx := 0;
      while idx < |items|
        invariant 0 <= idx <= |items|
        invariant Run(start, items[..idx]) == ImportState(rows, nextId, created, errors)
      {
        created, errors := Process(idx, items[idx], created, errors);
        RunSnoc(start, items, idx);
        idx := idx + 1;
      }
      assert items[..idx] == items;
      RunKeepsInv(base, start.nextId, items);
      result := ImportResult(created, errors, |created|, |errors|);
    }
  }
}
