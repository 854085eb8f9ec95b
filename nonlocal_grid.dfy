/** The non-local records grid: reports for places outside the registered
    village hierarchy, typed in as free-text locations. A reporter adds and
    deletes rows and edits cells in a client-side buffer (rows, dirty ids,
    deleted ids) that one save sends to the records table. */
module NonLocalGrid {

  import opened Common
  import MonthUtils

  /** The choices of the country selector; a new row starts with the first. */
  const Countries: seq<string> := ["Bangladesh", "India", "Myanmar"]

  /** One row of the grid. isNew marks a row added in this session and not
      yet inserted; rows read from the table carry no such flag (false). */
  datatype NonLocalRow = NonLocalRow(
    id: string,
    skUserId: string,
    reportingYear: int,
    country: string,
    districtOrState: string,
    upazilaOrTownship: string,
    unionName: string,
    villageName: string,
    months: MonthValues,
    isNew: bool)

  /** The cells a user can type into. */
  datatype Field =
    | Country | DistrictOrState | UpazilaOrTownship | UnionName | VillageName
    | MonthCell(index: MonthIndex)

  /** The value held by a cell: a count in a month cell, text elsewhere. */
  datatype CellValue = Count(n: int) | Text(s: string)

  predicate Fits(field: Field, v: CellValue)
  {
    field.MonthCell? <==> v.Count?
  }

  /** The value a row holds in a cell. */
  function Get(row: NonLocalRow, field: Field): (v: CellValue)
    ensures Fits(field, v)
  {
    match field
    case Country => Text(row.country)
    case DistrictOrState => Text(row.districtOrState)
    case UpazilaOrTownship => Text(row.upazilaOrTownship)
    case UnionName => Text(row.unionName)
    case VillageName => Text(row.villageName)
    case MonthCell(i) => Count(row.months[i])
  }

  /** The row with one cell replaced. */
  function WithCell(row: NonLocalRow, field: Field, v: CellValue): (r: NonLocalRow)
    requires Fits(field, v)
    ensures Get(r, field) == v
    ensures forall f :: f != field ==> Get(r, f) == Get(row, f)
    ensures r.id == row.id && r.skUserId == row.skUserId
    ensures r.reportingYear == row.reportingYear && r.isNew == row.isNew
  {
    match field
    case Country => row.(country := v.s)
    case DistrictOrState => row.(districtOrState := v.s)
    case UpazilaOrTownship => row.(upazilaOrTownship := v.s)
    case UnionName => row.(unionName := v.s)
    case VillageName => row.(villageName := v.s)
    case MonthCell(i) => row.(months := row.months[i := v.n])
  }

  // ---------------------------------------------------------------------
  // Editability and the reporter's colour heuristic

  /** isMonthEditable: may the actor type into month column monthIndex of a
      record of the selected year, at the given Dhaka year and month? */
  function IsMonthEditable(role: Role, year: int, currentYear: int, currentMonth: int, monthIndex: int): (editable: bool)
    ensures role == Admin ==> editable
    ensures role != Admin ==> (editable <==> year == currentYear && monthIndex + 1 == currentMonth)
  {
    if role == Admin then true
    else if year != currentYear then false
    else monthIndex + 1 == currentMonth
  }

  /** The month columns open to the actor. */
  function EditableMonths(role: Role, year: int, currentYear: int, currentMonth: int): set<int>
  {
    set i | 0 <= i < 12 && IsMonthEditable(role, year, currentYear, currentMonth, i)
  }

  /** Admins may edit all twelve months of every year; anyone else exactly
      the current calendar month of the current year, so at most one. */
  lemma EditableMonthsByRole(role: Role, year: int, currentYear: int, currentMonth: int)
    ensures role == Admin ==> forall i :: i in EditableMonths(role, year, currentYear, currentMonth) <==> 0 <= i < 12
    ensures role != Admin ==>
              EditableMonths(role, year, currentYear, currentMonth)
              == if year == currentYear && 1 <= currentMonth <= 12 then {currentMonth - 1} else {}
    ensures role != Admin ==> |EditableMonths(role, year, currentYear, currentMonth)| <= 1
  {
    var open := EditableMonths(role, year, currentYear, currentMonth);
    if role != Admin {
      if year == currentYear && 1 <= currentMonth <= 12 {
        assert currentMonth - 1 in open;
        assert open == {currentMonth - 1};
      } else {
        assert open == {};
      }
    }
  }

  /** getMonthStatus: the colour of a month cell, from the value and the
      time window alone. */
  function MonthStatus(value: int, monthIndex: int, role: Role, year: int, currentYear: int, currentMonth: int): (status: Colour)
    ensures status == Red <==> value == 0
    ensures status == Yellow <==> value != 0 && role != Admin && IsMonthEditable(role, year, currentYear, currentMonth, monthIndex)
    ensures status == Green <==> value != 0 && (role == Admin || !IsMonthEditable(role, year, currentYear, currentMonth, monthIndex))
  {
    if value == 0 then Red
    else if role != Admin && year == currentYear && monthIndex + 1 == currentMonth then Yellow
    else Green
  }

  /** An admin never sees yellow, and a reporter sees at most one yellow
      month in a row: the current one. */
  lemma YellowOnlyInCurrentMonth(row: NonLocalRow, role: Role, year: int, currentYear: int, currentMonth: int)
    ensures role == Admin ==>
      forall i :: 0 <= i < 12 ==> MonthStatus(row.months[i], i, role, year, currentYear, currentMonth) != Yellow
    ensures forall i, j ::
              0 <= i < 12 && 0 <= j < 12
              && MonthStatus(row.months[i], i, role, year, currentYear, currentMonth) == Yellow
              && MonthStatus(row.months[j], j, role, year, currentYear, currentMonth) == Yellow
              ==> i == j && i + 1 == currentMonth
  {
  }

  // ---------------------------------------------------------------------
  // Operations on the row buffer

  /** handleCellChange's validation: a month cell takes the input's number
      (rejecting NaN and negatives), any other cell takes the text as typed. */
  function Accepted(field: Field, input: CellInput): (v: Option<CellValue>)
    ensures v.None? <==> field.MonthCell? && CellNumber(input).None?
    ensures v.Some? ==> Fits(field, v.value)
    ensures v.Some? && field.MonthCell? ==> v.value == Count(CellNumber(input).value)
    ensures !field.MonthCell? ==> v == Some(Text(input.text))
  {
    if field.MonthCell? then
      match CellNumber(input)
      case None => None
      case Some(n) => Some(Count(n))
    else Some(Text(input.text))
  }

  /** Every row with the id gets the new cell value; the others are kept. */
  function UpdateRows(rows: seq<NonLocalRow>, rowId: string, field: Field, v: CellValue): (updated: seq<NonLocalRow>)
    requires Fits(field, v)
    ensures |updated| == |rows|
    ensures forall i :: 0 <= i < |rows| && rows[i].id != rowId ==> updated[i] == rows[i]
    ensures forall i :: 0 <= i < |rows| && rows[i].id == rowId ==> updated[i] == WithCell(rows[i], field, v)
  {
    if rows == [] then []
    else
      var first := if rows[0].id == rowId then WithCell(rows[0], field, v) else rows[0];
      [first] + UpdateRows(rows[1..], rowId, field, v)
  }

  /** The first row with that id, if any. */
  function FindRow(rows: seq<NonLocalRow>, id: string): (found: Option<NonLocalRow>)
    ensures found.None? <==> forall k :: 0 <= k < |rows| ==> rows[k].id != id
    ensures found.Some? ==>
              exists k :: 0 <= k < |rows| && rows[k] == found.value && rows[k].id == id
                          && forall j :: 0 <= j < k ==> rows[j].id != id
  {
    if rows == [] then None
    else if rows[0].id == id then Some(rows[0])
    else
      var rest := FindRow(rows[1..], id);
      assert rest.Some? ==>
               exists k :: 1 <= k < |rows| && rows[k] == rest.value && rows[k].id == id
                           && forall j :: 0 <= j < k ==> rows[j].id != id;
      rest
  }

  /** The rows without that id, in order. */
  function RemoveRow(rows: seq<NonLocalRow>, id: string): (kept: seq<NonLocalRow>)
    ensures forall r :: r in kept <==> r in rows && r.id != id
    ensures |kept| <= |rows|
    ensures (forall r :: r in rows ==> r.id != id) ==> kept == rows
  {
    if rows == [] then []
    else (if rows[0].id == id then [] else [rows[0]]) + RemoveRow(rows[1..], id)
  }

  /** Removal works row by row: it splits over a concatenation, so the kept
      rows stay in order and keep their copies. */
  lemma {:induction false} RemoveRowConcat(a: seq<NonLocalRow>, b: seq<NonLocalRow>, id: string)
    ensures RemoveRow(a + b, id) == RemoveRow(a, id) + RemoveRow(b, id)
  {
    if a == [] {
      assert a + b == b;
    } else {
      var head := if a[0].id == id then [] else [a[0]];
      assert (a + b)[0] == a[0];
      assert (a + b)[1..] == a[1..] + b;
      calc {
        RemoveRow(a + b, id);
        head + RemoveRow(a[1..] + b, id);
        { RemoveRowConcat(a[1..], b, id); }
        head + (RemoveRow(a[1..], id) + RemoveRow(b, id));
        { ConcatAssoc(head, RemoveRow(a[1..], id), RemoveRow(b, id)); }
        (head + RemoveRow(a[1..], id)) + RemoveRow(b, id);
        RemoveRow(a, id) + RemoveRow(b, id);
      }
    }
  }

  /** A single row is kept iff its id differs. */
  lemma RemoveRowSingle(r: NonLocalRow, id: string)
    ensures RemoveRow([r], id) == if r.id == id then [] else [r]
  {
    assert [r][1..] == [];
  }

  /** The rows whose id is dirty, in row order. */
  function DirtyRows(rows: seq<NonLocalRow>, dirtyIds: set<string>): (dirty: seq<NonLocalRow>)
    ensures forall r :: r in dirty <==> r in rows && r.id in dirtyIds
    ensures |dirty| <= |rows|
  {
    if rows == [] then []
    else (if rows[0].id in dirtyIds then [rows[0]] else []) + DirtyRows(rows[1..], dirtyIds)
  }

  /** The selection works row by row: it splits over a concatenation, so
      the dirty rows keep their order and their copies. */
  lemma {:induction false} DirtyRowsConcat(a: seq<NonLocalRow>, b: seq<NonLocalRow>, dirtyIds: set<string>)
    ensures DirtyRows(a + b, dirtyIds) == DirtyRows(a, dirtyIds) + DirtyRows(b, dirtyIds)
  {
    if a == [] {
      assert a + b == b;
    } else {
      var head := if a[0].id in dirtyIds then [a[0]] else [];
      assert (a + b)[0] == a[0];
      assert (a + b)[1..] == a[1..] + b;
      calc {
        DirtyRows(a + b, dirtyIds);
        head + DirtyRows(a[1..] + b, dirtyIds);
        { DirtyRowsConcat(a[1..], b, dirtyIds); }
        head + (DirtyRows(a[1..], dirtyIds) + DirtyRows(b, dirtyIds));
        { ConcatAssoc(head, DirtyRows(a[1..], dirtyIds), DirtyRows(b, dirtyIds)); }
        (head + DirtyRows(a[1..], dirtyIds)) + DirtyRows(b, dirtyIds);
        DirtyRows(a, dirtyIds) + DirtyRows(b, dirtyIds);
      }
    }
  }

  /** A single row is selected iff its id is dirty. */
  lemma DirtyRowsSingle(r: NonLocalRow, dirtyIds: set<string>)
    ensures DirtyRows([r], dirtyIds) == if r.id in dirtyIds then [r] else []
  {
    assert [r][1..] == [];
  }

  /** Every row with its isNew flag cleared. */
  function ClearNew(rows: seq<NonLocalRow>): (cleared: seq<NonLocalRow>)
    ensures |cleared| == |rows|
    ensures forall i :: 0 <= i < |rows| ==> cleared[i] == rows[i].(isNew := false)
  {
    if rows == [] then [] else [rows[0].(isNew := false)] + ClearNew(rows[1..])
  }

  /** The row addRow creates. */
  function NewRow(id: string, owner: string, year: int): (row: NonLocalRow)
    ensures row.id == id && row.skUserId == owner && row.reportingYear == year
    ensures row.country == Countries[0] == "Bangladesh" && row.isNew
    ensures row.districtOrState == row.upazilaOrTownship == row.unionName == row.villageName == ""
    ensures forall i :: 0 <= i < 12 ==> row.months[i] == 0
  {
    NonLocalRow(id, owner, year, "Bangladesh", "", "", "", "", [0, 0, 0, 0, 0, 0, 0, 0, 0, 0, 0, 0], true)
  }

  /** The fields of a row as getMonthTotal reads them (text fields omitted:
      none of them is a month column). */
  function RowRecord(row: NonLocalRow): MonthUtils.Record
  {
    MonthUtils.WithMonths(map["reporting_year" := MonthUtils.Num(row.reportingYear)], row.months)
  }

  /** The Total column of a row is the sum of its months; a freshly added
      row shows 0. */
  lemma RowTotalIsMonthSum(row: NonLocalRow)
    ensures MonthUtils.MonthTotal(RowRecord(row)) == MonthUtils.Sum(row.months)
    ensures row.months == NewRow(row.id, row.skUserId, row.reportingYear).months ==>
      MonthUtils.MonthTotal(RowRecord(row)) == 0
  {
    MonthUtils.TotalOfMonths(RowRecord(row), row.months);
    if forall i :: 0 <= i < 12 ==> row.months[i] == 0 {
      MonthUtils.ZeroMonthsTotalZero(RowRecord(row));
    }
  }

  // ---------------------------------------------------------------------
  // What a save sends

  /** A field value in a request body. */
  datatype Value = Num(n: int) | Str(s: string)

  /** The request body handleSave builds for a row: owner, year, the five
      location texts and the twelve months, under exactly those keys. */
  function Payload(row: NonLocalRow): (body: map<string, Value>)
    ensures body.Keys == BaseKeys + set i | 0 <= i < 12 :: MonthUtils.MonthColumns[i]
  {
    MonthUtils.PutMonthsFields(BasePayload(row), MonthNumbers(row));
    MonthUtils.PutMonths(BasePayload(row), MonthNumbers(row))
  }

  function BasePayload(row: NonLocalRow): map<string, Value>
  {
    map[
      "sk_user_id" := Str(row.skUserId),
      "reporting_year" := Num(row.reportingYear),
      "country" := Str(row.country),
      "district_or_state" := Str(row.districtOrState),
      "upazila_or_township" := Str(row.upazilaOrTownship),
      "union_name" := Str(row.unionName),
      "village_name" := Str(row.villageName)]
  }

  function MonthNumbers(row: NonLocalRow): seq<Value>
  {
    seq(12, i requires 0 <= i < 12 => Num(row.months[i]))
  }

  const BaseKeys: set<string> := {
    "sk_user_id", "reporting_year", "country", "district_or_state",
    "upazila_or_township", "union_name", "village_name"}

  /** The body carries owner, year, location texts and every month, and
      neither the id nor the isNew flag. */
  lemma BasePayloadFields(row: NonLocalRow)
    ensures BasePayload(row).Keys == BaseKeys
    ensures forall key :: key in BaseKeys ==> key !in MonthUtils.MonthColumns
  {
    forall key | key in BaseKeys
      ensures key !in MonthUtils.MonthColumns
    {
      MonthUtils.NotAMonthColumn(key);
    }
  }

  /** The body holds every month with the row's count, keeps each base
      field as the base body has it, and carries neither the id nor the
      isNew flag. */
  lemma PayloadFields(row: NonLocalRow)
    ensures forall i :: 0 <= i < 12 ==> Payload(row)[MonthUtils.MonthColumns[i]] == Num(row.months[i])
    ensures forall key :: key in BaseKeys ==> Payload(row)[key] == BasePayload(row)[key]
    ensures "id" !in Payload(row) && "_isNew" !in Payload(row)
  {
    BasePayloadFields(row);
    MonthUtils.PutMonthsFields(BasePayload(row), MonthNumbers(row));
    MonthUtils.NotAMonthColumn("id");
    MonthUtils.NotAMonthColumn("_isNew");
  }

  /** The owner, year and each of the five location texts go into the body
      with the row's values. */
  lemma PayloadBaseValues(row: NonLocalRow)
    ensures Payload(row)["sk_user_id"] == Str(row.skUserId)
    ensures Payload(row)["reporting_year"] == Num(row.reportingYear)
    ensures Payload(row)["country"] == Str(row.country)
    ensures Payload(row)["district_or_state"] == Str(row.districtOrState)
    ensures Payload(row)["upazila_or_township"] == Str(row.upazilaOrTownship)
    ensures Payload(row)["union_name"] == Str(row.unionName)
    ensures Payload(row)["village_name"] == Str(row.villageName)
  {
    PayloadFields(row);
  }

  /** A new row is inserted with its id; an existing row is updated by id. */
  function WriteRequest(row: NonLocalRow): (request: Request<map<string, Value>>)
    ensures !request.Delete?
    ensures request.Insert? <==> row.isNew
    ensures request.Update? ==> request.id == row.id && request.payload == Payload(row)
    ensures request.Insert? ==>
              request.payload.Keys == Payload(row).Keys + {"id"} && request.payload["id"] == Str(row.id)
              && forall key :: key in Payload(row) ==> request.payload[key] == Payload(row)[key]
  {
    MonthUtils.NotAMonthColumn("id");
    if row.isNew then Insert(Payload(row)["id" := Str(row.id)]) else Update(row.id, Payload(row))
  }

  /** The loop body of handleSave for one dirty row. */
  method BuildWriteRequest(row: NonLocalRow) returns (request: Request<map<string, Value>>)
    ensures request == WriteRequest(row)
  {
    var payload := MonthUtils.CopyMonthColumns(BasePayload(row), MonthNumbers(row));
    if row.isNew {
      payload := payload["id" := Str(row.id)];
      request := Insert(payload);
    } else {
      request := Update(row.id, payload);
    }
  }

  function DeleteRequests(ids: seq<string>): (reqs: seq<Request<map<string, Value>>>)
    ensures |reqs| == |ids| && forall i :: 0 <= i < |ids| ==> reqs[i] == Delete(ids[i])
  {
    seq(|ids|, i requires 0 <= i < |ids| => Delete(ids[i]))
  }

  function WriteRequests(rows: seq<NonLocalRow>): (reqs: seq<Request<map<string, Value>>>)
    ensures |reqs| == |rows| && forall i :: 0 <= i < |rows| ==> reqs[i] == WriteRequest(rows[i])
  {
    seq(|rows|, i requires 0 <= i < |rows| => WriteRequest(rows[i]))
  }

  /** handleSave's requests in order: every pending deletion, then an insert
      or update for every dirty row. */
  function SavePlan(rows: seq<NonLocalRow>, dirtyIds: set<string>, deletedIds: seq<string>): seq<Request<map<string, Value>>>
  {
    DeleteRequests(deletedIds) + WriteRequests(DirtyRows(rows, dirtyIds))
  }

  /** The plan is the deletes, one per pending id in order, followed by the
      writes, one per dirty row in row order. */
  lemma SavePlanLayout(rows: seq<NonLocalRow>, dirtyIds: set<string>, deletedIds: seq<string>)
    ensures |SavePlan(rows, dirtyIds, deletedIds)| == |deletedIds| + |DirtyRows(rows, dirtyIds)|
    ensures SavePlan(rows, dirtyIds, deletedIds)[..|deletedIds|] == DeleteRequests(deletedIds)
    ensures SavePlan(rows, dirtyIds, deletedIds)[|deletedIds|..] == WriteRequests(DirtyRows(rows, dirtyIds))
  {
    var deletes := DeleteRequests(deletedIds);
    var writes := WriteRequests(DirtyRows(rows, dirtyIds));
    assert (deletes + writes)[..|deletes|] == deletes;
    assert (deletes + writes)[|deletes|..] == writes;
  }

  /** Every row added and not yet inserted is marked dirty, so the next
      save inserts it. */
  predicate NewRowsDirty(rows: seq<NonLocalRow>, dirtyIds: set<string>)
  {
    forall r :: r in rows && r.isNew ==> r.id in dirtyIds
  }

  /** The plan deletes every pending deletion before any write, inserts every
      new row when new rows are dirty, and writes only dirty rows. */
  lemma SavePlanCoversBuffer(rows: seq<NonLocalRow>, dirtyIds: set<string>, deletedIds: seq<string>)
    requires NewRowsDirty(rows, dirtyIds)
    ensures forall i :: 0 <= i < |deletedIds| ==> SavePlan(rows, dirtyIds, deletedIds)[i] == Delete(deletedIds[i])
    ensures forall i :: |deletedIds| <= i < |SavePlan(rows, dirtyIds, deletedIds)| ==> !SavePlan(rows, dirtyIds, deletedIds)[i].Delete?
    ensures forall r :: r in rows && r.isNew ==> Insert(Payload(r)["id" := Str(r.id)]) in SavePlan(rows, dirtyIds, deletedIds)
    ensures forall r :: r in rows && r.id in dirtyIds && !r.isNew ==> Update(r.id, Payload(r)) in SavePlan(rows, dirtyIds, deletedIds)
    ensures forall q :: q in SavePlan(rows, dirtyIds, deletedIds) && !q.Delete? ==>
      exists r :: r in rows && r.id in dirtyIds && q == WriteRequest(r)
  {
    var dirty := DirtyRows(rows, dirtyIds);
    WritesCoverDirtyRows(dirty, DeleteRequests(deletedIds));
    WritesOnlyFromRows(dirty, DeleteRequests(deletedIds));
  }

  /** Every row of a batch of writes appended to the deletes gets its write. */
  lemma WritesCoverDirtyRows(dirty: seq<NonLocalRow>, deletes: seq<Request<map<string, Value>>>)
    ensures forall r :: r in dirty ==> WriteRequest(r) in deletes + WriteRequests(dirty)
  {
    var plan := deletes + WriteRequests(dirty);
    forall r | r in dirty
      ensures WriteRequest(r) in plan
    {
      var k :| 0 <= k < |dirty| && dirty[k] == r;
      assert plan[|deletes| + k] == WriteRequest(r);
    }
  }

  /** Every non-delete request after the deletes writes one of the rows. */
  lemma WritesOnlyFromRows(dirty: seq<NonLocalRow>, deletes: seq<Request<map<string, Value>>>)
    requires forall q :: q in deletes ==> q.Delete?
    ensures forall q :: q in deletes + WriteRequests(dirty) && !q.Delete? ==> exists r :: r in dirty && q == WriteRequest(r)
  {
    var plan := deletes + WriteRequests(dirty);
    forall q | q in plan && !q.Delete?
      ensures exists r :: r in dirty && q == WriteRequest(r)
    {
      var k :| 0 <= k < |plan| && plan[k] == q;
      assert dirty[k - |deletes|] in dirty;
    }
  }

  /** handleSave's first loop: one delete request per pending deletion,
      stopping at the first error. */
  method SendDeletes(ids: seq<string>, failure: Option<nat>) returns (sent: seq<Request<map<string, Value>>>, ok: bool)
    ensures ok <==> !FailsWithin(failure, |ids|)
    ensures sent == Issued(DeleteRequests(ids), failure)
  {
    ghost var plan := DeleteRequests(ids);
    sent := [];
    var i := 0;
    while i < |ids|
      invariant 0 <= i <= |ids|
      invariant sent == plan[..i]
      invariant failure.None? || failure.value >= i
    {
      sent := sent + [Delete(ids[i])];
      if failure == Some(i) {
        return sent, false;
      }
      i := i + 1;
    }
    ok := true;
  }

  /** handleSave's second loop: an insert or update per dirty row, stopping
      at the first error. */
  method SendWrites(dirty: seq<NonLocalRow>, failure: Option<nat>) returns (sent: seq<Request<map<string, Value>>>, ok: bool)
    ensures ok <==> !FailsWithin(failure, |dirty|)
    ensures sent == Issued(WriteRequests(dirty), failure)
  {
    ghost var plan := WriteRequests(dirty);
    sent := [];
    var j := 0;
    while j < |dirty|
      invariant 0 <= j <= |dirty|
      invariant sent == plan[..j]
      invariant failure.None? || failure.value >= j
    {
      var request := BuildWriteRequest(dirty[j]);
      assert plan[..j + 1] == plan[..j] + [plan[j]];
      sent := sent + [request];
      if failure == Some(j) {
        return sent, false;
      }
      j := j + 1;
    }
    ok := true;
  }

  // ---------------------------------------------------------------------
  // The component's state

  class NonLocalRecordsGrid {
    const role: Role
    /** The signed-in user's id, None when nobody is signed in. */
    const user: Option<string>
    const currentYear: int
    const currentMonth: int

    var year: int
    var rows: seq<NonLocalRow>
    var dirtyIds: set<string>
    var deletedIds: seq<string>

    /** The buffer's invariant: every new row is dirty. */
    ghost predicate Valid()
      reads this
    {
      NewRowsDirty(rows, dirtyIds)
    }

    constructor (role: Role, user: Option<string>, currentYear: int, currentMonth: int)
      ensures Valid()
      ensures this.role == role && this.user == user
      ensures this.currentYear == currentYear && this.currentMonth == currentMonth
      ensures year == currentYear && rows == [] && dirtyIds == {} && deletedIds == []
    {
      this.role := role;
      this.user := user;
      this.currentYear := currentYear;
      this.currentMonth := currentMonth;
      year := currentYear;
      rows := [];
      dirtyIds := {};
      deletedIds := [];
    }

    /** addRow; newId stands for the id crypto.randomUUID() returns. */
    method AddRow(newId: string)
      requires Valid()
      modifies this
      ensures Valid()
      ensures user.None? ==> rows == old(rows) && dirtyIds == old(dirtyIds)
      ensures user.Some? ==> rows == old(rows) + [NewRow(newId, user.value, year)]
      ensures user.Some? ==> dirtyIds == old(dirtyIds) + {newId}
      ensures deletedIds == old(deletedIds) && year == old(year)
    {
      if user.None? {
        return;
      }
      var row := NewRow(newId, user.value, year);
      rows := rows + [row];
      dirtyIds := dirtyIds + {newId};
    }

    /** deleteRow: forget the row; remember its id for deletion unless it was
        never inserted. */
    method DeleteRow(id: string)
      requires Valid()
      modifies this
      ensures Valid()
      ensures FindRow(old(rows), id).None? ==>
        rows == old(rows) && dirtyIds == old(dirtyIds) && deletedIds == old(deletedIds)
      ensures FindRow(old(rows), id).Some? ==>
        && rows == RemoveRow(old(rows), id)
        && dirtyIds == old(dirtyIds) - {id}
        && deletedIds == if FindRow(old(rows), id).value.isNew then old(deletedIds) else old(deletedIds) + [id]
      ensures year == old(year)
    {
      var found := FindRow(rows, id);
      if found.None? {
        return;
      }
      if !found.value.isNew {
        deletedIds := deletedIds + [id];
      }
      rows := RemoveRow(rows, id);
      dirtyIds := dirtyIds - {id};
    }

    /** handleCellChange: a rejected month input changes nothing; otherwise
        the cell of every row with that id is set and the id marked dirty. */
    method HandleCellChange(rowId: string, field: Field, input: CellInput)
      requires Valid()
      modifies this
      ensures Valid()
      ensures Accepted(field, input).None? ==> rows == old(rows) && dirtyIds == old(dirtyIds)
      ensures Accepted(field, input).Some? ==>
        && rows == UpdateRows(old(rows), rowId, field, Accepted(field, input).value)
        && dirtyIds == old(dirtyIds) + {rowId}
      ensures deletedIds == old(deletedIds) && year == old(year)
    {
      var v := Accepted(field, input);
      if v.None? {
        return;
      }
      var before := rows;
      rows := UpdateRows(rows, rowId, field, v.value);
      dirtyIds := dirtyIds + {rowId};
      forall r | r in rows && r.isNew
        ensures r.id in dirtyIds
      {
        var k :| 0 <= k < |rows| && rows[k] == r;
        assert before[k].isNew && before[k].id == r.id;
        assert before[k] in before;
      }
    }

    /** handleSave: send the plan request by request; failure is the
        position of the first request answered with an error, if any. Only a
        complete run clears the buffer. */
    method HandleSave(failure: Option<nat>) returns (sent: seq<Request<map<string, Value>>>, saved: bool)
      requires Valid()
      modifies this
      ensures Valid()
      ensures saved <==> !FailsWithin(failure, |SavePlan(old(rows), old(dirtyIds), old(deletedIds))|)
      ensures sent == Issued(SavePlan(old(rows), old(dirtyIds), old(deletedIds)), failure)
      ensures saved ==> rows == ClearNew(old(rows)) && dirtyIds == {} && deletedIds == []
      ensures !saved ==> rows == old(rows) && dirtyIds == old(dirtyIds) && deletedIds == old(deletedIds)
      ensures saved ==> forall r :: r in old(rows) && r.isNew ==> Insert(Payload(r)["id" := Str(r.id)]) in sent
      ensures year == old(year)
    {
      SavePlanCoversBuffer(rows, dirtyIds, deletedIds);
      var deletes, ok := SendDeletes(deletedIds, failure);
      var dirty := DirtyRows(rows, dirtyIds);
      IssuedConcat(DeleteRequests(deletedIds), WriteRequests(dirty), failure);
      if !ok {
        return deletes, false;
      }
      var writes;
      writes, ok := SendWrites(dirty, After(failure, |deletedIds|));
      sent := deletes + writes;
      if !ok {
        return sent, false;
      }
      dirtyIds := {};
      deletedIds := [];
      rows := ClearNew(rows);
      saved := true;
    }
  }
}
