/** The local records grid: one row per assigned village and reporting year.
    Cells are edited in a client-side buffer (rows and dirty ids) that one
    save writes back to the records table as updates. */
module LocalGrid {

  import opened Common
  import MonthUtils
  import NonLocalGrid

  /** One row of the grid (the joined district, upazila, union, village and
      ward names are display-only and not part of the model). */
  datatype LocalRow = LocalRow(
    id: string,
    villageId: string,
    skUserId: string,
    reportingYear: int,
    hh: int,
    population: int,
    itn2023: int,
    itn2024: int,
    itn2025: int,
    months: MonthValues)

  /** The cells of a row that have an input. */
  datatype Field =
    | Hh | Population | Itn2023 | Itn2024 | Itn2025
    | MonthCell(index: MonthIndex)
  {
    predicate IsItn() { this == Itn2023 || this == Itn2024 || this == Itn2025 }
  }

  /** The number a row holds in a cell. */
  function Get(row: LocalRow, field: Field): int
  {
    match field
    case Hh => row.hh
    case Population => row.population
    case Itn2023 => row.itn2023
    case Itn2024 => row.itn2024
    case Itn2025 => row.itn2025
    case MonthCell(i) => row.months[i]
  }

  /** The row with one cell replaced. */
  function WithCell(row: LocalRow, field: Field, n: int): (r: LocalRow)
    ensures Get(r, field) == n
    ensures forall f :: f != field ==> Get(r, f) == Get(row, f)
    ensures r.id == row.id && r.villageId == row.villageId
    ensures r.skUserId == row.skUserId && r.reportingYear == row.reportingYear
  {
    match field
    case Hh => row.(hh := n)
    case Population => row.(population := n)
    case Itn2023 => row.(itn2023 := n)
    case Itn2024 => row.(itn2024 := n)
    case Itn2025 => row.(itn2025 := n)
    case MonthCell(i) => row.(months := row.months[i := n])
  }

  // ---------------------------------------------------------------------
  // Which inputs are open

  /** This grid's own copy of isMonthEditable. */
  function IsMonthEditable(role: Role, year: int, currentYear: int, currentMonth: int, monthIndex: int): (editable: bool)
    ensures role == Admin ==> editable
    ensures role != Admin ==> (editable <==> year == currentYear && monthIndex + 1 == currentMonth)
  {
    if role == Admin then true
    else if year != currentYear then false
    else monthIndex + 1 == currentMonth
  }

  /** Both grids apply the same month rule. */
  lemma SameRuleAsNonLocalGrid(role: Role, year: int, currentYear: int, currentMonth: int, monthIndex: int)
    ensures IsMonthEditable(role, year, currentYear, currentMonth, monthIndex)
         == NonLocalGrid.IsMonthEditable(role, year, currentYear, currentMonth, monthIndex)
  {
  }

  /** isITNEditable. */
  function IsItnEditable(role: Role): (editable: bool)
    ensures editable <==> role == Admin
  {
    role == Admin
  }

  /** The disabled attribute of each input: the ITN inputs follow
      isITNEditable, the month inputs isMonthEditable, and the H/H and
      population inputs carry none. */
  function InputDisabled(field: Field, role: Role, year: int, currentYear: int, currentMonth: int): (disabled: bool)
    ensures field == Hh || field == Population ==> !disabled
    ensures field.IsItn() ==> (disabled <==> role != Admin)
    ensures field.MonthCell? ==> (disabled <==> !IsMonthEditable(role, year, currentYear, currentMonth, field.index))
  {
    match field
    case Hh => false
    case Population => false
    case MonthCell(i) => !IsMonthEditable(role, year, currentYear, currentMonth, i)
    case _ => !IsItnEditable(role)
  }

  /** An admin has every input open. Anyone else has H/H and population
      open in every year and month, the current month of the current year
      open, and nothing else. */
  lemma {:induction false} OpenInputs(role: Role, year: int, currentYear: int, currentMonth: int)
    ensures role == Admin ==> forall f :: !InputDisabled(f, role, year, currentYear, currentMonth)
    ensures role != Admin ==>
              forall f :: !InputDisabled(f, role, year, currentYear, currentMonth)
                <==> f == Hh || f == Population || (f.MonthCell? && year == currentYear && f.index + 1 == currentMonth)
  {
    forall f: Field
      ensures role != Admin ==>
                (!InputDisabled(f, role, year, currentYear, currentMonth)
                <==> f == Hh || f == Population || (f.MonthCell? && year == currentYear && f.index + 1 == currentMonth))
    {
      match f
      case Hh =>
      case Population =>
      case MonthCell(i) =>
      case _ => assert f.IsItn();
    }
  }

  // ---------------------------------------------------------------------
  // Operations on the row buffer

  /** Every row with the id gets the new cell value; the others are kept. */
  function UpdateRows(rows: seq<LocalRow>, rowId: string, field: Field, n: int): (updated: seq<LocalRow>)
    ensures |updated| == |rows|
    ensures forall i :: 0 <= i < |rows| && rows[i].id != rowId ==> updated[i] == rows[i]
    ensures forall i :: 0 <= i < |rows| && rows[i].id == rowId ==> updated[i] == WithCell(rows[i], field, n)
  {
    if rows == [] then []
    else
      var first := if rows[0].id == rowId then WithCell(rows[0], field, n) else rows[0];
      [first] + UpdateRows(rows[1..], rowId, field, n)
  }

  /** The rows whose id is dirty, in row order. */
  function DirtyRows(rows: seq<LocalRow>, dirtyIds: set<string>): (dirty: seq<LocalRow>)
    ensures forall r :: r in dirty <==> r in rows && r.id in dirtyIds
    ensures |dirty| <= |rows|
  {
    if rows == [] then []
    else (if rows[0].id in dirtyIds then [rows[0]] else []) + DirtyRows(rows[1..], dirtyIds)
  }

  /** The selection works row by row: it splits over a concatenation, so
      the dirty rows keep their order and their copies. */
  lemma {:induction false} DirtyRowsConcat(a: seq<LocalRow>, b: seq<LocalRow>, dirtyIds: set<string>)
    ensures DirtyRows(a + b, dirtyIds) == DirtyRows(a, dirtyIds) + DirtyRows(b, dirtyIds)
  {
    if a == [] {
      assert a + b == b;
    } else {
      var head := if a[0].id in dirtyIds then [a[0]] else [];
      assert (a + b)[0] == a[0];
      assert (a + b)[1..] == a[1..] + b;
      calc {
        DirtyRows(a + b, dirtyIds);
        head + DirtyRows(a[1..] + b, dirtyIds);
        { DirtyRowsConcat(a[1..], b, dirtyIds); }
        head + (DirtyRows(a[1..], dirtyIds) + DirtyRows(b, dirtyIds));
        { ConcatAssoc(head, DirtyRows(a[1..], dirtyIds), DirtyRows(b, dirtyIds)); }
        (head + DirtyRows(a[1..], dirtyIds)) + DirtyRows(b, dirtyIds);
        DirtyRows(a, dirtyIds) + DirtyRows(b, dirtyIds);
      }
    }
  }

  /** A single row is selected iff its id is dirty. */
  lemma DirtyRowsSingle(r: LocalRow, dirtyIds: set<string>)
    ensures DirtyRows([r], dirtyIds) == if r.id in dirtyIds then [r] else []
  {
    assert [r][1..] == [];
  }

  /** The numeric fields of a row as getMonthTotal reads them. */
  function RowRecord(row: LocalRow): MonthUtils.Record
  {
    MonthUtils.WithMonths(
      map[
        "hh" := MonthUtils.Num(row.hh),
        "population" := MonthUtils.Num(row.population),
        "itn_2023" := MonthUtils.Num(row.itn2023),
        "itn_2024" := MonthUtils.Num(row.itn2024),
        "itn_2025" := MonthUtils.Num(row.itn2025),
        "reporting_year" := MonthUtils.Num(row.reportingYear)],
      row.months)
  }

  /** The Total column of a row is the sum of its twelve months, whatever
      the household, population, ITN and year fields hold. */
  lemma RowTotalIsMonthSum(row: LocalRow)
    ensures MonthUtils.MonthTotal(RowRecord(row)) == MonthUtils.Sum(row.months)
  {
    MonthUtils.TotalOfMonths(RowRecord(row), row.months);
  }

  /** An accepted edit of a month cell moves the row's total by the change
      of that cell; an edit of any other cell leaves the total alone. */
  lemma EditMovesTotal(row: LocalRow, field: Field, n: int)
    ensures field.MonthCell? ==>
              MonthUtils.MonthTotal(RowRecord(WithCell(row, field, n)))
              == MonthUtils.MonthTotal(RowRecord(row)) - row.months[field.index] + n
    ensures !field.MonthCell? ==>
              MonthUtils.MonthTotal(RowRecord(WithCell(row, field, n))) == MonthUtils.MonthTotal(RowRecord(row))
  {
    var edited := WithCell(row, field, n);
    RowTotalIsMonthSum(row);
    RowTotalIsMonthSum(edited);
    if field.MonthCell? {
      MonthUtils.SumUpdate(row.months, field.index, n);
    } else {
      assert edited.months == row.months;
    }
  }

  // ---------------------------------------------------------------------
  // What a save sends

  const BaseKeys: set<string> := {"hh", "population", "itn_2023", "itn_2024", "itn_2025"}

  function BasePayload(row: LocalRow): map<string, int>
  {
    map[
      "hh" := row.hh,
      "population" := row.population,
      "itn_2023" := row.itn2023,
      "itn_2024" := row.itn2024,
      "itn_2025" := row.itn2025]
  }

  /** The update body handleSave builds for a row: H/H, population, the
      three ITN counters and the twelve months, under exactly those keys. */
  function UpdatePayload(row: LocalRow): (body: map<string, int>)
    ensures body.Keys == BaseKeys + set i | 0 <= i < 12 :: MonthUtils.MonthColumns[i]
  {
    MonthUtils.PutMonthsFields(BasePayload(row), row.months);
    MonthUtils.PutMonths(BasePayload(row), row.months)
  }

  lemma BasePayloadFields(row: LocalRow)
    ensures BasePayload(row).Keys == BaseKeys
    ensures forall key :: key in BaseKeys ==> key !in MonthUtils.MonthColumns
  {
    forall key | key in BaseKeys
      ensures key !in MonthUtils.MonthColumns
    {
      MonthUtils.NotAMonthColumn(key);
    }
  }

  /** The update body holds exactly hh, population, the three ITN counters
      and the twelve months, each with the row's value; the village, the
      owner, the reporting year and the id are never sent. */
  lemma UpdatePayloadFields(row: LocalRow)
    ensures forall i :: 0 <= i < 12 ==> UpdatePayload(row)[MonthUtils.MonthColumns[i]] == row.months[i]
    ensures UpdatePayload(row)["hh"] == row.hh && UpdatePayload(row)["population"] == row.population
    ensures UpdatePayload(row)["itn_2023"] == row.itn2023
    ensures UpdatePayload(row)["itn_2024"] == row.itn2024
    ensures UpdatePayload(row)["itn_2025"] == row.itn2025
    ensures "village_id" !in UpdatePayload(row) && "sk_user_id" !in UpdatePayload(row)
    ensures "reporting_year" !in UpdatePayload(row) && "id" !in UpdatePayload(row)
  {
    BasePayloadFields(row);
    MonthUtils.PutMonthsFields(BasePayload(row), row.months);
    MonthUtils.NotAMonthColumn("village_id");
    MonthUtils.NotAMonthColumn("sk_user_id");
    MonthUtils.NotAMonthColumn("reporting_year");
    MonthUtils.NotAMonthColumn("id");
  }

  /** One update by id per dirty row, in row order. */
  function SavePlan(rows: seq<LocalRow>, dirtyIds: set<string>): (plan: seq<Request<map<string, int>>>)
    ensures |plan| == |DirtyRows(rows, dirtyIds)|
    ensures forall k :: 0 <= k < |plan| ==>
              plan[k] == Update(DirtyRows(rows, dirtyIds)[k].id, UpdatePayload(DirtyRows(rows, dirtyIds)[k]))
  {
    var dirty := DirtyRows(rows, dirtyIds);
    seq(|dirty|, k requires 0 <= k < |dirty| => Update(dirty[k].id, UpdatePayload(dirty[k])))
  }

  /** Every row whose id is dirty gets its update, and no other row does. */
  lemma SavePlanWritesDirtyRows(rows: seq<LocalRow>, dirtyIds: set<string>)
    ensures forall r :: r in rows && r.id in dirtyIds ==> Update(r.id, UpdatePayload(r)) in SavePlan(rows, dirtyIds)
    ensures forall q :: q in SavePlan(rows, dirtyIds) ==>
              q.Update? && exists r :: r in rows && r.id in dirtyIds && q == Update(r.id, UpdatePayload(r))
  {
    var plan := SavePlan(rows, dirtyIds);
    var dirty := DirtyRows(rows, dirtyIds);
    forall r | r in rows && r.id in dirtyIds
      ensures Update(r.id, UpdatePayload(r)) in plan
    {
      var k :| 0 <= k < |dirty| && dirty[k] == r;
      assert plan[k] == Update(r.id, UpdatePayload(r));
    }
    forall q | q in plan
      ensures q.Update? && exists r :: r in rows && r.id in dirtyIds && q == Update(r.id, UpdatePayload(r))
    {
      var k :| 0 <= k < |plan| && plan[k] == q;
      assert dirty[k] in dirty;
    }
  }

  /** The loop body of handleSave for one dirty row. */
  method BuildUpdateRequest(row: LocalRow) returns (request: Request<map<string, int>>)
    ensures request == Update(row.id, UpdatePayload(row))
  {
    var payload := MonthUtils.CopyMonthColumns(BasePayload(row), row.months);
    request := Update(row.id, payload);
  }

  /** handleSave's loop: one update per dirty row, stopping at the first
      error. */
  method SendUpdates(rows: seq<LocalRow>, dirtyIds: set<string>, failure: Option<nat>)
    returns (sent: seq<Request<map<string, int>>>, ok: bool)
    ensures ok <==> !FailsWithin(failure, |SavePlan(rows, dirtyIds)|)
    ensures sent == Issued(SavePlan(rows, dirtyIds), failure)
  {
    ghost var plan := SavePlan(rows, dirtyIds);
    var dirty := DirtyRows(rows, dirtyIds);
    sent := [];
    var k := 0;
    while k < |dirty|
      invariant 0 <= k <= |dirty|
      invariant sent == plan[..k]
      invariant failure.None? || failure.value >= k
    {
      var request := BuildUpdateRequest(dirty[k]);
      assert plan[..k + 1] == plan[..k] + [plan[k]];
      sent := sent + [request];
      if failure == Some(k) {
        return sent, false;
      }
      k := k + 1;
    }
    ok := true;
  }

  /** How a click on Save ended. */
  datatype SaveOutcome = NothingToSave | Saved | Failed

  // ---------------------------------------------------------------------
  // The component's state

  class LocalRecordsGrid {
    const role: Role
    const currentYear: int
    const currentMonth: int

    var year: int
    var rows: seq<LocalRow>
    var dirtyIds: set<string>

    constructor (role: Role, currentYear: int, currentMonth: int)
      ensures this.role == role && this.currentYear == currentYear && this.currentMonth == currentMonth
      ensures year == currentYear && rows == [] && dirtyIds == {}
    {
      this.role := role;
      this.currentYear := currentYear;
      this.currentMonth := currentMonth;
      year := currentYear;
      rows := [];
      dirtyIds := {};
    }

    /** handleCellChange: every input is numeric; a rejected input changes
        nothing, an accepted one sets the cell of every row with that id and
        marks the id dirty. The handler itself consults no role or month. */
    method HandleCellChange(rowId: string, field: Field, input: CellInput)
      modifies this
      ensures CellNumber(input).None? ==> rows == old(rows) && dirtyIds == old(dirtyIds)
      ensures CellNumber(input).Some? ==>
                rows == UpdateRows(old(rows), rowId, field, CellNumber(input).value)
                && dirtyIds == old(dirtyIds) + {rowId}
      ensures year == old(year)
    {
      var n := CellNumber(input);
      if n.None? {
        return;
      }
      rows := UpdateRows(rows, rowId, field, n.value);
      dirtyIds := dirtyIds + {rowId};
    }

    /** handleSave: nothing happens without dirty ids; otherwise the updates
        are sent one by one and the dirty ids are cleared only when every
        one of them got through. */
    method HandleSave(failure: Option<nat>) returns (sent: seq<Request<map<string, int>>>, outcome: SaveOutcome)
      modifies this
      ensures old(dirtyIds) == {} ==> outcome == NothingToSave && sent == []
      ensures old(dirtyIds) != {} ==> sent == Issued(SavePlan(old(rows), old(dirtyIds)), failure)
      ensures old(dirtyIds) != {} ==>
                (outcome == Saved <==> !FailsWithin(failure, |SavePlan(old(rows), old(dirtyIds))|))
                && outcome != NothingToSave
      ensures outcome == Saved ==> dirtyIds == {}
      ensures outcome != Saved ==> dirtyIds == old(dirtyIds)
      ensures rows == old(rows) && year == old(year)
    {
      if dirtyIds == {} {
        return [], NothingToSave;
      }
      var ok;
      sent, ok := SendUpdates(rows, dirtyIds, failure);
      if !ok {
        return sent, Failed;
      }
      dirtyIds := {};
      outcome := Saved;
    }
  }
}
