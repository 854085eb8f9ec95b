/** The admin review screen: the monthly approval ledger, the statuses the
    screen reads from it, and the approve actions that write to it. */
module AdminReview {

  import opened Common
  import MonthUtils
  import LocalGrid
  import NonLocalGrid

  /** Which records table the screen is showing. */
  datatype RecordType = Local | NonLocal

  datatype ApprovalStatus = Pending | Approved

  /** The text the backend stores for a status. */
  function StatusText(status: ApprovalStatus): string
  {
    match status
    case Pending => "PENDING"
    case Approved => "APPROVED"
  }

  // ---------------------------------------------------------------------
  // The monthly_approvals ledger

  /** The columns that identify one approval: one record, one year, one
      calendar month (1..12). */
  datatype LedgerKey = LedgerKey(recordType: RecordType, recordId: string, reportingYear: int, month: int)

  datatype LedgerEntry = LedgerEntry(
    key: LedgerKey,
    status: ApprovalStatus,
    approvedBy: Option<string>,
    approvedAt: Option<int>)

  /** No two entries of the ledger share a key. */
  ghost predicate KeysUnique(entries: seq<LedgerEntry>)
  {
    forall i, j :: 0 <= i < j < |entries| ==> entries[i].key != entries[j].key
  }

  /** The first entry carrying a key, as a read of the table by its key
      columns finds it. */
  function Lookup(entries: seq<LedgerEntry>, key: LedgerKey): (found: Option<LedgerEntry>)
    ensures found.None? <==> forall e :: e in entries ==> e.key != key
    ensures found.Some? ==> found.value in entries && found.value.key == key
  {
    if entries == [] then None
    else if entries[0].key == key then Some(entries[0])
    else Lookup(entries[1..], key)
  }

  /** With unique keys, Lookup finds the one entry carrying the key. */
  lemma {:induction false} LookupUnique(entries: seq<LedgerEntry>, i: nat)
    requires KeysUnique(entries) && i < |entries|
    ensures Lookup(entries, entries[i].key) == Some(entries[i])
  {
    if i > 0 {
      assert entries[0].key != entries[i].key;
      LookupUnique(entries[1..], i - 1);
    }
  }

  /** Every entry carrying the key replaced by e. */
  function Replace(entries: seq<LedgerEntry>, e: LedgerEntry): (r: seq<LedgerEntry>)
    ensures |r| == |entries|
    ensures forall i :: 0 <= i < |entries| ==> r[i] == (if entries[i].key == e.key then e else entries[i])
  {
    seq(|entries|, i requires 0 <= i < |entries| => if entries[i].key == e.key then e else entries[i])
  }

  /** An upsert on the key columns: the entry with e's key is overwritten,
      or e is added when there is none. */
  function Upserted(entries: seq<LedgerEntry>, e: LedgerEntry): (r: seq<LedgerEntry>)
    ensures e in r
    ensures forall x :: x in r ==> x == e || (x in entries && x.key != e.key)
    ensures forall x :: x in entries && x.key != e.key ==> x in r
  {
    if exists x :: x in entries && x.key == e.key then
      var x :| x in entries && x.key == e.key;
      var i :| 0 <= i < |entries| && entries[i] == x;
      assert Replace(entries, e)[i] == e;
      Replace(entries, e)
    else
      entries + [e]
  }

  lemma {:induction false} LookupReplaceSame(entries: seq<LedgerEntry>, e: LedgerEntry)
    requires exists x :: x in entries && x.key == e.key
    ensures Lookup(Replace(entries, e), e.key) == Some(e)
  {
    var r := Replace(entries, e);
    if entries[0].key != e.key {
      assert r[1..] == Replace(entries[1..], e);
      assert r[0] == entries[0];
      var x :| x in entries && x.key == e.key;
      assert x in entries[1..];
      LookupReplaceSame(entries[1..], e);
    }
  }

  lemma {:induction false} LookupReplaceOther(entries: seq<LedgerEntry>, e: LedgerEntry, key: LedgerKey)
    requires key != e.key
    ensures Lookup(Replace(entries, e), key) == Lookup(entries, key)
  {
    if entries != [] {
      var r := Replace(entries, e);
      assert r[1..] == Replace(entries[1..], e);
      assert r[0] == if entries[0].key == e.key then e else entries[0];
      LookupReplaceOther(entries[1..], e, key);
    }
  }

  lemma {:induction false} LookupAppend(entries: seq<LedgerEntry>, e: LedgerEntry, key: LedgerKey)
    requires forall x :: x in entries ==> x.key != e.key
    ensures Lookup(entries + [e], key) == if key == e.key then Some(e) else Lookup(entries, key)
  {
    if entries != [] {
      assert (entries + [e])[1..] == entries[1..] + [e];
      LookupAppend(entries[1..], e, key);
    } else {
      assert [e][1..] == [];
    }
  }

  /** After an upsert, reading e's key gives e, and every other key reads as
      before. */
  lemma LookupAfterUpsert(entries: seq<LedgerEntry>, e: LedgerEntry, key: LedgerKey)
    ensures Lookup(Upserted(entries, e), key) == if key == e.key then Some(e) else Lookup(entries, key)
  {
    if exists x :: x in entries && x.key == e.key {
      if key == e.key {
        LookupReplaceSame(entries, e);
      } else {
        LookupReplaceOther(entries, e, key);
      }
    } else {
      LookupAppend(entries, e, key);
    }
  }

  /** An upsert keeps the ledger free of duplicate keys. */
  lemma UpsertKeepsKeysUnique(entries: seq<LedgerEntry>, e: LedgerEntry)
    requires KeysUnique(entries)
    ensures KeysUnique(Upserted(entries, e))
  {
    var r := Upserted(entries, e);
    if !exists x :: x in entries && x.key == e.key {
      forall i, j | 0 <= i < j < |r|
        ensures r[i].key != r[j].key
      {
        if j == |entries| {
          assert r[i] in entries;
        }
      }
    }
  }

  // ---------------------------------------------------------------------
  // What the screen reads

  /** One row of the approvals state: record id, month and status. */
  datatype ApprovalRow = ApprovalRow(recordId: string, month: int, status: ApprovalStatus)

  predicate Selected(e: LedgerEntry, recordType: RecordType, year: int)
  {
    e.key.recordType == recordType && e.key.reportingYear == year
  }

  function RowOf(e: LedgerEntry): ApprovalRow
  {
    ApprovalRow(e.key.recordId, e.key.month, e.status)
  }

  /** The approvals query of fetchData: the entries of the shown record type
      and year, in ledger order, projected to record, month and status. */
  function Fetch(entries: seq<LedgerEntry>, recordType: RecordType, year: int): (rows: seq<ApprovalRow>)
    ensures |rows| <= |entries|
    ensures forall a :: a in rows <==> exists e :: e in entries && Selected(e, recordType, year) && a == RowOf(e)
  {
    if entries == [] then []
    else
      var rest := Fetch(entries[1..], recordType, year);
      assert forall e :: e in entries <==> e == entries[0] || e in entries[1..];
      if Selected(entries[0], recordType, year) then [RowOf(entries[0])] + rest else rest
  }

  predicate Matches(a: ApprovalRow, recordId: string, month: int)
  {
    a.recordId == recordId && a.month == month
  }

  /** Index i holds the first approval for the record and month. */
  predicate FirstMatchAt(approvals: seq<ApprovalRow>, recordId: string, month: int, i: int)
  {
    0 <= i < |approvals| && Matches(approvals[i], recordId, month)
    && forall j :: 0 <= j < i ==> !Matches(approvals[j], recordId, month)
  }

  /** getStatus: the status of the first approval for the record and month,
      absent when there is none. */
  function GetStatus(approvals: seq<ApprovalRow>, recordId: string, month: int): (status: Option<ApprovalStatus>)
    ensures status.None? <==> forall a :: a in approvals ==> !Matches(a, recordId, month)
    ensures forall i :: FirstMatchAt(approvals, recordId, month, i) ==> status == Some(approvals[i].status)
  {
    if approvals == [] then None
    else if Matches(approvals[0], recordId, month) then Some(approvals[0].status)
    else
      var status := GetStatus(approvals[1..], recordId, month);
      assert forall a :: a in approvals ==> a == approvals[0] || a in approvals[1..];
      assert forall i :: FirstMatchAt(approvals, recordId, month, i) ==> FirstMatchAt(approvals[1..], recordId, month, i - 1);
      status
  }

  /** The status a ledger entry, if any, holds. */
  function StatusOf(found: Option<LedgerEntry>): Option<ApprovalStatus>
  {
    if found.Some? then Some(found.value.status) else None
  }

  /** After a fetch, getStatus reports exactly what the ledger holds for the
      record, the shown type and year, and the month. */
  lemma {:induction false} FetchThenGetStatus(entries: seq<LedgerEntry>, recordType: RecordType, year: int, recordId: string, month: int)
    ensures GetStatus(Fetch(entries, recordType, year), recordId, month)
         == StatusOf(Lookup(entries, LedgerKey(recordType, recordId, year, month)))
  {
    if entries != [] {
      var key := LedgerKey(recordType, recordId, year, month);
      var rest := Fetch(entries[1..], recordType, year);
      FetchThenGetStatus(entries[1..], recordType, year, recordId, month);
      if Selected(entries[0], recordType, year) {
        assert Fetch(entries, recordType, year) == [RowOf(entries[0])] + rest;
        assert ([RowOf(entries[0])] + rest)[1..] == rest;
        assert Matches(RowOf(entries[0]), recordId, month) <==> entries[0].key == key;
      } else {
        assert entries[0].key != key;
      }
    }
  }

  /** With one entry per key, every ledger entry of the shown type and year
      is what getStatus reports for its record and month after a fetch. */
  lemma FetchShowsEntry(entries: seq<LedgerEntry>, i: nat)
    requires KeysUnique(entries) && i < |entries|
    ensures GetStatus(Fetch(entries, entries[i].key.recordType, entries[i].key.reportingYear),
                      entries[i].key.recordId, entries[i].key.month)
         == Some(entries[i].status)
  {
    var k := entries[i].key;
    LookupUnique(entries, i);
    FetchThenGetStatus(entries, k.recordType, k.reportingYear, k.recordId, k.month);
  }

  /** getCellColor: green for APPROVED, yellow for PENDING, red without an
      entry. */
  function CellColour(status: Option<ApprovalStatus>): (colour: Colour)
    ensures colour == Green <==> status == Some(Approved)
    ensures colour == Yellow <==> status == Some(Pending)
    ensures colour == Red <==> status.None?
  {
    match status
    case Some(Approved) => Green
    case Some(Pending) => Yellow
    case None => Red
  }

  /** getCellColor: red exactly when the record has no approval for the
      month, yellow or green by the status of the first one otherwise. */
  function GetCellColour(approvals: seq<ApprovalRow>, recordId: string, month: int): (colour: Colour)
    ensures colour == Red <==> forall a :: a in approvals ==> !Matches(a, recordId, month)
    ensures forall i :: FirstMatchAt(approvals, recordId, month, i) ==>
              (colour == Green <==> approvals[i].status == Approved)
  {
    CellColour(GetStatus(approvals, recordId, month))
  }

  /** The text of a month button: the status, or a dash without one. */
  function CellLabel(status: Option<ApprovalStatus>): (text: string)
    ensures text == "—" <==> status.None?
    ensures status.Some? ==> text == StatusText(status.value)
  {
    if status.Some? then StatusText(status.value) else "—"
  }

  /** A button's label and its colour tell the same story. */
  lemma LabelAgreesWithColour(status: Option<ApprovalStatus>)
    ensures CellLabel(status) == "APPROVED" <==> CellColour(status) == Green
    ensures CellLabel(status) == "PENDING" <==> CellColour(status) == Yellow
    ensures CellLabel(status) == "—" <==> CellColour(status) == Red
  {
  }

  /** The calendar month of the month column at position idx. */
  function MonthOfColumn(idx: MonthIndex): (month: int)
    ensures 1 <= month <= 12
  {
    idx + 1
  }

  function ColumnOfMonth(month: int): (idx: MonthIndex)
    requires 1 <= month <= 12
  {
    month - 1
  }

  /** Column positions and calendar months correspond one to one, January
      being month 1. */
  lemma ColumnMonthRoundTrip(idx: MonthIndex, month: int)
    ensures ColumnOfMonth(MonthOfColumn(idx)) == idx
    ensures 1 <= month <= 12 ==> MonthOfColumn(ColumnOfMonth(month)) == month
    ensures MonthOfColumn(idx) == 1 <==> MonthUtils.MonthColumns[idx] == "jan_cases"
  {
    MonthUtils.ColumnsDistinct();
  }

  // ---------------------------------------------------------------------
  // The rows of the table

  /** A record as the records query returns it, from the table matching the
      shown record type. */
  datatype FetchedRecord =
    | FetchedLocal(local: LocalGrid.LocalRow)
    | FetchedNonLocal(nonLocal: NonLocalGrid.NonLocalRow)

  /** The Location column: the village id of a local record, "country -
      village" for a non-local one. */
  function Location(record: FetchedRecord): (place: string)
    ensures record.FetchedLocal? ==> place == record.local.villageId
    ensures record.FetchedNonLocal? ==>
              place == record.nonLocal.country + " - " + record.nonLocal.villageName
  {
    match record
    case FetchedLocal(r) => r.villageId
    case FetchedNonLocal(r) => r.country + " - " + r.villageName
  }

  /** For non-local records whose country is one of the offered ones, the
      label names the country and the village unambiguously. */
  lemma NonLocalLocationIdentifiesPlace(a: NonLocalGrid.NonLocalRow, b: NonLocalGrid.NonLocalRow)
    requires a.country in NonLocalGrid.Countries && b.country in NonLocalGrid.Countries
    ensures Location(FetchedNonLocal(a)) == Location(FetchedNonLocal(b))
        <==> a.country == b.country && a.villageName == b.villageName
  {
    var la := Location(FetchedNonLocal(a));
    var lb := Location(FetchedNonLocal(b));
    if la == lb {
      assert la[0] == a.country[0] && lb[0] == b.country[0];
      assert a.country == b.country;
      var n := |a.country| + 3;
      assert la[n..] == a.villageName;
      assert lb[n..] == b.villageName;
    }
  }

  // ---------------------------------------------------------------------
  // Approving

  /** The entry approveMonth upserts. */
  function ApprovalEntry(recordType: RecordType, recordId: string, year: int, month: int, approver: string, now: int): (e: LedgerEntry)
    ensures e.key == LedgerKey(recordType, recordId, year, month)
    ensures e.status == Approved && e.approvedBy == Some(approver) && e.approvedAt == Some(now)
  {
    LedgerEntry(LedgerKey(recordType, recordId, year, month), Approved, Some(approver), Some(now))
  }

  /** The ledger after approveAllRow's loop has handled months 1..k; the
      upsert of a month in failedMonths came back with an error and wrote
      nothing, and the loop went on. */
  function ApproveMonths(
    entries: seq<LedgerEntry>, recordType: RecordType, recordId: string, year: int, approver: string,
    stamps: seq<int>, failedMonths: set<int>, k: nat): (r: seq<LedgerEntry>)
    requires k <= 12 && |stamps| == 12
    ensures forall x :: x in r ==> x in entries || RowApproval(x, recordType, recordId, year, approver, stamps, failedMonths, k)
  {
    if k == 0 then entries
    else
      var before := ApproveMonths(entries, recordType, recordId, year, approver, stamps, failedMonths, k - 1);
      ApproveStep(before, recordType, recordId, year, approver, stamps, failedMonths, k)
  }

  /** x is the APPROVED entry the approve-all loop writes for one of the
      months 1..k of the row whose upsert went through. */
  predicate RowApproval(
    x: LedgerEntry, recordType: RecordType, recordId: string, year: int, approver: string,
    stamps: seq<int>, failedMonths: set<int>, k: nat)
    requires |stamps| == 12
  {
    1 <= x.key.month <= k && k <= 12 && x.key.month !in failedMonths
    && x == ApprovalEntry(recordType, recordId, year, x.key.month, approver, stamps[x.key.month - 1])
  }

  /** One pass of approveAllRow's loop, for month k. */
  function ApproveStep(
    before: seq<LedgerEntry>, recordType: RecordType, recordId: string, year: int, approver: string,
    stamps: seq<int>, failedMonths: set<int>, k: nat): (r: seq<LedgerEntry>)
    requires 1 <= k <= 12 && |stamps| == 12
    ensures k in failedMonths ==> r == before
    ensures k !in failedMonths ==> ApprovalEntry(recordType, recordId, year, k, approver, stamps[k - 1]) in r
    ensures forall x :: x in r ==> x in before || x == ApprovalEntry(recordType, recordId, year, k, approver, stamps[k - 1])
  {
    if k in failedMonths then before
    else Upserted(before, ApprovalEntry(recordType, recordId, year, k, approver, stamps[k - 1]))
  }

  /** After the pass for month k, the month's key reads as its new entry
      unless the upsert failed, and every other key reads as before. */
  lemma LookupAfterStep(
    before: seq<LedgerEntry>, recordType: RecordType, recordId: string, year: int, approver: string,
    stamps: seq<int>, failedMonths: set<int>, k: nat, key: LedgerKey)
    requires 1 <= k <= 12 && |stamps| == 12
    ensures Lookup(ApproveStep(before, recordType, recordId, year, approver, stamps, failedMonths, k), key)
         == if key == LedgerKey(recordType, recordId, year, k) && k !in failedMonths
            then Some(ApprovalEntry(recordType, recordId, year, k, approver, stamps[k - 1]))
            else Lookup(before, key)
  {
    if k !in failedMonths {
      LookupAfterUpsert(before, ApprovalEntry(recordType, recordId, year, k, approver, stamps[k - 1]), key);
    }
  }


  /** The keys approveAllRow's loop has written after months 1..k: the
      record's months up to k whose upsert went through. */
  predicate ApprovedKey(key: LedgerKey, recordType: RecordType, recordId: string, year: int, failedMonths: set<int>, k: nat)
  {
    key.recordType == recordType && key.recordId == recordId && key.reportingYear == year
    && 1 <= key.month <= k && key.month !in failedMonths
  }

  /** Months 1..k that got through hold this approver's APPROVED entry;
      every other key, other records, years and types as well as the failed
      months, reads as before. */
  lemma ApproveMonthsEffect(
    entries: seq<LedgerEntry>, recordType: RecordType, recordId: string, year: int, approver: string,
    stamps: seq<int>, failedMonths: set<int>, k: nat, key: LedgerKey)
    requires k <= 12 && |stamps| == 12
    ensures ApprovedKey(key, recordType, recordId, year, failedMonths, k) ==>
              Lookup(ApproveMonths(entries, recordType, recordId, year, approver, stamps, failedMonths, k), key)
              == Some(ApprovalEntry(recordType, recordId, year, key.month, approver, stamps[key.month - 1]))
    ensures !ApprovedKey(key, recordType, recordId, year, failedMonths, k) ==>
              Lookup(ApproveMonths(entries, recordType, recordId, year, approver, stamps, failedMonths, k), key)
              == Lookup(entries, key)
  {
    if ApprovedKey(key, recordType, recordId, year, failedMonths, k) {
      ApprovedMonthsHold(entries, recordType, recordId, year, approver, stamps, failedMonths, k, key);
    } else {
      OtherKeysUntouched(entries, recordType, recordId, year, approver, stamps, failedMonths, k, key);
    }
  }

  lemma {:induction false} ApprovedMonthsHold(
    entries: seq<LedgerEntry>, recordType: RecordType, recordId: string, year: int, approver: string,
    stamps: seq<int>, failedMonths: set<int>, k: nat, key: LedgerKey)
    requires k <= 12 && |stamps| == 12
    requires ApprovedKey(key, recordType, recordId, year, failedMonths, k)
    ensures Lookup(ApproveMonths(entries, recordType, recordId, year, approver, stamps, failedMonths, k), key)
         == Some(ApprovalEntry(recordType, recordId, year, key.month, approver, stamps[key.month - 1]))
  {
    var before := ApproveMonths(entries, recordType, recordId, year, approver, stamps, failedMonths, k - 1);
    LookupAfterStep(before, recordType, recordId, year, approver, stamps, failedMonths, k, key);
    if key.month != k {
      ApprovedMonthsHold(entries, recordType, recordId, year, approver, stamps, failedMonths, k - 1, key);
    }
  }

  lemma {:induction false} OtherKeysUntouched(
    entries: seq<LedgerEntry>, recordType: RecordType, recordId: string, year: int, approver: string,
    stamps: seq<int>, failedMonths: set<int>, k: nat, key: LedgerKey)
    requires k <= 12 && |stamps| == 12
    requires !ApprovedKey(key, recordType, recordId, year, failedMonths, k)
    ensures Lookup(ApproveMonths(entries, recordType, recordId, year, approver, stamps, failedMonths, k), key)
         == Lookup(entries, key)
  {
    if k > 0 {
      var before := ApproveMonths(entries, recordType, recordId, year, approver, stamps, failedMonths, k - 1);
      OtherKeysUntouched(entries, recordType, recordId, year, approver, stamps, failedMonths, k - 1, key);
      LookupAfterStep(before, recordType, recordId, year, approver, stamps, failedMonths, k, key);
    }
  }

  lemma {:induction false} ApproveMonthsKeepsKeysUnique(
    entries: seq<LedgerEntry>, recordType: RecordType, recordId: string, year: int, approver: string,
    stamps: seq<int>, failedMonths: set<int>, k: nat)
    requires k <= 12 && |stamps| == 12
    requires KeysUnique(entries)
    ensures KeysUnique(ApproveMonths(entries, recordType, recordId, year, approver, stamps, failedMonths, k))
  {
    if k > 0 {
      ApproveMonthsKeepsKeysUnique(entries, recordType, recordId, year, approver, stamps, failedMonths, k - 1);
      if k !in failedMonths {
        var before := ApproveMonths(entries, recordType, recordId, year, approver, stamps, failedMonths, k - 1);
        UpsertKeepsKeysUnique(before, ApprovalEntry(recordType, recordId, year, k, approver, stamps[k - 1]));
      }
    }
  }

  /** Once an approval went through and the screen reloaded, the cell shows
      APPROVED in green, and every other cell of the screen is as it was. */
  lemma ApprovedCellTurnsGreen(
    entries: seq<LedgerEntry>, recordType: RecordType, recordId: string, year: int, month: int,
    approver: string, now: int, otherId: string, otherMonth: int)
    ensures var shown := Fetch(Upserted(entries, ApprovalEntry(recordType, recordId, year, month, approver, now)), recordType, year);
            GetStatus(shown, recordId, month) == Some(Approved) && GetCellColour(shown, recordId, month) == Green
    ensures (otherId, otherMonth) != (recordId, month) ==>
              GetStatus(Fetch(Upserted(entries, ApprovalEntry(recordType, recordId, year, month, approver, now)), recordType, year), otherId, otherMonth)
              == GetStatus(Fetch(entries, recordType, year), otherId, otherMonth)
  {
    var e := ApprovalEntry(recordType, recordId, year, month, approver, now);
    var after := Upserted(entries, e);
    FetchThenGetStatus(after, recordType, year, recordId, month);
    LookupAfterUpsert(entries, e, LedgerKey(recordType, recordId, year, month));
    FetchThenGetStatus(after, recordType, year, otherId, otherMonth);
    FetchThenGetStatus(entries, recordType, year, otherId, otherMonth);
    LookupAfterUpsert(entries, e, LedgerKey(recordType, recordId, year, otherMonth));
    LookupAfterUpsert(entries, e, LedgerKey(recordType, otherId, year, otherMonth));
  }

  /** After approveAllRow and a reload, every month of the record whose
      upsert went through shows APPROVED; with no failed upsert, all
      twelve do. */
  lemma AllRowApproved(
    entries: seq<LedgerEntry>, recordType: RecordType, recordId: string, year: int, approver: string,
    stamps: seq<int>, failedMonths: set<int>, month: int)
    requires |stamps| == 12
    requires 1 <= month <= 12 && month !in failedMonths
    ensures GetStatus(Fetch(ApproveMonths(entries, recordType, recordId, year, approver, stamps, failedMonths, 12), recordType, year), recordId, month)
         == Some(Approved)
  {
    var after := ApproveMonths(entries, recordType, recordId, year, approver, stamps, failedMonths, 12);
    FetchThenGetStatus(after, recordType, year, recordId, month);
    ApproveMonthsEffect(entries, recordType, recordId, year, approver, stamps, failedMonths, 12, LedgerKey(recordType, recordId, year, month));
  }

  // ---------------------------------------------------------------------
  // The two status systems

  /** The reporter's colour never reads the ledger: a reporter's non-zero
      count in the current month stays yellow after an admin approved it,
      while the admin screen shows the same month green. */
  lemma ApprovalNotSeenByReporter(
    entries: seq<LedgerEntry>, recordType: RecordType, recordId: string, year: int, currentMonth: int,
    approver: string, now: int, value: int)
    requires 1 <= currentMonth <= 12 && value != 0
    ensures var shown := Fetch(Upserted(entries, ApprovalEntry(recordType, recordId, year, currentMonth, approver, now)), recordType, year);
            GetCellColour(shown, recordId, currentMonth) == Green
    ensures NonLocalGrid.MonthStatus(value, ColumnOfMonth(currentMonth), Sk, year, year, currentMonth) == Yellow
  {
    ApprovedCellTurnsGreen(entries, recordType, recordId, year, currentMonth, approver, now, recordId, currentMonth);
  }

  /** Conversely a past month with a non-zero count is green for the
      reporter although no approval exists and the admin screen shows it
      red. */
  lemma GreenWithoutApproval(
    approvals: seq<ApprovalRow>, recordId: string, value: int, monthIndex: MonthIndex,
    year: int, currentYear: int, currentMonth: int)
    requires value != 0 && year < currentYear
    requires forall a :: a in approvals ==> !Matches(a, recordId, MonthOfColumn(monthIndex))
    ensures GetCellColour(approvals, recordId, MonthOfColumn(monthIndex)) == Red
    ensures NonLocalGrid.MonthStatus(value, monthIndex, Sk, year, currentYear, currentMonth) == Green
  {
  }

  // ---------------------------------------------------------------------
  // State

  /** The monthly_approvals table, as the screens' backend holds it. */
  class ApprovalLedger {
    var entries: seq<LedgerEntry>

    ghost predicate Valid()
      reads this
    {
      KeysUnique(entries)
    }

    constructor (entries: seq<LedgerEntry>)
      requires KeysUnique(entries)
      ensures Valid() && this.entries == entries
    {
      this.entries := entries;
    }

    /** An upsert of one approval. */
    method Upsert(e: LedgerEntry)
      requires Valid()
      modifies this
      ensures Valid()
      ensures entries == Upserted(old(entries), e)
    {
      UpsertKeepsKeysUnique(entries, e);
      entries := Upserted(entries, e);
    }

    /** One pass of approveAllRow's loop: the upsert for month m, which
        changes nothing when that upsert fails. */
    method ApproveOne(recordType: RecordType, recordId: string, year: int, approver: string,
                      stamps: seq<int>, failedMonths: set<int>, m: int)
      requires Valid() && |stamps| == 12 && 1 <= m <= 12
      modifies this
      ensures Valid()
      ensures entries == ApproveStep(old(entries), recordType, recordId, year, approver, stamps, failedMonths, m)
    {
      if m !in failedMonths {
        Upsert(ApprovalEntry(recordType, recordId, year, m, approver, stamps[m - 1]));
      }
    }

    /** approveAllRow's loop: months 1 to 12 in order, each an upsert whose
        error is ignored. */
    method ApproveRow(recordType: RecordType, recordId: string, year: int, approver: string,
                      stamps: seq<int>, failedMonths: set<int>)
      requires Valid() && |stamps| == 12
      modifies this
      ensures Valid()
      ensures entries == ApproveMonths(old(entries), recordType, recordId, year, approver, stamps, failedMonths, 12)
    {
      ghost var start := entries;
      for m := 1 to 13
        invariant Valid()
        invariant entries == ApproveMonths(start, recordType, recordId, year, approver, stamps, failedMonths, m - 1)
      {
        ApproveOne(recordType, recordId, year, approver, stamps, failedMonths, m);
      }
    }
  }

  /** The admin review screen's state. */
  class AdminRecordReview {
    const user: Option<string>
    const currentYear: int
    const ledger: ApprovalLedger

    var year: int
    var recordType: RecordType
    var approvals: seq<ApprovalRow>

    constructor (user: Option<string>, currentYear: int, ledger: ApprovalLedger)
      ensures this.user == user && this.currentYear == currentYear && this.ledger == ledger
      ensures year == currentYear && recordType == Local && approvals == []
    {
      this.user := user;
      this.currentYear := currentYear;
      this.ledger := ledger;
      year := currentYear;
      recordType := Local;
      approvals := [];
    }

    /** The approvals half of fetchData: on success the state holds the
        ledger's entries for the shown type and year; on an error it keeps
        what it had. */
    method FetchData(ok: bool)
      modifies this
      ensures ok ==> approvals == Fetch(ledger.entries, recordType, year)
      ensures !ok ==> approvals == old(approvals)
      ensures year == old(year) && recordType == old(recordType)
    {
      if ok {
        approvals := Fetch(ledger.entries, recordType, year);
      }
    }

    /** approveMonth: without a signed-in user nothing is written or
        reloaded; otherwise the month is upserted as APPROVED by this user
        (an error response is ignored) and the approvals are reloaded. */
    method ApproveMonth(recordId: string, month: int, now: int, upsertOk: bool, fetchOk: bool)
      requires ledger.Valid()
      modifies this, ledger
      ensures ledger.Valid()
      ensures user.None? ==> ledger.entries == old(ledger.entries) && approvals == old(approvals)
      ensures user.Some? && upsertOk ==>
                ledger.entries == Upserted(old(ledger.entries), ApprovalEntry(recordType, recordId, year, month, user.value, now))
      ensures user.Some? && !upsertOk ==> ledger.entries == old(ledger.entries)
      ensures user.Some? && fetchOk ==> approvals == Fetch(ledger.entries, recordType, year)
      ensures user.Some? && !fetchOk ==> approvals == old(approvals)
      ensures year == old(year) && recordType == old(recordType)
    {
      if user.None? {
        return;
      }
      if upsertOk {
        ledger.Upsert(ApprovalEntry(recordType, recordId, year, month, user.value, now));
      }
      FetchData(fetchOk);
    }

    /** approveAllRow: without a signed-in user nothing happens; otherwise
        months 1..12 are upserted in order (failed upserts are skipped, not
        reported) and the approvals are reloaded. */
    method ApproveAllRow(recordId: string, stamps: seq<int>, failedMonths: set<int>, fetchOk: bool)
      requires ledger.Valid() && |stamps| == 12
      modifies this, ledger
      ensures ledger.Valid()
      ensures user.None? ==> ledger.entries == old(ledger.entries) && approvals == old(approvals)
      ensures user.Some? ==>
                ledger.entries
                == ApproveMonths(old(ledger.entries), recordType, recordId, year, user.value, stamps, failedMonths, 12)
      ensures user.Some? && fetchOk ==> approvals == Fetch(ledger.entries, recordType, year)
      ensures user.Some? && !fetchOk ==> approvals == old(approvals)
      ensures year == old(year) && recordType == old(recordType)
    {
      if user.None? {
        return;
      }
      ledger.ApproveRow(recordType, recordId, year, user.value, stamps, failedMonths);
      FetchData(fetchOk);
    }
  }
}
