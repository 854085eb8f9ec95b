# Malaria case reporting: the decision rules and edit buffers

This project models the logic of a monthly malaria case reporting web
application. Field reporters (role "sk") enter monthly case counts in two
grids:

- the local records grid, one row per assigned village and year;
- the non-local records grid, free-text locations that the reporter adds and deletes.

An administrator reviews the records month by month and approves them in a
ledger of monthly approvals.

The model covers:

- **Month tables and the derived total** (`month_utils.dfy`, module
  `MonthUtils`). The twelve month columns and headings, and the yearly
  total as a left fold over the month columns, with a reference sum.
- **Shared vocabulary** (`common.dfy`, module `Common`):
  - roles;
  - cell input validation (empty text counts as 0; a non-number or a negative number is rejected);
  - the five-year selector;
  - sequential request batches that stop at the first error response.
- **The non-local grid** (`nonlocal_grid.dfy`, module `NonLocalGrid`):
  - the month editability rule;
  - the reporter's red/yellow/green colour heuristic;
  - the buffer of rows, dirty ids and deleted ids, as a class with add, delete, edit and save;
  - the requests a save sends, in order.
- **The local grid** (`local_grid.dfy`, module `LocalGrid`):
  - the same month rule;
  - the admin-only ITN inputs;
  - the buffer of rows and dirty ids;
  - the update body of a save;
  - a save that clears the dirty set only when every update got through.
- **The admin review** (`admin_review.dfy`, module `AdminReview`):
  - the approval ledger, and the upsert keyed by record type, record, year and month;
  - the fetch of the approvals and the first-match status lookup;
  - the cell colour and label;
  - the column-to-month mapping and the location label;
  - approving one month or a whole row;
  - a proof that the ledger and the reporter colour are two independent status systems.

Time and identity are explicit parameters throughout:

- the role and the signed-in user;
- the current Dhaka year and month (1..12);
- the random id of a new row;
- the approval timestamps.

Backend calls are modelled as data. A batch of writes is the sequence of
requests sent. The `failure` parameter gives the position of the first
request that was answered with an error. Reads are functions of the
ledger contents.

Two places where the code does not do what the screens appear to intend;
the model follows the code:

- The "Approve All" button is meant to approve the whole row. The code
  ignores every upsert's error, reports none of them and goes on
  to the next month (`AdminReview.ApprovalLedger.ApproveRow`, through the
  `failedMonths` parameter).
- The reporter grid titles a green cell "Approved" and a yellow cell
  "Waiting for approval" (`src/components/NonLocalRecordsGrid.tsx:361-367`),
  so its colour looks meant to show the approval ledger's status. Yet
  `getMonthStatus` never reads the ledger: the colour depends only on the
  count, the role, the year and the month.
  `AdminReview.ApprovalNotSeenByReporter` and
  `AdminReview.GreenWithoutApproval` state the consequences.

## Model

| member | source | states |
|---|---|---|
| Common.CellNumber | src/components/LocalRecordsGrid.tsx:106-107 | empty text gives 0; otherwise the input is accepted iff it parses to an integer that is not negative, and then that integer is stored |
| Common.YearOptions | src/components/LocalRecordsGrid.tsx:153 | exactly five consecutive ascending years, the current year in the middle; a year is offered iff it lies within two of the current year |
| Common.Issued | src/components/NonLocalRecordsGrid.tsx:184-213 | a batch sent one request at a time sends a prefix of its plan: everything when no request fails, up to and including the first failing one otherwise |
| Common.IssuedConcat | src/components/NonLocalRecordsGrid.tsx:183-214 | sending two batches back to back issues the first, and the second only if the first got through; a failure falls in one of the two |
| MonthUtils.MonthTablesAligned | src/lib/monthUtils.ts:1-10 | 12 month columns and 12 headings, the columns pairwise distinct, and column i is heading i in lower case followed by "_cases" |
| MonthUtils.ColumnsTotal | src/lib/monthUtils.ts:30-32 | the left fold over any list of columns equals the reference sum of their contributions |
| MonthUtils.MonthTotal | src/lib/monthUtils.ts:30-32 | getMonthTotal equals the sum of the twelve monthly contributions in calendar order |
| MonthUtils.ZeroMonthsTotalZero | src/lib/monthUtils.ts:31 | a record whose months all contribute 0 has total 0 |
| MonthUtils.TotalAfterSlotChange | src/lib/monthUtils.ts:31 | storing a value in one month column moves the total by that column's change of contribution |
| MonthUtils.TotalShiftsByDelta | src/lib/monthUtils.ts:31 | changing one month by d changes the total by exactly d |
| MonthUtils.MissingMonthCountsZero | src/lib/monthUtils.ts:31 | a month that is absent or not a number adds the same as a month holding 0 |
| MonthUtils.TotalIgnoresOtherFields | src/lib/monthUtils.ts:31 | setting or removing any field outside the month columns leaves the total unchanged |
| MonthUtils.TotalBoundsEachMonth | src/lib/monthUtils.ts:31 | with no negative month, each month lies between 0 and the total |
| MonthUtils.TotalOfMonths | src/lib/monthUtils.ts:30-32 | any record whose month columns hold given counts totals their sum, whatever else it holds |
| MonthUtils.PutMonthsFields | src/components/NonLocalRecordsGrid.tsx:202-204 | copying the month columns adds exactly those keys, with the row's values, and keeps every other key of the body |
| MonthUtils.CopyMonthColumns | src/components/LocalRecordsGrid.tsx:127-129 | the loop over the twelve columns builds the body with all twelve months copied |
| NonLocalGrid.WithCell | src/components/NonLocalRecordsGrid.tsx:168-174 | replacing a cell sets that cell and no other; id, owner, year and the new-row flag are kept |
| NonLocalGrid.IsMonthEditable | src/components/NonLocalRecordsGrid.tsx:228-232 | an admin may edit every month; anyone else exactly when the year is the current year and the month is the current month |
| NonLocalGrid.EditableMonthsByRole | src/components/NonLocalRecordsGrid.tsx:228-232 | an admin has all twelve months open; anyone else has only the current month of the current year, so at most one |
| NonLocalGrid.MonthStatus | src/components/NonLocalRecordsGrid.tsx:65-73 | red iff the value is 0; yellow iff non-zero, not admin, current year and current month; green otherwise |
| NonLocalGrid.YellowOnlyInCurrentMonth | src/components/NonLocalRecordsGrid.tsx:65-73 | an admin never sees yellow; in one row at most one month is yellow, and it is the current month |
| NonLocalGrid.Accepted | src/components/NonLocalRecordsGrid.tsx:163-175 | a month cell rejects what the cell validation rejects and otherwise takes its number; any other cell takes the typed text unvalidated |
| NonLocalGrid.UpdateRows | src/components/NonLocalRecordsGrid.tsx:168-174 | same length; rows with another id are unchanged; rows with the id get the cell replaced |
| NonLocalGrid.FindRow | src/components/NonLocalRecordsGrid.tsx:148-149 | absent iff no row has the id; otherwise the first row carrying it |
| NonLocalGrid.RemoveRow | src/components/NonLocalRecordsGrid.tsx:155 | a row is kept iff it was there and has another id; nothing changes for an unknown id |
| NonLocalGrid.RemoveRowConcat | src/components/NonLocalRecordsGrid.tsx:155 | removal splits over a concatenation of row lists, so the kept rows keep their order and their copies |
| NonLocalGrid.RemoveRowSingle | src/components/NonLocalRecordsGrid.tsx:155 | a single row is kept iff its id differs from the removed one |
| NonLocalGrid.DirtyRows | src/components/NonLocalRecordsGrid.tsx:189 | a row is selected iff it is in the buffer and its id is dirty |
| NonLocalGrid.DirtyRowsConcat | src/components/NonLocalRecordsGrid.tsx:189 | the selection splits over a concatenation of row lists, so the dirty rows keep their order and their copies |
| NonLocalGrid.DirtyRowsSingle | src/components/NonLocalRecordsGrid.tsx:189 | a single row is selected iff its id is dirty |
| NonLocalGrid.ClearNew | src/components/NonLocalRecordsGrid.tsx:218 | every row kept in place with its new-row flag cleared |
| NonLocalGrid.NewRow | src/components/NonLocalRecordsGrid.tsx:119-141 | the new row has the given id, the user as owner, the selected year, country Bangladesh, empty texts, all months 0, and is marked new |
| NonLocalGrid.RowTotalIsMonthSum | src/components/NonLocalRecordsGrid.tsx:385 | a row's Total is the sum of its months, and a fresh row shows 0 |
| NonLocalGrid.BasePayloadFields | src/components/NonLocalRecordsGrid.tsx:192-200 | the body starts with owner, year and the five location texts, none of them a month column |
| NonLocalGrid.Payload | src/components/NonLocalRecordsGrid.tsx:192-204 | the body's keys are exactly the owner, year and five location keys plus the twelve month columns |
| NonLocalGrid.PayloadFields | src/components/NonLocalRecordsGrid.tsx:192-204 | the body holds every month with the row's count, keeps each owner, year and location field of the base body, and carries neither the id nor the new-row flag |
| NonLocalGrid.PayloadBaseValues | src/components/NonLocalRecordsGrid.tsx:192-200 | the body holds the row's owner, year, country, district or state, upazila or township, union and village name |
| NonLocalGrid.WriteRequest | src/components/NonLocalRecordsGrid.tsx:206-213 | never a delete; an insert iff the row is new, carrying the row's id and every field of the body; otherwise an update of exactly the body by the row's id |
| NonLocalGrid.BuildWriteRequest | src/components/NonLocalRecordsGrid.tsx:192-213 | a new row becomes an insert of the body plus its id, an existing row an update of the body by its id |
| NonLocalGrid.DeleteRequests | src/components/NonLocalRecordsGrid.tsx:184-185 | one delete by id per pending deletion, in order |
| NonLocalGrid.WriteRequests | src/components/NonLocalRecordsGrid.tsx:191-213 | one write per dirty row, in row order |
| NonLocalGrid.SavePlanLayout | src/components/NonLocalRecordsGrid.tsx:183-213 | handleSave's batch is exactly the deletes, one per pending id in order, followed by the writes, one per dirty row in row order |
| NonLocalGrid.NewRowsDirty | src/components/NonLocalRecordsGrid.tsx:143-144 | the buffer invariant addRow sets up: every row not yet inserted is marked dirty |
| NonLocalGrid.SavePlanCoversBuffer | src/components/NonLocalRecordsGrid.tsx:183-214 | all deletes come before any write; every new row is inserted, every dirty existing row updated, and nothing but dirty rows written |
| NonLocalGrid.WritesCoverDirtyRows | src/components/NonLocalRecordsGrid.tsx:189-213 | every dirty row's write appears in the batch after the deletes |
| NonLocalGrid.WritesOnlyFromRows | src/components/NonLocalRecordsGrid.tsx:189-213 | every request in the batch that is not a delete is the write of some dirty row |
| NonLocalGrid.SendDeletes | src/components/NonLocalRecordsGrid.tsx:184-187 | the delete loop sends the deletes in order up to the first error and reports whether none failed |
| NonLocalGrid.SendWrites | src/components/NonLocalRecordsGrid.tsx:191-214 | the write loop sends the writes in order up to the first error and reports whether none failed |
| NonLocalGrid.NonLocalRecordsGrid.constructor | src/components/NonLocalRecordsGrid.tsx:57-62 | the screen opens on the current year with an empty buffer |
| NonLocalGrid.NonLocalRecordsGrid.Valid | src/components/NonLocalRecordsGrid.tsx:143-144 | the class invariant every handler keeps: the buffer satisfies NewRowsDirty |
| NonLocalGrid.NonLocalRecordsGrid.AddRow | src/components/NonLocalRecordsGrid.tsx:117-145 | without a user nothing changes; otherwise exactly one new row is appended and its id marked dirty |
| NonLocalGrid.NonLocalRecordsGrid.DeleteRow | src/components/NonLocalRecordsGrid.tsx:147-161 | an unknown id changes nothing; otherwise the row leaves the buffer and the dirty set, and its id is queued for deletion only if it was not new |
| NonLocalGrid.NonLocalRecordsGrid.HandleCellChange | src/components/NonLocalRecordsGrid.tsx:163-178 | a rejected input changes nothing; an accepted one updates the rows with that id and marks the id dirty; deletions and year are kept |
| NonLocalGrid.NonLocalRecordsGrid.HandleSave | src/components/NonLocalRecordsGrid.tsx:180-226 | the deletes and then the writes are sent up to the first error; only a save where nothing failed empties both sets and clears every new-row flag, and such a save has inserted every row that was new; otherwise the buffer is kept whole |
| LocalGrid.WithCell | src/components/LocalRecordsGrid.tsx:109 | replacing a cell sets that cell and no other; id, village, owner and year are kept |
| LocalGrid.IsMonthEditable | src/components/LocalRecordsGrid.tsx:145-149 | an admin may edit every month; anyone else only the current month of the current year |
| LocalGrid.SameRuleAsNonLocalGrid | src/components/LocalRecordsGrid.tsx:145-149 | the two grids' copies of the month rule agree on every input |
| LocalGrid.IsItnEditable | src/components/LocalRecordsGrid.tsx:151 | the ITN columns are editable iff the role is admin |
| LocalGrid.InputDisabled | src/components/LocalRecordsGrid.tsx:213-254 | H/H and population are never disabled; ITN inputs are disabled iff not admin; a month input is disabled iff the month rule closes it |
| LocalGrid.OpenInputs | src/components/LocalRecordsGrid.tsx:213-254 | an admin has every input open; anyone else exactly H/H, population and the current month of the current year |
| LocalGrid.UpdateRows | src/components/LocalRecordsGrid.tsx:108-110 | same length; rows with another id are unchanged; rows with the id get the cell replaced |
| LocalGrid.DirtyRows | src/components/LocalRecordsGrid.tsx:118 | a row is selected iff it is in the buffer and its id is dirty |
| LocalGrid.DirtyRowsConcat | src/components/LocalRecordsGrid.tsx:118 | the selection splits over a concatenation of row lists, so the dirty rows keep their order and their copies |
| LocalGrid.DirtyRowsSingle | src/components/LocalRecordsGrid.tsx:118 | a single row is selected iff its id is dirty |
| LocalGrid.RowTotalIsMonthSum | src/components/LocalRecordsGrid.tsx:256 | a row's Total is the sum of its months; H/H, population, ITN and year never enter it |
| LocalGrid.EditMovesTotal | src/components/LocalRecordsGrid.tsx:108-110 | an edit of a month moves the Total by that month's change; an edit of any other cell leaves it alone |
| LocalGrid.BasePayloadFields | src/components/LocalRecordsGrid.tsx:120-126 | the update body starts with H/H, population and the three ITN counters, none a month column |
| LocalGrid.UpdatePayload | src/components/LocalRecordsGrid.tsx:120-129 | the update body's keys are exactly H/H, population and the three ITN counters plus the twelve month columns |
| LocalGrid.UpdatePayloadFields | src/components/LocalRecordsGrid.tsx:120-129 | the update body holds exactly H/H, population, the ITN counters and the twelve months with the row's values, and never village, owner, year or id |
| LocalGrid.SavePlan | src/components/LocalRecordsGrid.tsx:118-133 | one update by id per dirty row, in row order |
| LocalGrid.SavePlanWritesDirtyRows | src/components/LocalRecordsGrid.tsx:118-135 | every dirty row gets its update and every request updates a dirty row |
| LocalGrid.BuildUpdateRequest | src/components/LocalRecordsGrid.tsx:120-133 | the loop body builds the update of the row's body by the row's id |
| LocalGrid.SendUpdates | src/components/LocalRecordsGrid.tsx:119-135 | the update loop sends the updates in order up to the first error and reports whether none failed |
| LocalGrid.LocalRecordsGrid.constructor | src/components/LocalRecordsGrid.tsx:47-51 | the screen opens on the current year with an empty buffer |
| LocalGrid.LocalRecordsGrid.HandleCellChange | src/components/LocalRecordsGrid.tsx:105-112 | a rejected input changes nothing; an accepted one updates the rows with that id and marks the id dirty |
| LocalGrid.LocalRecordsGrid.HandleSave | src/components/LocalRecordsGrid.tsx:114-143 | with no dirty id nothing is sent; otherwise updates go out up to the first error, and the dirty set is emptied only if none failed |
| AdminReview.Lookup | src/components/AdminRecordReview.tsx:58-62 | absent iff no entry has the key; otherwise an entry of the ledger with that key |
| AdminReview.Replace | src/components/AdminRecordReview.tsx:100-108 | same length; every entry with the upserted key becomes the new entry and every other entry stays in place |
| AdminReview.Upserted | src/components/AdminRecordReview.tsx:100-108 | the entry is present afterwards; every other entry with a different key is kept; no entry with the same key survives besides it |
| AdminReview.LookupAfterUpsert | src/components/AdminRecordReview.tsx:100-108 | after an upsert its key reads as the new entry and every other key reads as before |
| AdminReview.UpsertKeepsKeysUnique | src/components/AdminRecordReview.tsx:100-108 | an upsert keeps at most one entry per key |
| AdminReview.Fetch | src/components/AdminRecordReview.tsx:58-62 | an approval row is fetched iff a ledger entry of the shown record type and year projects to it |
| AdminReview.GetStatus | src/components/AdminRecordReview.tsx:90-95 | absent iff no approval matches the record and month; otherwise the status of the first match |
| AdminReview.FetchThenGetStatus | src/components/AdminRecordReview.tsx:90-95 | after a fetch, the status shown for a record and month is the ledger's status for that key |
| AdminReview.FetchShowsEntry | src/components/AdminRecordReview.tsx:90-95 | while the ledger keeps one entry per key, each entry's status is what the admin grid shows for its record and month once its type and year are loaded |
| AdminReview.CellColour | src/components/AdminRecordReview.tsx:131-136 | green iff APPROVED, yellow iff PENDING, red iff no entry |
| AdminReview.GetCellColour | src/components/AdminRecordReview.tsx:131-136 | red exactly when no approval matches; green iff the first match is APPROVED |
| AdminReview.CellLabel | src/components/AdminRecordReview.tsx:217 | the label is a dash iff there is no entry, the status text otherwise |
| AdminReview.LabelAgreesWithColour | src/components/AdminRecordReview.tsx:212-217 | APPROVED is shown green, PENDING yellow and the dash red |
| AdminReview.MonthOfColumn | src/components/AdminRecordReview.tsx:206-207 | every column maps to a calendar month in 1..12 |
| AdminReview.ColumnMonthRoundTrip | src/components/AdminRecordReview.tsx:206-207 | columns and calendar months correspond one to one, the January column being month 1 |
| AdminReview.Location | src/components/AdminRecordReview.tsx:71-74 | a local record shows its village id; a non-local record shows country, " - " and village name |
| AdminReview.NonLocalLocationIdentifiesPlace | src/components/AdminRecordReview.tsx:71-74 | for the offered countries two non-local labels are equal iff country and village are |
| AdminReview.ApprovalEntry | src/components/AdminRecordReview.tsx:100-108 | the upserted entry has the record's key, status APPROVED, the user as approver and the given time |
| AdminReview.ApproveStep | src/components/AdminRecordReview.tsx:117-125 | a failed upsert leaves the ledger as it was; otherwise the month's APPROVED entry is present, and nothing but it is new |
| AdminReview.ApproveMonths | src/components/AdminRecordReview.tsx:116-126 | after months 1..k every entry was there before or is the row's APPROVED entry for one of those months whose upsert went through |
| AdminReview.LookupAfterStep | src/components/AdminRecordReview.tsx:117-125 | one pass of the approve-all loop makes that month's key read as the new APPROVED entry, unless its upsert failed, and leaves every other key as it was |
| AdminReview.ApproveMonthsEffect | src/components/AdminRecordReview.tsx:116-126 | after months 1..k, each month whose upsert went through holds the user's APPROVED entry, and every other key reads as before |
| AdminReview.ApprovedMonthsHold | src/components/AdminRecordReview.tsx:116-126 | after months 1..k, a month of the row whose upsert went through reads as the user's APPROVED entry with that month's time |
| AdminReview.OtherKeysUntouched | src/components/AdminRecordReview.tsx:116-126 | after months 1..k, any key that is not such a month reads exactly as before the loop |
| AdminReview.ApproveMonthsKeepsKeysUnique | src/components/AdminRecordReview.tsx:116-126 | the approve-all loop keeps at most one entry per key |
| AdminReview.ApprovedCellTurnsGreen | src/components/AdminRecordReview.tsx:97-111 | after an approval and a reload, that cell is APPROVED and green, and every other cell shows what it showed before |
| AdminReview.AllRowApproved | src/components/AdminRecordReview.tsx:113-129 | after approve-all and a reload, every month whose upsert went through shows APPROVED |
| AdminReview.ApprovalNotSeenByReporter | src/components/NonLocalRecordsGrid.tsx:65-73 | an approved current month is green for the admin while the reporter's non-zero count in it stays yellow |
| AdminReview.GreenWithoutApproval | src/components/NonLocalRecordsGrid.tsx:65-73 | a past month with a non-zero count is green for the reporter while the admin, without an approval, sees it red |
| AdminReview.ApprovalLedger.constructor | src/components/AdminRecordReview.tsx:58-62 | the ledger the screen reads starts from any contents with at most one entry per key |
| AdminReview.ApprovalLedger.Upsert | src/components/AdminRecordReview.tsx:100-108 | the ledger becomes the upsert of the entry and keeps one entry per key |
| AdminReview.ApprovalLedger.ApproveOne | src/components/AdminRecordReview.tsx:117-125 | one pass of the loop upserts that month's APPROVED entry, or changes nothing when the upsert fails |
| AdminReview.ApprovalLedger.ApproveRow | src/components/AdminRecordReview.tsx:116-126 | months 1 to 12 are upserted in order, failed upserts are skipped, and the ledger keeps one entry per key |
| AdminReview.AdminRecordReview.constructor | src/components/AdminRecordReview.tsx:37-40 | the screen opens on the current year, local records and no approvals |
| AdminReview.AdminRecordReview.FetchData | src/components/AdminRecordReview.tsx:57-78 | a successful load replaces the approvals with the ledger's entries for the shown type and year; a failed one keeps them |
| AdminReview.AdminRecordReview.ApproveMonth | src/components/AdminRecordReview.tsx:97-111 | without a user nothing is written or reloaded; otherwise the APPROVED entry is upserted (a failed upsert writes nothing) and the approvals are reloaded |
| AdminReview.AdminRecordReview.ApproveAllRow | src/components/AdminRecordReview.tsx:113-129 | without a user nothing happens; otherwise the twelve months are approved in order and the approvals are reloaded |

## Left out

- Backend I/O is represented by parameters:
  - a load or write either succeeds or fails, given as a parameter;
  - write batches are sequences of requests;
  - error messages, toasts and the loading/saving flags are not modelled.
- fetchData of both grids is not modelled: the records query and the reset of the buffer after a load. The admin screen's fetchData is modelled only as far as the approvals it stores; the records it lists are not.
- Edits, added rows and deletions made while a save is in flight are not modelled: each handler runs to completion before the next. In the code, the final reset of a save (NonLocalRecordsGrid.tsx:216-218, LocalRecordsGrid.tsx:136) would also drop dirty marks set during the save and clear the new-row flag of a row added during it.
- Approving a month is modelled as if the reload followed the upsert. In the code the reload is started without waiting for it.
- The Dhaka clock readers (getDhakaMonth, getDhakaYear) and crypto.randomUUID are not modelled. The current year, the current month and new ids are parameters.
- The integer parse of a cell is not modelled: a cell input carries its text and the integer reading (or NaN) as given. Number() coercion is abstracted the same way: a record field is a number or not a number.
- JavaScript numbers are modelled as unbounded integers. Fractions, precision and overflow are not modelled.
- AdminReview.Upserted: the upsert is modelled as keyed by (record type, record, year, month). The code passes no conflict target, and the monthly_approvals table is not part of the generated table types. The key is the one the upsert's columns name (type, record, year, month), not a constraint declared in the code.
- The Save button's enabled state and the other rendering (CSS classes, the empty-table notice, the joined place names of local rows) are not modelled.
- The sign-in context, the role lookup and the other screens (user management, village assignment, record list, pages, the demo-data seeding function) are not part of this model.
