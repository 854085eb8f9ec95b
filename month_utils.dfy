/** The month tables and the derived yearly total shared by every screen. */
module MonthUtils {

  import opened Common

  /** The record fields holding the monthly case counts, in calendar order. */
  const MonthColumns: seq<string> := [
    "jan_cases", "feb_cases", "mar_cases", "apr_cases",
    "may_cases", "jun_cases", "jul_cases", "aug_cases",
    "sep_cases", "oct_cases", "nov_cases", "dec_cases"
  ]

  /** The column headings, index-aligned with MonthColumns. */
  const MonthLabels: seq<string> := [
    "Jan", "Feb", "Mar", "Apr", "May", "Jun",
    "Jul", "Aug", "Sep", "Oct", "Nov", "Dec"
  ]

  /** ASCII lower-casing, enough to relate a heading to its column name. */
  function LowerAscii(s: string): (r: string)
    ensures |r| == |s|
  {
    if s == [] then []
    else [if 'A' <= s[0] <= 'Z' then (s[0] as int + 32) as char else s[0]] + LowerAscii(s[1..])
  }

  lemma MonthTablesAligned()
    ensures |MonthColumns| == 12 && |MonthLabels| == 12
    ensures forall i, j :: 0 <= i < j < 12 ==> MonthColumns[i] != MonthColumns[j]
    ensures forall i :: 0 <= i < 12 ==> MonthColumns[i] == LowerAscii(MonthLabels[i]) + "_cases"
  {
    ColumnsDistinct();
    ColumnsAreLoweredLabels();
  }

  lemma ColumnsAreLoweredLabels()
    ensures forall i :: 0 <= i < 12 ==> MonthColumns[i] == LowerAscii(MonthLabels[i]) + "_cases"
  {
    forall i | 0 <= i < 12
      ensures MonthColumns[i] == LowerAscii(MonthLabels[i]) + "_cases"
    {
      LowerHeading(MonthLabels[i]);
    }
  }

  /** Lower-casing a capitalised three-letter heading lowers its first
      letter only. */
  lemma LowerHeading(s: string)
    requires |s| == 3 && 'A' <= s[0] <= 'Z' && 'a' <= s[1] <= 'z' && 'a' <= s[2] <= 'z'
    ensures LowerAscii(s) == [(s[0] as int + 32) as char, s[1], s[2]]
  {
    assert LowerAscii(s[2..]) == [s[2]];
  }

  lemma ColumnsDistinct()
    ensures forall i, j :: 0 <= i < 12 && 0 <= j < 12 && i != j ==> MonthColumns[i] != MonthColumns[j]
  {
    forall i, j | 0 <= i < 12 && 0 <= j < 12 && i != j
      ensures MonthColumns[i] != MonthColumns[j]
    {
      assert MonthColumns[i][0] != MonthColumns[j][0]
          || MonthColumns[i][1] != MonthColumns[j][1]
          || MonthColumns[i][2] != MonthColumns[j][2];
    }
  }

  /** Every month column name has nine characters. */
  lemma ColumnNameLength()
    ensures forall i :: 0 <= i < 12 ==> |MonthColumns[i]| == 9
  {
  }

  /** A field name of any other length is no month column. */
  lemma NotAMonthColumn(key: string)
    requires |key| != 9
    ensures key !in MonthColumns
    ensures key !in set i | 0 <= i < 12 :: MonthColumns[i]
  {
    ColumnNameLength();
  }

  // ---------------------------------------------------------------------
  // The derived total

  /** The numeric coercion reads a field either as a number or as NaN; a field
      that is absent from the record reads as NaN too. */
  datatype Slot = Num(n: int) | NotANumber

  /** A record as the total sees it: its fields by name. */
  type Record = map<string, Slot>

  /** What one field adds to the total: its number, or 0 when it is
      missing or not numeric. */
  function SlotValue(record: Record, col: string): int
  {
    if col in record && record[col].Num? then record[col].n else 0
  }

  /** The contributions of the given columns, in order. */
  function Values(record: Record, cols: seq<string>): (vals: seq<int>)
    ensures |vals| == |cols|
    ensures forall i :: 0 <= i < |cols| ==> vals[i] == SlotValue(record, cols[i])
  {
    seq(|cols|, i requires 0 <= i < |cols| => SlotValue(record, cols[i]))
  }

  /** The twelve monthly contributions of a record, January first. */
  function MonthsOf(record: Record): MonthValues
  {
    Values(record, MonthColumns)
  }

  /** A left fold over the columns, each adding its contribution; it comes
      to the reference sum of the contributions. */
  function ColumnsTotal(record: Record, cols: seq<string>): (total: int)
    ensures total == Sum(Values(record, cols))
    decreases |cols|
  {
    if cols == [] then 0
    else
      var n := |cols|;
      var earlier := Values(record, cols[..n - 1]);
      assert Values(record, cols) == earlier + [SlotValue(record, cols[n - 1])];
      SumAppend(earlier, SlotValue(record, cols[n - 1]));
      ColumnsTotal(record, cols[..n - 1]) + SlotValue(record, cols[n - 1])
  }

  /** getMonthTotal: the fold over the twelve month columns, which is the
      sum of the twelve monthly contributions in calendar order. */
  function MonthTotal(record: Record): (total: int)
    ensures total == Sum(MonthsOf(record))
  {
    ColumnsTotal(record, MonthColumns)
  }

  /** Reference definition of the sum of a sequence. */
  function Sum(s: seq<int>): int
  {
    if s == [] then 0 else s[0] + Sum(s[1..])
  }

  lemma {:induction false} SumAppend(s: seq<int>, x: int)
    ensures Sum(s + [x]) == Sum(s) + x
  {
    if s != [] {
      assert (s + [x])[1..] == s[1..] + [x];
      SumAppend(s[1..], x);
    }
  }

  lemma {:induction false} SumUpdate(s: seq<int>, i: nat, v: int)
    requires i < |s|
    ensures Sum(s[i := v]) == Sum(s) - s[i] + v
  {
    if i == 0 {
      assert s[i := v][1..] == s[1..];
    } else {
      assert s[i := v][1..] == s[1..][i - 1 := v];
      SumUpdate(s[1..], i - 1, v);
    }
  }

  lemma {:induction false} SumOfZeros(s: seq<int>)
    requires forall i :: 0 <= i < |s| ==> s[i] == 0
    ensures Sum(s) == 0
  {
    if s != [] {
      SumOfZeros(s[1..]);
    }
  }

  lemma {:induction false} SumBoundsElement(s: seq<int>, i: nat)
    requires i < |s|
    requires forall j :: 0 <= j < |s| ==> s[j] >= 0
    ensures 0 <= s[i] <= Sum(s)
  {
    if i > 0 {
      SumBoundsElement(s[1..], i - 1);
    } else if |s| > 1 {
      SumBoundsElement(s[1..], 0);
    }
  }

  /** A record whose every month contributes 0 (zero, missing or not a
      number) has total 0. */
  lemma ZeroMonthsTotalZero(record: Record)
    requires forall i :: 0 <= i < 12 ==> SlotValue(record, MonthColumns[i]) == 0
    ensures MonthTotal(record) == 0
  {
    SumOfZeros(MonthsOf(record));
  }

  /** The number a slot contributes once stored. */
  function SlotNumber(s: Slot): int
  {
    if s.Num? then s.n else 0
  }

  /** Storing s in month column i moves the total by exactly the change of
      that column's contribution. */
  lemma TotalAfterSlotChange(record: Record, i: MonthIndex, s: Slot)
    ensures MonthTotal(record[MonthColumns[i] := s])
         == MonthTotal(record) - SlotValue(record, MonthColumns[i]) + SlotNumber(s)
  {
    ColumnsDistinct();
    var after := record[MonthColumns[i] := s];
    assert MonthsOf(after) == MonthsOf(record)[i := SlotNumber(s)];
    SumUpdate(MonthsOf(record), i, SlotNumber(s));
  }

  /** Changing one month column by d changes the total by exactly d. */
  lemma TotalShiftsByDelta(record: Record, i: MonthIndex, d: int)
    ensures MonthTotal(record[MonthColumns[i] := Num(SlotValue(record, MonthColumns[i]) + d)])
         == MonthTotal(record) + d
  {
    TotalAfterSlotChange(record, i, Num(SlotValue(record, MonthColumns[i]) + d));
  }

  /** A missing or non-numeric month adds the same as a month holding 0. */
  lemma MissingMonthCountsZero(record: Record, i: MonthIndex)
    ensures MonthTotal(record - {MonthColumns[i]}) == MonthTotal(record[MonthColumns[i] := Num(0)])
    ensures MonthTotal(record[MonthColumns[i] := NotANumber]) == MonthTotal(record[MonthColumns[i] := Num(0)])
  {
    ColumnsDistinct();
    var removed := record - {MonthColumns[i]};
    assert MonthsOf(removed) == MonthsOf(record[MonthColumns[i] := Num(0)]);
    TotalAfterSlotChange(record, i, NotANumber);
    TotalAfterSlotChange(record, i, Num(0));
  }

  /** Fields outside the month columns (hh, population, itn_*, ids, the
      reporting year) never change the total, whether set or removed. */
  lemma TotalIgnoresOtherFields(record: Record, key: string, s: Slot)
    requires key !in MonthColumns
    ensures MonthTotal(record[key := s]) == MonthTotal(record)
    ensures MonthTotal(record - {key}) == MonthTotal(record)
  {
    assert MonthsOf(record[key := s]) == MonthsOf(record);
    assert MonthsOf(record - {key}) == MonthsOf(record);
  }

  /** With no negative month, the total is at least each month and at
      least 0. */
  lemma TotalBoundsEachMonth(record: Record, i: MonthIndex)
    requires forall j :: 0 <= j < 12 ==> SlotValue(record, MonthColumns[j]) >= 0
    ensures 0 <= SlotValue(record, MonthColumns[i]) <= MonthTotal(record)
  {
    SumBoundsElement(MonthsOf(record), i);
  }

  // ---------------------------------------------------------------------
  // Copying the month columns into a payload

  /** A payload after the month-copying loop has copied the first |values|
      month columns into it. */
  function PutMonths<V>(base: map<string, V>, values: seq<V>): map<string, V>
    requires |values| <= 12
    decreases |values|
  {
    if values == [] then base
    else PutMonths(base, values[..|values| - 1])[MonthColumns[|values| - 1] := values[|values| - 1]]
  }

  /** The copy adds exactly the first |values| month columns to the keys,
      stores each value under its column, and keeps every other field. */
  lemma PutMonthsFields<V>(base: map<string, V>, values: seq<V>)
    requires |values| <= 12
    ensures PutMonths(base, values).Keys == base.Keys + set i | 0 <= i < |values| :: MonthColumns[i]
    ensures forall i :: 0 <= i < |values| ==> PutMonths(base, values)[MonthColumns[i]] == values[i]
    ensures forall key :: key in base && key !in MonthColumns ==> PutMonths(base, values)[key] == base[key]
  {
    PutMonthsKeys(base, values);
    PutMonthsValues(base, values);
    PutMonthsKeepsBase(base, values);
  }

  lemma {:induction false} PutMonthsKeys<V>(base: map<string, V>, values: seq<V>)
    requires |values| <= 12
    ensures PutMonths(base, values).Keys == base.Keys + set i | 0 <= i < |values| :: MonthColumns[i]
    decreases |values|
  {
    if values != [] {
      var n := |values|;
      PutMonthsKeys(base, values[..n - 1]);
      assert (set i | 0 <= i < n :: MonthColumns[i])
          == (set i | 0 <= i < n - 1 :: MonthColumns[i]) + {MonthColumns[n - 1]};
    }
  }

  lemma {:induction false} PutMonthsValues<V>(base: map<string, V>, values: seq<V>)
    requires |values| <= 12
    ensures forall i :: 0 <= i < |values| ==> MonthColumns[i] in PutMonths(base, values)
    ensures forall i :: 0 <= i < |values| ==> PutMonths(base, values)[MonthColumns[i]] == values[i]
    decreases |values|
  {
    if values != [] {
      var n := |values|;
      var prefix := values[..n - 1];
      ColumnsDistinct();
      PutMonthsValues(base, prefix);
      assert forall i :: 0 <= i < n - 1 ==> prefix[i] == values[i];
    }
  }

  lemma {:induction false} PutMonthsKeepsBase<V>(base: map<string, V>, values: seq<V>)
    requires |values| <= 12
    ensures forall key :: key in base && key !in MonthColumns ==>
              key in PutMonths(base, values) && PutMonths(base, values)[key] == base[key]
    decreases |values|
  {
    if values != [] {
      PutMonthsKeepsBase(base, values[..|values| - 1]);
    }
  }

  /** The payload loop of both grids' save handlers. */
  method CopyMonthColumns<V>(base: map<string, V>, values: seq<V>) returns (payload: map<string, V>)
    requires |values| == 12
    ensures payload == PutMonths(base, values)
  {
    payload := base;
    for k := 0 to 12
      invariant payload == PutMonths(base, values[..k])
    {
      assert values[..k + 1][..k] == values[..k];
      payload := payload[MonthColumns[k] := values[k]];
    }
    assert values[..12] == values;
  }

  /** A record whose twelve month columns hold the given counts on top of
      the fields of base, as a grid row presents itself to getMonthTotal. */
  function WithMonths(base: Record, months: MonthValues): (record: Record)
    ensures forall i :: 0 <= i < 12 ==> SlotValue(record, MonthColumns[i]) == months[i]
    ensures forall key :: key in base && key !in MonthColumns ==> key in record && record[key] == base[key]
  {
    var slots := seq(12, i requires 0 <= i < 12 => Num(months[i]));
    PutMonthsFields(base, slots);
    PutMonths(base, slots)
  }

  /** The total of any record whose month columns carry the given counts is
      their sum, whatever else the record holds. */
  lemma TotalOfMonths(record: Record, months: MonthValues)
    requires forall i :: 0 <= i < 12 ==> SlotValue(record, MonthColumns[i]) == months[i]
    ensures MonthTotal(record) == Sum(months)
  {
    assert MonthsOf(record) == months;
  }
}
