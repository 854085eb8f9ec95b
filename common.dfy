/** Vocabulary shared by the reporting grids and the admin review screen:
    the signed-in principal, month positions, cell input, the year selector
    and the sequential request batches the screens send to the backend. */
module Common {

  datatype Option<T> = None | Some(value: T)

  /** The role claim of the signed-in user. NoRole stands for the null role
      the session carries until the user's role row has been read. */
  datatype Role = Admin | Sk | NoRole

  /** 0-based position of a month column: jan_cases is 0, dec_cases is 11. */
  type MonthIndex = i: int | 0 <= i < 12

  /** The twelve monthly case counts of one record, January first. */
  type MonthValues = s: seq<int> | |s| == 12 witness [0, 0, 0, 0, 0, 0, 0, 0, 0, 0, 0, 0]

  /** Red, yellow or green: the colour classes both screens give a month cell. */
  datatype Colour = Red | Yellow | Green

  /** What the decimal integer parse answered for a cell's text. */
  datatype ParseResult = Int(n: int) | NaN

  /** The text typed into a cell, with its integer reading. */
  datatype CellInput = CellInput(text: string, parsed: ParseResult)

  /** The number a numeric cell stores for an input (the empty text counts
      as 0), or None when the input is rejected because it is not a number
      or is negative. */
  function CellNumber(input: CellInput): (r: Option<nat>)
    ensures input.text == "" ==> r == Some(0)
    ensures input.text != "" ==> (r.Some? <==> input.parsed.Int? && input.parsed.n >= 0)
    ensures input.text != "" && r.Some? ==> r.value == input.parsed.n
  {
    if input.text == "" then Some(0)
    else match input.parsed
      case NaN => None
      case Int(n) => if n < 0 then None else Some(n)
  }

  /** The reporting years offered by the year selector of every screen. */
  function YearOptions(currentYear: int): (years: seq<int>)
    ensures |years| == 5 && years[2] == currentYear
    ensures forall i, j :: 0 <= i < j < |years| ==> years[j] - years[i] == j - i
    ensures forall y :: y in years <==> currentYear - 2 <= y <= currentYear + 2
  {
    var years := seq(5, i => currentYear - 2 + i);
    assert years == [currentYear - 2, currentYear - 1, currentYear, currentYear + 1, currentYear + 2];
    years
  }

  lemma ConcatAssoc<T>(x: seq<T>, y: seq<T>, z: seq<T>)
    ensures x + (y + z) == (x + y) + z
  {
  }

  /** One write the screens send to a backend table. */
  datatype Request<P> = Delete(id: string) | Insert(payload: P) | Update(id: string, payload: P)

  /** The failure parameter names the position of the first request of a batch whose
      response carries an error, if any; this holds when that position is
      inside a batch of n requests. */
  predicate FailsWithin(failure: Option<nat>, n: nat)
  {
    failure.Some? && failure.value < n
  }

  /** The requests actually sent when a plan is sent one by one and the
      batch is abandoned after the first error response. */
  function Issued<P>(plan: seq<Request<P>>, failure: Option<nat>): (sent: seq<Request<P>>)
    ensures sent <= plan
    ensures FailsWithin(failure, |plan|) ==> |sent| == failure.value + 1
    ensures !FailsWithin(failure, |plan|) ==> sent == plan
  {
    if FailsWithin(failure, |plan|) then plan[..failure.value + 1] else plan
  }

  /** The failure position as seen by the part of a batch that starts at
      position offset. */
  function After(failure: Option<nat>, offset: nat): Option<nat>
  {
    if failure.Some? && failure.value >= offset then Some(failure.value - offset) else None
  }

  /** Sending a + b sends a and, when a got through, then b. */
  lemma IssuedConcat<P>(a: seq<Request<P>>, b: seq<Request<P>>, failure: Option<nat>)
    ensures FailsWithin(failure, |a|) ==> Issued(a + b, failure) == Issued(a, failure)
    ensures !FailsWithin(failure, |a|) ==> Issued(a + b, failure) == a + Issued(b, After(failure, |a|))
    ensures FailsWithin(failure, |a + b|)
            <==> FailsWithin(failure, |a|) || FailsWithin(After(failure, |a|), |b|)
  {
    if FailsWithin(failure, |a|) {
      assert (a + b)[..failure.value + 1] == a[..failure.value + 1];
    } else if FailsWithin(failure, |a + b|) {
      var k := failure.value - |a|;
      assert (a + b)[..failure.value + 1] == a + b[..k + 1];
    }
  }
}
