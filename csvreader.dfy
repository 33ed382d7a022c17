/** The CSV import: cleaning the free-text "Model Year Range" of each decoded
    record into a start and an end year, and handing the cleaned records to
    the store one at a time, stopping at the first failure. The current year
    is a parameter instead of a reading of the clock. */
module CsvImport {
  import opened Types
  import opened GoStrings
  import opened Store

  // ---------------------------------------------------------------------
  // Records
  // ---------------------------------------------------------------------

  /** A decoded CSV record as a value: the raw year range and every other
      field as the car that will be stored. */
  datatype Row = Row(modelYearRange: string, car: Car)

  /** One row of the CSV file, as the decoder fills it in. Cleaning writes
      the two year fields in place; nothing in the import writes the others. */
  class CarRecord {
    const id: int
    const text: CarText
    const modelYearRange: string
    var startYear: int
    var endYear: int
    const createdAt: int

    constructor (row: Row)
      ensures Snapshot() == row
    {
      id, text, modelYearRange := row.car.id, row.car.text, row.modelYearRange;
      startYear, endYear, createdAt := row.car.startYear, row.car.endYear, row.car.createdAt;
    }

    /** The car this record describes, as it is handed to the store. */
    function AsCar(): Car
      reads this
    {
      Car(id, text, startYear, endYear, createdAt)
    }

    /** The whole record as a value. */
    function Snapshot(): Row
      reads this
    {
      Row(modelYearRange, AsCar())
    }
  }

  // ---------------------------------------------------------------------
  // Cleaning the year range
  // ---------------------------------------------------------------------

  /** The two year fields after cleaning, and the error cleaning returned. */
  datatype Years = Years(startYear: int, endYear: int, err: Option<NumError>)

  /** `checkEndYear`: "present" in any letter case and the empty text stand
      for the current year; anything else must be an integer. */
  function CheckEndYear(endYear: string, currentYear: int): (r: IntResult)
    ensures (ToLower(endYear) == "present" || endYear == "") ==> r == IntResult(currentYear, None)
    ensures IsInteger(endYear) ==> r == Atoi(endYear)
    ensures r.err.Some? <==> ToLower(endYear) != "present" && endYear != "" && !IsInteger(endYear)
    ensures r.err.Some? ==> r == IntResult(0, Some(NumError("Atoi", ToLower(endYear))))
  {
    var lowered := ToLower(endYear);
    IntegerToLower(endYear);
    if lowered == "present" || lowered == "" then IntResult(currentYear, None)
    else Atoi(lowered)
  }

  /** What `cleanYears` leaves in a record whose fields were `startYear` and
      `endYear`: spaces are removed and the rest is split on '-'; a blank
      range changes nothing; the first piece is parsed into the start year
      (0 when it fails, which stops cleaning); a second piece, if any, goes
      through `CheckEndYear` into the end year; further pieces are ignored. */
  function CleanedYears(range: string, startYear: int, endYear: int, currentYear: int): (y: Years)
    ensures RemoveSpaces(range) == "" ==> y == Years(startYear, endYear, None)
    ensures '-' !in RemoveSpaces(range) ==> y.endYear == endYear
    ensures y.err.Some? ==> y.err.value.func == "Atoi" && (y.startYear == 0 || y.endYear == 0)
  {
    var trimmed := RemoveSpaces(range);
    if trimmed == "" then Years(startYear, endYear, None)
    else FromPieces(Split(trimmed, '-'), endYear, currentYear)
  }

  /** The years read from the hyphen-separated pieces of a non-blank range. */
  function FromPieces(yearRange: seq<string>, endYear: int, currentYear: int): (y: Years)
    requires |yearRange| >= 1
  {
    var start := Atoi(yearRange[0]);
    if start.err.Some? then Years(start.value, endYear, start.err)
    else if |yearRange| == 1 then Years(start.value, endYear, None)
    else
      var end := CheckEndYear(yearRange[1], currentYear);
      Years(start.value, end.value, end.err)
  }

  /** `cleanYears`, writing the record's year fields in place. */
  method CleanYears(c: CarRecord, currentYear: int) returns (err: Option<NumError>)
    modifies c
    ensures var y := CleanedYears(c.modelYearRange, old(c.startYear), old(c.endYear), currentYear);
      c.startYear == y.startYear && c.endYear == y.endYear && err == y.err
  {
    var trimmed := RemoveSpaces(c.modelYearRange);
    if trimmed == "" {
      return None;
    }
    var yearRange := Split(trimmed, '-');
    var start := Atoi(yearRange[0]);
    c.startYear := start.value;
    if start.err.Some? {
      return start.err;
    }
    if |yearRange| > 1 {
      var end := CheckEndYear(yearRange[1], currentYear);
      c.endYear := end.value;
      if end.err.Some? {
        return end.err;
      }
    }
    return None;
  }

  /** A record after cleaning, and the error cleaning returned. */
  datatype Cleaned = Cleaned(row: Row, err: Option<NumError>)

  /** `clean` on a record value: only the two year fields change. */
  function CleanRow(row: Row, currentYear: int): (c: Cleaned)
    ensures c.row.modelYearRange == row.modelYearRange
    ensures c.row.car.id == row.car.id && c.row.car.text == row.car.text && c.row.car.createdAt == row.car.createdAt
    ensures var y := CleanedYears(row.modelYearRange, row.car.startYear, row.car.endYear, currentYear);
      c.row.car.startYear == y.startYear && c.row.car.endYear == y.endYear && c.err == y.err
  {
    var y := CleanedYears(row.modelYearRange, row.car.startYear, row.car.endYear, currentYear);
    Cleaned(Row(row.modelYearRange, row.car.(startYear := y.startYear, endYear := y.endYear)), y.err)
  }

  /** `clean`: the year range is the only field it cleans. */
  method Clean(c: CarRecord, currentYear: int) returns (err: Option<NumError>)
    modifies c
    ensures Cleaned(c.Snapshot(), err) == CleanRow(old(c.Snapshot()), currentYear)
  {
    err := CleanYears(c, currentYear);
  }

  // ---------------------------------------------------------------------
  // Properties of cleaning
  // ---------------------------------------------------------------------

  /** A space anywhere in the range makes no difference: "2008 - 2012" and
      "2008-2012" clean alike. */
  lemma CleanedYearsIgnoresSpace(a: string, b: string, startYear: int, endYear: int, currentYear: int)
    ensures CleanedYears(a + " " + b, startYear, endYear, currentYear)
         == CleanedYears(a + b, startYear, endYear, currentYear)
  {
    assert RemoveSpaces(" ") == "" by {
      assert " "[1..] == "";
    }
    RemoveSpacesConcat(a + " ", b);
    RemoveSpacesConcat(a, " ");
    RemoveSpacesConcat(a, b);
    assert RemoveSpaces(a + " " + b) == RemoveSpaces(a + b);
  }

  /** Cleaning depends on the range only through its space-free form. */
  lemma CleanedYearsSpaceFree(range: string, startYear: int, endYear: int, currentYear: int)
    ensures CleanedYears(range, startYear, endYear, currentYear)
         == CleanedYears(RemoveSpaces(range), startYear, endYear, currentYear)
  {
    RemoveSpacesIdempotent(range);
  }

  /** An empty or all-space range is no error and leaves both years alone;
      any other range writes the start year or fails. */
  lemma CleanedYearsBlank(range: string, startYear: int, endYear: int, currentYear: int)
    ensures (forall k | 0 <= k < |range| :: range[k] == ' ') ==>
      CleanedYears(range, startYear, endYear, currentYear) == Years(startYear, endYear, None)
  {
    RemoveSpacesBlank(range);
  }

  /** Removing spaces around a character that is not a space. */
  lemma TrimAround(a: string, c: char, b: string)
    requires c != ' '
    ensures RemoveSpaces(a + [c] + b) == RemoveSpaces(a) + [c] + RemoveSpaces(b)
  {
    RemoveSpacesConcat(a + [c], b);
    RemoveSpacesConcat(a, [c]);
    assert RemoveSpaces([c]) == [c] by {
      assert [c][1..] == [];
    }
  }

  /** A single space, before or after space-free text, disappears. */
  lemma TrimSpace(a: string)
    requires ' ' !in a
    ensures RemoveSpaces(a + " ") == a && RemoveSpaces(" " + a) == a
  {
    assert RemoveSpaces(" ") == "" by {
      assert " "[1..] == "";
    }
    RemoveSpacesConcat(a, " ");
    RemoveSpacesConcat(" ", a);
    RemoveSpacesNoSpace(a);
  }

  /** The space-free form of "<a> - <b>" when a and b have no spaces. */
  lemma TrimPair(a: string, b: string)
    requires ' ' !in a && ' ' !in b
    ensures RemoveSpaces(a + " - " + b) == a + "-" + b
  {
    assert a + " - " + b == (a + " ") + ['-'] + (" " + b);
    TrimSpace(a);
    TrimSpace(b);
    TrimAround(a + " ", '-', " " + b);
  }

  lemma DigitsFree(s: string)
    requires IsDigits(s)
    ensures ' ' !in s && '-' !in s && s != "" && ToLower(s) != "present"
  {
    forall k | 0 <= k < |s| ensures s[k] != ' ' && s[k] != '-' {
      assert IsDigit(s[k]);
    }
    IntegerToLower(s);
    assert !IsDigit("present"[0]);
  }

  /** "<a> - <b>" with decimal a and b gives start year a and end year b;
      "2015 - 2020" gives 2015 and 2020. */
  lemma CleanedYearsClosedRange(a: string, b: string, startYear: int, endYear: int, currentYear: int)
    requires IsDigits(a) && IsDigits(b)
    ensures CleanedYears(a + " - " + b, startYear, endYear, currentYear)
         == Years(DigitsValue(a), DigitsValue(b), None)
  {
    DigitsFree(a);
    DigitsFree(b);
    TrimPair(a, b);
    SplitCons(a, '-', b);
    SplitSingle(b, '-');
  }

  /** "<a> - <b>" where b lower-cases to "present" or is empty gives start
      year a and the current year as end year: "2018 - PRESENT", "2018-". */
  lemma CleanedYearsOpenRange(a: string, b: string, startYear: int, endYear: int, currentYear: int)
    requires IsDigits(a) && ' ' !in b && '-' !in b
    requires ToLower(b) == "present" || b == ""
    ensures CleanedYears(a + " - " + b, startYear, endYear, currentYear)
         == Years(DigitsValue(a), currentYear, None)
  {
    DigitsFree(a);
    TrimPair(a, b);
    SplitCons(a, '-', b);
    SplitSingle(b, '-');
  }

  /** A first piece that is not an integer ("abc-2012", and "-2012" whose
      first piece is empty) is an error: the start year gets Atoi's 0 and the
      end year is never written. */
  lemma CleanedYearsBadStart(a: string, rest: string, startYear: int, endYear: int, currentYear: int)
    requires ' ' !in a && '-' !in a && !IsInteger(a)
    ensures CleanedYears(a + "-" + rest, startYear, endYear, currentYear)
         == Years(0, endYear, Some(NumError("Atoi", a)))
  {
    TrimAround(a, '-', rest);
    RemoveSpacesNoSpace(a);
    SplitCons(a, '-', RemoveSpaces(rest));
  }

  /** A second piece that is neither "present" nor empty nor an integer
      ("2008-xyz") is an error naming the lower-cased piece; the start year
      keeps its parsed value and the end year gets Atoi's 0. */
  lemma CleanedYearsBadEnd(a: string, b: string, startYear: int, endYear: int, currentYear: int)
    requires IsDigits(a) && ' ' !in b && '-' !in b
    requires ToLower(b) != "present" && b != "" && !IsInteger(b)
    ensures CleanedYears(a + "-" + b, startYear, endYear, currentYear)
         == Years(DigitsValue(a), 0, Some(NumError("Atoi", ToLower(b))))
  {
    DigitsFree(a);
    TrimAround(a, '-', b);
    RemoveSpacesNoSpace(a);
    RemoveSpacesNoSpace(b);
    SplitCons(a, '-', b);
    SplitSingle(b, '-');
  }

  /** A range without a hyphen ("2015") writes only the start year. */
  lemma CleanedYearsNoHyphen(range: string, startYear: int, endYear: int, currentYear: int)
    requires '-' !in range
    ensures var y := CleanedYears(range, startYear, endYear, currentYear);
      y.endYear == endYear &&
      (RemoveSpaces(range) != "" ==>
        y.startYear == Atoi(RemoveSpaces(range)).value && y.err == Atoi(RemoveSpaces(range)).err)
  {
    RemoveSpacesFrom(range, '-');
    SplitSingle(RemoveSpaces(range), '-');
  }

  /** Removing spaces never brings in a character. */
  lemma {:induction false} RemoveSpacesFrom(s: string, c: char)
    requires c !in s
    ensures c !in RemoveSpaces(s)
    decreases |s|
  {
    if s != [] {
      assert s == [s[0]] + s[1..];
      assert c !in s[1..];
      RemoveSpacesFrom(s[1..], c);
    }
  }

  /** The space-free form of "<a>-<b>" and "<a>-<b>-<tail>" when a and b
      have no spaces. */
  lemma TrimTail(a: string, b: string, tail: string)
    requires ' ' !in a && ' ' !in b
    ensures RemoveSpaces(a + "-" + b) == a + "-" + b
    ensures RemoveSpaces(a + "-" + b + "-" + tail) == a + "-" + b + "-" + RemoveSpaces(tail)
  {
    TrimAround(a, '-', b);
    RemoveSpacesNoSpace(a);
    RemoveSpacesNoSpace(b);
    TrimAround(a + "-" + b, '-', tail);
  }

  /** Only the first two pieces matter to `FromPieces`. */
  lemma FromPiecesFirstTwo(p: seq<string>, q: seq<string>, endYear: int, currentYear: int)
    requires |p| >= 2 && |q| >= 2 && p[0] == q[0] && p[1] == q[1]
    ensures FromPieces(p, endYear, currentYear) == FromPieces(q, endYear, currentYear)
  {
  }

  /** Pieces after the second are ignored. */
  lemma CleanedYearsIgnoresTail(a: string, b: string, tail: string, startYear: int, endYear: int, currentYear: int)
    requires ' ' !in a && '-' !in a && ' ' !in b && '-' !in b
    ensures CleanedYears(a + "-" + b + "-" + tail, startYear, endYear, currentYear)
         == CleanedYears(a + "-" + b, startYear, endYear, currentYear)
  {
    TrimTail(a, b, tail);
    var t := RemoveSpaces(tail);
    var long := a + "-" + b + "-" + t;
    var short := a + "-" + b;
    assert long == a + "-" + (b + "-" + t);
    SplitCons(a, '-', b + "-" + t);
    SplitCons(b, '-', t);
    SplitCons(a, '-', b);
    SplitSingle(b, '-');
    FromPiecesFirstTwo(Split(long, '-'), Split(short, '-'), endYear, currentYear);
  }

  /** The display form "<start> - <end>" of a closed range. */
  function FormatRange(startYear: nat, endYear: nat): string
  {
    FormatInt(startYear) + " - " + FormatInt(endYear)
  }

  /** Cleaning reads back both years of a displayed closed range. */
  lemma CleanedYearsFormatRange(a: nat, b: nat, startYear: int, endYear: int, currentYear: int)
    ensures CleanedYears(FormatRange(a, b), startYear, endYear, currentYear) == Years(a, b, None)
  {
    CleanedYearsClosedRange(FormatNat(a), FormatNat(b), startYear, endYear, currentYear);
    DigitsValueFormatNat(a);
    DigitsValueFormatNat(b);
  }

  /** Displaying the years cleaned from "<a> - <b>", with a and b written
      as `Itoa` writes them, gives the range back. */
  lemma CleanedYearsDisplayRoundTrip(a: string, b: string, startYear: int, endYear: int, currentYear: int)
    requires IsCanonical(a) && IsCanonical(b)
    ensures var y := CleanedYears(a + " - " + b, startYear, endYear, currentYear);
      y.err.None? && y.startYear >= 0 && y.endYear >= 0 && FormatRange(y.startYear, y.endYear) == a + " - " + b
  {
    CleanedYearsClosedRange(a, b, startYear, endYear, currentYear);
    FormatNatDigitsValue(a);
    FormatNatDigitsValue(b);
  }

  // ---------------------------------------------------------------------
  // The import loop
  // ---------------------------------------------------------------------

  /** What `gocsv.Unmarshal` produced: a failure, or the decoded records. */
  datatype Decoded = DecodeFailed | Decoded(records: seq<CarRecord>)

  function RecordsOf(d: Decoded): seq<CarRecord>
  {
    if d.Decoded? then d.records else []
  }

  /** The decoder allocates a fresh record for every row. */
  predicate Distinct(records: seq<CarRecord>)
    decreases |records|
  {
    records == [] || (records[0] !in records[1..] && Distinct(records[1..]))
  }

  /** In distinct records, record i is no other record. */
  lemma {:induction false} DistinctAt(records: seq<CarRecord>, i: nat)
    requires Distinct(records) && i < |records|
    ensures forall j | 0 <= j < |records| && j != i :: records[j] != records[i]
    decreases |records|
  {
    if i > 0 {
      DistinctAt(records[1..], i - 1);
      assert records[i] == records[1..][i - 1];
      forall j | 0 < j < |records| && j != i ensures records[j] != records[i] {
        assert records[j] == records[1..][j - 1];
      }
    } else {
      forall j | 0 < j < |records| ensures records[j] != records[0] {
        assert records[j] == records[1..][j - 1];
      }
    }
  }

  /** The error `CsvReader` returns. */
  datatype ImportError = DecodeError | CleanFailed(numErr: NumError) | CreateFailed(storeErr: StoreError)

  /** The outcome of importing rows: the rows as cleaning left them, every
      car passed to `CreateCar` in call order, the cars the store accepted,
      and the error the import stopped with. */
  datatype Run = Run(rows: seq<Row>, calls: seq<Car>, created: seq<Car>, err: Option<ImportError>)

  /** The import loop on values: clean the first row; on an error stop;
      otherwise create its car; on a store error stop; otherwise go on with
      the remaining rows. */
  function Import(rows: seq<Row>, currentYear: int, answer: Car -> CreateReply): (run: Run)
    ensures |run.rows| == |rows|
    ensures |run.created| <= |run.calls| <= |rows|
    decreases |rows|
  {
    if rows == [] then Run([], [], [], None)
    else
      var c := CleanRow(rows[0], currentYear);
      if c.err.Some? then Run([c.row] + rows[1..], [], [], Some(CleanFailed(c.err.value)))
      else
        var reply := answer(c.row.car);
        if reply.err.Some? then Run([c.row] + rows[1..], [c.row.car], [], Some(CreateFailed(reply.err.value)))
        else
          var rest := Import(rows[1..], currentYear, answer);
          Run([c.row] + rest.rows, [c.row.car] + rest.calls, [c.row.car] + rest.created, rest.err)
  }

  /** A row that cleans without error and whose car the store accepts. */
  predicate Imports(row: Row, currentYear: int, answer: Car -> CreateReply)
  {
    var c := CleanRow(row, currentYear);
    c.err.None? && answer(c.row.car).err.None?
  }

  /** The index of the first row that does not import, or the number of rows
      when all of them do. */
  function FirstFailure(rows: seq<Row>, currentYear: int, answer: Car -> CreateReply): (k: nat)
    ensures k <= |rows|
    ensures k < |rows| ==> !Imports(rows[k], currentYear, answer)
    decreases |rows|
  {
    if rows == [] || !Imports(rows[0], currentYear, answer) then 0
    else 1 + FirstFailure(rows[1..], currentYear, answer)
  }

  /** Every row before the first failing one imports. */
  lemma {:induction false} BeforeFirstFailure(rows: seq<Row>, j: nat, currentYear: int, answer: Car -> CreateReply)
    requires j < FirstFailure(rows, currentYear, answer)
    ensures Imports(rows[j], currentYear, answer)
    decreases |rows|
  {
    if j > 0 {
      BeforeFirstFailure(rows[1..], j - 1, currentYear, answer);
      assert rows[1..][j - 1] == rows[j];
    }
  }

  /** A row the import reaches imports exactly when it is before the first
      failing one. */
  lemma ReachedRow(rows: seq<Row>, i: nat, currentYear: int, answer: Car -> CreateReply)
    requires i < |rows| && i <= FirstFailure(rows, currentYear, answer)
    ensures Imports(rows[i], currentYear, answer) <==> i < FirstFailure(rows, currentYear, answer)
  {
    if i < FirstFailure(rows, currentYear, answer) {
      BeforeFirstFailure(rows, i, currentYear, answer);
    }
  }

  /** Rows up to and including the first failing one are cleaned. */
  lemma {:induction false} ImportRowsCleaned(rows: seq<Row>, currentYear: int, answer: Car -> CreateReply)
    ensures var run := Import(rows, currentYear, answer);
      var k := FirstFailure(rows, currentYear, answer);
      forall j | 0 <= j < |rows| && j <= k :: run.rows[j] == CleanRow(rows[j], currentYear).row
    decreases |rows|
  {
    if rows != [] && Imports(rows[0], currentYear, answer) {
      var rest := Import(rows[1..], currentYear, answer);
      ImportRowsCleaned(rows[1..], currentYear, answer);
      var run := Import(rows, currentYear, answer);
      assert run.rows == [CleanRow(rows[0], currentYear).row] + rest.rows;
      var k := FirstFailure(rows, currentYear, answer);
      forall j | 1 <= j < |rows| && j <= k ensures run.rows[j] == CleanRow(rows[j], currentYear).row {
        assert rows[1..][j - 1] == rows[j];
        assert run.rows[j] == rest.rows[j - 1];
      }
    }
  }

  /** The rows after the first failing one are never touched. */
  lemma {:induction false} ImportRowsUntouched(rows: seq<Row>, currentYear: int, answer: Car -> CreateReply)
    ensures var run := Import(rows, currentYear, answer);
      var k := FirstFailure(rows, currentYear, answer);
      forall j | k < j < |rows| :: run.rows[j] == rows[j]
    decreases |rows|
  {
    if rows != [] && Imports(rows[0], currentYear, answer) {
      var rest := Import(rows[1..], currentYear, answer);
      ImportRowsUntouched(rows[1..], currentYear, answer);
      var run := Import(rows, currentYear, answer);
      assert run.rows == [CleanRow(rows[0], currentYear).row] + rest.rows;
      var k := FirstFailure(rows, currentYear, answer);
      forall j | k < j < |rows| ensures run.rows[j] == rows[j] {
        assert rows[1..][j - 1] == rows[j];
        assert run.rows[j] == rest.rows[j - 1];
      }
    } else if rows != [] {
      var run := Import(rows, currentYear, answer);
      assert run.rows == [CleanRow(rows[0], currentYear).row] + rows[1..];
      forall j | 0 < j < |rows| ensures run.rows[j] == rows[j] {
        assert run.rows[j] == rows[1..][j - 1];
      }
    }
  }

  /** Rows up to the first failing one are cleaned; later rows are untouched. */
  lemma ImportRows(rows: seq<Row>, currentYear: int, answer: Car -> CreateReply)
    ensures var run := Import(rows, currentYear, answer);
      var k := FirstFailure(rows, currentYear, answer);
      (forall j | 0 <= j < |rows| && j <= k :: run.rows[j] == CleanRow(rows[j], currentYear).row) &&
      (forall j | k < j < |rows| :: run.rows[j] == rows[j])
  {
    ImportRowsCleaned(rows, currentYear, answer);
    ImportRowsUntouched(rows, currentYear, answer);
  }

  /** Indexing past the head of a sequence built by prepending one element. */
  lemma ConsIndex<T>(s: seq<T>, x: T, t: seq<T>, j: int)
    requires s == [x] + t && 0 < j < |s|
    ensures s[j] == t[j - 1]
  {
  }

  /** A row that imports contributes its cleaned car as the first call. */
  lemma ImportCallsStep(rows: seq<Row>, currentYear: int, answer: Car -> CreateReply)
    requires rows != [] && Imports(rows[0], currentYear, answer)
    ensures Import(rows, currentYear, answer).calls ==
      [CleanRow(rows[0], currentYear).row.car] + Import(rows[1..], currentYear, answer).calls
  {
  }

  /** The j-th call to the store is for the j-th row, cleaned: the import
      goes in order and creates each row at most once. */
  lemma {:induction false} ImportCalls(rows: seq<Row>, currentYear: int, answer: Car -> CreateReply)
    ensures var run := Import(rows, currentYear, answer);
      forall j | 0 <= j < |run.calls| :: j < |rows| && run.calls[j] == CleanRow(rows[j], currentYear).row.car
    decreases |rows|
  {
    if rows != [] && Imports(rows[0], currentYear, answer) {
      var tail := rows[1..];
      var rest := Import(tail, currentYear, answer);
      ImportCalls(tail, currentYear, answer);
      ImportCallsStep(rows, currentYear, answer);
      var calls := Import(rows, currentYear, answer).calls;
      var first := CleanRow(rows[0], currentYear).row.car;
      forall j | 1 <= j < |calls| ensures j < |rows| && calls[j] == CleanRow(rows[j], currentYear).row.car {
        ConsIndex(calls, first, rest.calls, j);
        assert tail[j - 1] == rows[j];
      }
    } else if rows != [] {
      var run := Import(rows, currentYear, answer);
      var c := CleanRow(rows[0], currentYear);
      assert run.calls == if c.err.Some? then [] else [c.row.car];
    }
  }

  /** The import ends at the first failing row k: without one every row is
      created and there is no error; a clean error at k is returned with no
      call for row k; a store error at k is returned after exactly one call
      for row k; the cars created before k stay created. */
  lemma {:induction false} ImportOutcome(rows: seq<Row>, currentYear: int, answer: Car -> CreateReply)
    ensures var run := Import(rows, currentYear, answer);
      var k := FirstFailure(rows, currentYear, answer);
      (k == |rows| ==> run.err.None? && |run.calls| == |rows| && run.created == run.calls) &&
      (k < |rows| && CleanRow(rows[k], currentYear).err.Some? ==>
        run.err == Some(CleanFailed(CleanRow(rows[k], currentYear).err.value)) &&
        |run.calls| == k && run.created == run.calls) &&
      (k < |rows| && CleanRow(rows[k], currentYear).err.None? ==>
        run.err == Some(CreateFailed(answer(CleanRow(rows[k], currentYear).row.car).err.value)) &&
        |run.calls| == k + 1 && run.created == run.calls[..k])
    decreases |rows|
  {
    if rows != [] && Imports(rows[0], currentYear, answer) {
      ImportOutcome(rows[1..], currentYear, answer);
      var run := Import(rows, currentYear, answer);
      var rest := Import(rows[1..], currentYear, answer);
      var k := FirstFailure(rows, currentYear, answer);
      if k < |rows| {
        assert rows[1..][k - 1] == rows[k];
        if CleanRow(rows[k], currentYear).err.None? {
          assert run.created[..k] == [run.created[0]] + rest.created[..k - 1];
        }
      }
    }
  }

  /** Every stored car keeps its row's fields other than the two years;
      in particular all of them keep the record's creation timestamp. */
  lemma ImportKeepsFields(rows: seq<Row>, currentYear: int, answer: Car -> CreateReply, j: nat)
    requires j < |Import(rows, currentYear, answer).calls|
    ensures j < |rows|
    ensures Import(rows, currentYear, answer).calls[j]
         == rows[j].car.(startYear := Import(rows, currentYear, answer).calls[j].startYear,
                         endYear := Import(rows, currentYear, answer).calls[j].endYear)
  {
    ImportCalls(rows, currentYear, answer);
  }

  /** Snapshots of the records, in order. */
  function Snapshots(records: seq<CarRecord>): (rows: seq<Row>)
    reads records
    ensures |rows| == |records|
    ensures forall j | 0 <= j < |records| :: rows[j] == records[j].Snapshot()
    decreases |records|
  {
    if records == [] then [] else [records[0].Snapshot()] + Snapshots(records[1..])
  }

  lemma SnapshotsAre(records: seq<CarRecord>, rows: seq<Row>)
    requires |records| == |rows|
    requires forall j | 0 <= j < |records| :: records[j].Snapshot() == rows[j]
    ensures Snapshots(records) == rows
  {
  }

  /** A row before the first failure imports: it is cleaned, and its car is
      the store call of the same index. */
  lemma ImportedAt(rows: seq<Row>, i: nat, currentYear: int, answer: Car -> CreateReply)
    requires i < FirstFailure(rows, currentYear, answer)
    ensures var run := Import(rows, currentYear, answer);
      var c := CleanRow(rows[i], currentYear);
      Imports(rows[i], currentYear, answer) && i < |run.calls| &&
      run.rows[i] == c.row && run.calls[i] == c.row.car
  {
    BeforeFirstFailure(rows, i, currentYear, answer);
    ImportRows(rows, currentYear, answer);
    ImportCalls(rows, currentYear, answer);
    ImportOutcome(rows, currentYear, answer);
  }

  /** The import stops at the first failing row k: row k is cleaned, the rows
      after it are not, the store saw the calls before k and, when row k
      cleaned, one more for row k, and kept only the cars before k. */
  lemma StoppedAt(rows: seq<Row>, currentYear: int, answer: Car -> CreateReply)
    requires FirstFailure(rows, currentYear, answer) < |rows|
    ensures var run := Import(rows, currentYear, answer);
      var k := FirstFailure(rows, currentYear, answer);
      var c := CleanRow(rows[k], currentYear);
      run.rows[k] == c.row && (forall j | k < j < |rows| :: run.rows[j] == rows[j]) &&
      k <= |run.calls| && run.calls == run.calls[..k] + (if c.err.None? then [c.row.car] else []) &&
      run.created == run.calls[..k] &&
      run.err == if c.err.Some? then Some(CleanFailed(c.err.value))
                 else Some(CreateFailed(answer(c.row.car).err.value))
  {
    ImportRows(rows, currentYear, answer);
    ImportCalls(rows, currentYear, answer);
    ImportOutcome(rows, currentYear, answer);
    var run := Import(rows, currentYear, answer);
    var k := FirstFailure(rows, currentYear, answer);
    if CleanRow(rows[k], currentYear).err.None? {
      assert run.calls == run.calls[..k] + [run.calls[k]];
    } else {
      assert run.calls == run.calls[..k];
    }
  }

  /** Without a failing row every row is imported and every car created. */
  lemma CompletedAll(rows: seq<Row>, currentYear: int, answer: Car -> CreateReply)
    requires FirstFailure(rows, currentYear, answer) == |rows|
    ensures var run := Import(rows, currentYear, answer);
      run.err.None? && |run.calls| == |rows| && run.calls[..|rows|] == run.calls == run.created
  {
    ImportOutcome(rows, currentYear, answer);
    var run := Import(rows, currentYear, answer);
    assert run.calls[..|rows|] == run.calls;
  }

  /** What step i of the import does: the record's row becomes `row`, and
      the store's logs go from `callsBefore` and `createdBefore` to `calls`
      and `created`; without an error the import goes on, with one it stops
      with the run's error. */
  ghost predicate Stepped(row: Row, calls: seq<Car>, created: seq<Car>, callsBefore: seq<Car>, createdBefore: seq<Car>,
                          rows: seq<Row>, run: Run, i: nat, err: Option<ImportError>)
  {
    i < |rows| == |run.rows| && row == run.rows[i] &&
    (err.None? ==>
       i < |run.calls| && calls == callsBefore + [run.calls[i]] && created == createdBefore + [run.calls[i]]) &&
    (err.Some? ==>
       err == run.err && i <= |run.calls| && run.created == run.calls[..i] &&
       (forall j | i < j < |rows| :: run.rows[j] == rows[j]) &&
       calls == callsBefore + run.calls[i..] && created == createdBefore)
  }

  /** One pass of the loop in `CsvReader`, for record i of the rows being
      imported: clean the record in place and, when cleaning succeeds, hand
      its car to the store. The record and the store change as step i of
      `Import` says, and an error is returned exactly at the first failing
      row. */
  method ImportRecord(record: CarRecord, store: CarStore, currentYear: int, ghost rows: seq<Row>, ghost i: nat)
    returns (err: Option<ImportError>)
    requires i < |rows| && i <= FirstFailure(rows, currentYear, store.answer)
    requires record.Snapshot() == rows[i]
    modifies record, store
    ensures err.None? ==> i < FirstFailure(rows, currentYear, store.answer)
    ensures Stepped(record.Snapshot(), store.calls, store.created, old(store.calls), old(store.created),
                    rows, Import(rows, currentYear, store.answer), i, err)
  {
    ghost var run := Import(rows, currentYear, store.answer);
    ReachedRow(rows, i, currentYear, store.answer);
    var cleanErr := Clean(record, currentYear);
    if cleanErr.Some? {
      StoppedAt(rows, currentYear, store.answer);
      return Some(CleanFailed(cleanErr.value));
    }
    var car := record.AsCar();
    var id, storeErr := store.CreateCar(car);
    if storeErr.Some? {
      StoppedAt(rows, currentYear, store.answer);
      assert run.calls[i..] == [car];
      return Some(CreateFailed(storeErr.value));
    }
    ImportedAt(rows, i, currentYear, store.answer);
    return None;
  }

  /** The state of the import loop before record i: the records before i
      hold their imported rows and the others their decoded rows, and the
      store has seen and kept the cars of the first i rows. */
  ghost predicate Progress(records: seq<CarRecord>, rows0: seq<Row>, run: Run, store: CarStore,
                           calls0: seq<Car>, created0: seq<Car>, i: nat)
    reads records, store
  {
    i <= |records| == |rows0| == |run.rows| && i <= |run.calls| &&
    store.calls == calls0 + run.calls[..i] && store.created == created0 + run.calls[..i] &&
    (forall j | 0 <= j < i :: records[j].Snapshot() == run.rows[j]) &&
    (forall j | i <= j < |records| :: records[j].Snapshot() == rows0[j])
  }

  /** The state after the import: the records and the store as the run says. */
  ghost predicate Done(records: seq<CarRecord>, run: Run, store: CarStore, calls0: seq<Car>, created0: seq<Car>)
    reads records, store
  {
    |records| == |run.rows| && (forall j | 0 <= j < |records| :: records[j].Snapshot() == run.rows[j]) &&
    store.calls == calls0 + run.calls && store.created == created0 + run.created
  }

  /** After step i, with every other record as the loop state before it
      says, the loop state moves on to record i + 1, or the import is done.
      `callsBefore` and `createdBefore` are the store's logs before step i. */
  lemma Advance(records: seq<CarRecord>, rows0: seq<Row>, run: Run, store: CarStore,
                calls0: seq<Car>, created0: seq<Car>, callsBefore: seq<Car>, createdBefore: seq<Car>,
                i: nat, err: Option<ImportError>)
    requires i < |records| == |rows0| == |run.rows| && i <= |run.calls|
    requires callsBefore == calls0 + run.calls[..i] && createdBefore == created0 + run.calls[..i]
    requires forall j | 0 <= j < |records| && j != i ::
      records[j].Snapshot() == if j < i then run.rows[j] else rows0[j]
    requires Stepped(records[i].Snapshot(), store.calls, store.created, callsBefore, createdBefore,
                     rows0, run, i, err)
    ensures err.None? ==> Progress(records, rows0, run, store, calls0, created0, i + 1)
    ensures err.Some? ==> Done(records, run, store, calls0, created0)
  {
    if err.Some? {
      assert run.calls == run.calls[..i] + run.calls[i..];
    } else {
      assert run.calls[..i + 1] == run.calls[..i] + [run.calls[i]];
    }
  }

  /** The loop of `CsvReader`: each record in turn is cleaned in place and
      its car created, and the first clean or store error is returned at
      once. The records and the store end up exactly as `Import` says. */
  method ImportAll(records: seq<CarRecord>, ghost rows0: seq<Row>, store: CarStore, currentYear: int)
    returns (err: Option<ImportError>)
    requires Distinct(records) && |rows0| == |records|
    requires forall j | 0 <= j < |records| :: records[j].Snapshot() == rows0[j]
    modifies store, records
    ensures var run := Import(rows0, currentYear, store.answer);
      err == run.err && Done(records, run, store, old(store.calls), old(store.created))
  {
    ghost var run := Import(rows0, currentYear, store.answer);
    ghost var calls0, created0 := store.calls, store.created;
    assert run.calls[..0] == [];
    var i := 0;
    while i < |records|
      invariant i <= FirstFailure(rows0, currentYear, store.answer)
      invariant Progress(records, rows0, run, store, calls0, created0, i)
    {
      DistinctAt(records, i);
      ghost var callsBefore, createdBefore := store.calls, store.created;
      err := ImportRecord(records[i], store, currentYear, rows0, i);
      Advance(records, rows0, run, store, calls0, created0, callsBefore, createdBefore, i, err);
      if err.Some? {
        return;
      }
      i := i + 1;
    }
    CompletedAll(rows0, currentYear, store.answer);
    return None;
  }

  /** `CsvReader`: a decode failure returns before any record is cleaned or
      any store call is made; otherwise the decoded records are imported. */
  method CsvReader(decoded: Decoded, store: CarStore, currentYear: int) returns (err: Option<ImportError>)
    requires Distinct(RecordsOf(decoded))
    modifies store, RecordsOf(decoded)
    ensures decoded.DecodeFailed? ==>
      err == Some(DecodeError) && store.calls == old(store.calls) && store.created == old(store.created)
    ensures decoded.Decoded? ==>
      var run := Import(old(Snapshots(decoded.records)), currentYear, store.answer);
      Snapshots(decoded.records) == run.rows && err == run.err &&
      store.calls == old(store.calls) + run.calls && store.created == old(store.created) + run.created
  {
    if decoded.DecodeFailed? {
      return Some(DecodeError);
    }
    ghost var rows0 := Snapshots(decoded.records);
    err := ImportAll(decoded.records, rows0, store, currentYear);
    SnapshotsAre(decoded.records, Import(rows0, currentYear, store.answer).rows);
  }
}
