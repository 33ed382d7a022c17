# KaggleCarAPI core, modelled in Dafny

KaggleCarAPI is a small Go REST service over a table of cars taken from a
Kaggle CSV file. This project models the service's decision logic and proves
properties of it:

- **The CSV import** (`csvreader.go`) reads the decoded records one at a
  time. Cleaning turns the free-text "Model Year Range" of a record (such as
  `"2008 - 2012"`, `"2018 - Present"` or `"2015"`) into the integer fields
  `StartYear` and `EndYear`, writing them in place. The cleaned car then goes
  to the store's `CreateCar`. The import stops at the first cleaning or
  store error.
- **The HTTP handlers** (`api.go`):
  - `getCars` has a chain of guards and the paging arithmetic that turns
    `page` and `per_page` into the store's `LIMIT`/`OFFSET`.
  - `getCarById` and `createCar` map store outcomes to HTTP status codes.
  - `ginEnvMode` picks Gin's mode from the environment name.
- **The log level** (`config.go`): `GetLogLevel` maps a level name to one
  of `slog`'s four levels.

## Modules

| file | module | contents |
|---|---|---|
| `types.dfy` | `Types` | `Option`, the `strconv` syntax error, the store error, the car |
| `gostrings.dfy` | `GoStrings` | `strings.ReplaceAll(s, " ", "")`, `strings.Split`, `strings.ToLower`, `strconv.Atoi`, and `strconv.Itoa` as the partner of `Atoi` |
| `store.dfy` | `Store` | the `CarDB.CreateCar` port as a class that logs its calls, and the test double's answer |
| `csvreader.dfy` | `CsvImport` | the record class, cleaning (in place, and as a function on values), the import loop against a function `Import` on values |
| `api.dfy` | `Api` | `getCars`, `getCarById`, `createCar`, `ginEnvMode` |
| `config.dfy` | `Config` | `GetLogLevel` |

### How the model is built

**Records.** A decoded CSV record is a `CarRecord` object. Only its two year
fields are mutable, because cleaning is the only writer.

**Cleaning.** `CsvImport.CleanYears` writes those fields in place. It is
proved equal to the function `CleanedYears`, and the properties of cleaning
are lemmas about that function.

**The store.** It is a `CarStore` object. Its answer to `CreateCar` is a
function of the car, supplied when the store is built. It logs every call
and every accepted car.

**The import.** The method `CsvImport.CsvReader` is proved to leave the
records and the store's logs exactly as the function `CsvImport.Import`
computes them on values. The order of calls, the early stop and "earlier
creates stand" are then proved about `Import`.

**The handlers.** The store's answers are parameters:
- `Count` is a value.
- `GetCars` and `GetCarById` are functions of their arguments.

`getCars` returns an outcome. The outcome records:
- the response;
- whether the count was requested;
- which page, if any, the store was asked for.

**Machine arithmetic.** Go's `uint` conversion is written out as
wrap-around modulo 2^64. The float ceiling `math.Ceil(float64(count) /
float64(perPage))` is integer ceiling division. The two agree whenever
`|count|` is below 2^53.

### Where the code and its description disagree, or the code does not compile

The model follows the code, or its evident intent where it does not compile:

- `csvreader.go` does not compile as shown:
  - `inputFile` at line 18 is undefined.
  - `carRecord.Car` at line 31 and `c.Car` at line 61 name a field that
    `CarRecord` (types.go:27-45) does not have.
  - Line 32 assigns the pair `(int, error)` of `CreateCar` (db.go:15) to a
    single variable.

  The model follows the evident intent:
  - cleaning writes the record's own year fields;
  - the car handed to the store is the record's fields without the raw
    year range;
  - the id `CreateCar` returns is discarded.
- `clean` does not set a creation time. Every field other than the two years
  is copied unchanged.
- On a failed parse, Go's tuple assignment still writes `Atoi`'s 0 into the
  field before the error is returned (csvreader.go:63, 71). The model does
  the same.
- `checkEndYear` parses the lower-cased segment. Its error therefore names
  the lower-cased text.
- The import's errors are the raw `strconv` and store errors, with no row
  number. On a failure `CsvReader` returns `nil` and the error. On success
  it returns a slice of as many nil pointers as there are records, with no
  error. The model returns only the error, which is all its caller uses.
- `getCars` (api.go:59-114) does not compile as shown:
  - `cars` is undeclared at line 108.
  - Its success path writes no response.

  The model answers 200 with the listed cars, which is what
  api_test.go:33-56 expects.
- The types `Car` and `Pagination` and the function `NewCar` that
  `createCar` calls are not defined in any of the repository's files this
  model covers. The model defines them itself and assumes:
  - `Car` holds the record's fields without the raw year range.
  - `NewCar` copies the posted fields and stamps the creation time. It sets
    no id.
- A body that does not bind makes `createCar` answer 400 with the message
  "Invalid car given." (api.go:158-160). The test at api_test.go:126-131
  expects "Received bad request." instead. The model follows the handler.
- Gin's `DefaultQuery` returns the default only for a missing key. A key
  given with an empty value yields the empty text, and `Atoi` rejects that.

## Model

| member | source | states |
|---|---|---|
| `GoStrings.RemoveSpaces` | csvreader.go:52 | the result has no space and is no longer than the input |
| `GoStrings.RemoveSpacesConcat` | csvreader.go:52 | removing spaces distributes over concatenation, so a space may be inserted anywhere |
| `GoStrings.RemoveSpacesBlank` | csvreader.go:52-53 | the result is empty exactly when every character of the input is a space |
| `GoStrings.Split` | csvreader.go:60 | `strings.Split` with a one-character separator gives at least one piece, and no piece holds the separator |
| `GoStrings.JoinSplit` | csvreader.go:60 | joining the pieces with the separator gives the text back |
| `GoStrings.SplitJoin` | csvreader.go:60 | splitting joined separator-free pieces gives the pieces back |
| `GoStrings.ToLower` | csvreader.go:82 | same length; each character lower-cased, ASCII capitals only |
| `GoStrings.Atoi` | csvreader.go:63 | no error exactly when the text is an optional sign and one or more digits; on an error the value is 0 and the error names `Atoi` and the text |
| `GoStrings.AtoiFormatInt` | csvreader.go:63 | `Atoi` reads back every integer that `Itoa` writes |
| `GoStrings.FormatIntAtoi` | csvreader.go:63 | `Itoa` writes back the digits `Atoi` read, when they have no leading zero |
| `GoStrings.IntegerToLower` | csvreader.go:82-86 | lower-casing neither makes nor breaks an integer and leaves every integer unchanged |
| `CsvImport.CheckEndYear` | csvreader.go:81-87 | "present" in any case, or the empty text, gives the current year; an integer gives its value; any other text is an error naming the lower-cased text, with value 0 |
| `CsvImport.CleanedYears` | csvreader.go:49-78 | the years and error `cleanYears` leaves: a blank range changes nothing, a range without a hyphen leaves the end year, and every error is an `Atoi` error with the start or the end year 0 |
| `CsvImport.CleanRow` | csvreader.go:43-47 | `clean` on a record value: the raw range, id, text columns and creation time are kept, and the two years and the error are those of `CleanedYears` |
| `CsvImport.CleanYears` | csvreader.go:49-78 | the record's year fields and the returned error are exactly those of `CleanedYears` applied to the range and the old years |
| `CsvImport.Clean` | csvreader.go:43-47 | the record after cleaning, with the error, is `CleanRow` of the record before it: only the two years change |
| `CsvImport.CleanedYearsIgnoresSpace` | csvreader.go:52-60 | a space inserted anywhere in the range changes nothing, so "2008 - 2012" and "2008-2012" clean alike |
| `CsvImport.CleanedYearsSpaceFree` | csvreader.go:52 | cleaning depends on the range only through its space-free form |
| `CsvImport.CleanedYearsBlank` | csvreader.go:52-55 | a range that is empty or all spaces gives no error and leaves both years unchanged |
| `CsvImport.CleanedYearsClosedRange` | csvreader.go:60-75 | "a - b" with decimal a and b gives start year a, end year b and no error |
| `CsvImport.CleanedYearsOpenRange` | csvreader.go:69-85 | "a - b" where b lower-cases to "present" or is empty gives start year a and the current year as end year |
| `CsvImport.CleanedYearsBadStart` | csvreader.go:60-66 | a first piece that is not an integer ("abc-2012", "-2012") is an error: start year 0 and the end year untouched |
| `CsvImport.CleanedYearsBadEnd` | csvreader.go:69-87 | a second piece that is neither "present", empty, nor an integer ("2008-xyz") is an error naming the lower-cased piece, with the parsed start year and end year 0 |
| `CsvImport.CleanedYearsNoHyphen` | csvreader.go:60-69 | a range without a hyphen ("2015") leaves the end year unchanged and sets only the start year, from the space-free text |
| `CsvImport.CleanedYearsIgnoresTail` | csvreader.go:60-70 | pieces after the second are ignored |
| `CsvImport.CleanedYearsFormatRange` | csvreader.go:52-75 | cleaning reads both years back from their display form "start - end" |
| `CsvImport.CleanedYearsDisplayRoundTrip` | csvreader.go:52-75 | cleaning "a - b" with a and b in `Itoa` form gives no error, and displaying the two years gives "a - b" back |
| `CsvImport.Import` | csvreader.go:26-36 | the import keeps one row per input row, and makes no more store calls than there are rows, with no more created cars than calls |
| `CsvImport.ImportRows` | csvreader.go:26-29 | rows up to and including the first failing one are cleaned; the rows after it are never touched |
| `CsvImport.ImportCalls` | csvreader.go:26-32 | the j-th store call is for the j-th row, cleaned: calls follow the row order, at most one per row |
| `CsvImport.ImportOutcome` | csvreader.go:26-39 | without a failing row there is no error and every row is created; a clean error at row k returns it after exactly k calls; a store error at row k returns it after k + 1 calls; the k cars before it stay created |
| `CsvImport.ImportKeepsFields` | csvreader.go:31-32 | every car handed to the store is its row's car with only the two years changed |
| `CsvImport.ImportRecord` | csvreader.go:27-35 | one pass of the loop on record i: the record and the store's logs change as step i of `Import` says, and an error comes back exactly at the first failing row |
| `CsvImport.ImportAll` | csvreader.go:26-39 | the loop leaves every record, the call log and the created list as `Import` computes them, and returns its error |
| `CsvImport.CsvReader` | csvreader.go:14-40 | a decode failure returns before any store call; otherwise the records, the store's logs and the error are those of `Import` on the decoded rows |
| `Store.CarStore.CreateCar` | db.go:15 | returns the store's answer for the car, logs the call and keeps the car exactly when there is no error |
| `Store.MockCreateCar` | mocks.go:11-16 | the test double fails exactly for the company "BadCompany", with id 0; otherwise it returns id 1 |
| `Api.Uint` | api.go:108 | `uint(x)` is the residue of x modulo 2^64, equal to x inside the range |
| `Api.CeilDiv` | api.go:97 | the ceiling of a / b for either sign of b |
| `Api.PageCount` | api.go:97-100 | a zero per-page gives the smallest 64-bit integer; an empty table has one page; a positive per-page and a non-negative count give at least one page |
| `Api.DefaultQuery` | api.go:62-85 | Gin's `DefaultQuery`: the query value when the key is present, even when empty, and the default otherwise |
| `Api.GetCarsHandler` | api.go:59-114 | the chain of guards, with or without the per-page check: the count is requested exactly when the page text is an integer of at least 1; the store is asked for cars only after a successful count, with an integer per-page and a page within the page count, at limit `uint(per_page)` and offset `uint((page - 1) * per_page)`; without a listing the answer is 400 or 500 |
| `Api.GetCarsAsWritten` | api.go:59-114 | the handler as written: the limit asked for is per-page converted to `uint`, whatever its sign |
| `Api.AsWrittenAgrees` | api.go:59-114 | on every request whose per-page is not an integer below 1, the handler as written answers exactly as the corrected one, so the properties of `GetCars` hold of it there |
| `Api.GetCars` | api.go:59-114 | the count is requested exactly when the page text is an integer of at least 1; a failing count is 500; the store is asked for cars exactly when the count succeeds, per-page is an integer of at least 1 and the page is within the page count; after a successful count every rejection is 400, and a page past the page count is 400 "Invalid page given."; an accepted request answers 200 with the listed cars, or 500 when the listing fails |
| `Api.GetCarsDefaults` | api.go:62-86 | a missing `page` is "1" and a missing `per_page` is "25" |
| `Api.AcceptedPages` | api.go:97-105 | with a positive per-page, a page is accepted exactly when it is page 1 or starts before the end of the table |
| `Api.PageWindow` | api.go:97-107 | an accepted page's offset is non-negative and, for a non-empty table, below the count; an empty table accepts only page 1 |
| `Api.EmptyTableFirstPage` | api.go:97-108 | page 1 of an empty table is accepted and asks for `per_page` cars at offset 0 |
| `Api.AcceptedQuery` | api.go:102-108 | an accepted request asks for limit `per_page` and offset `(page - 1) * per_page` inside the table, with no wrap-around for values that `Count` and `Atoi` can return |
| `Api.NegativePerPageAccepted` | api.go:85-108 | as written, `per_page=-5` on an empty table is accepted and asks the store for 2^64 - 5 cars |
| `Api.NonPositivePerPageRejected` | api.go:85-92 | with the corrected check, a per-page below 1 never reaches the store |
| `Api.GetCarById` | api.go:126-135 | 404 "Car not found." exactly when the store errs; otherwise 200 with the store's car |
| `Api.MockGetCarById` | mocks.go:26-33 | the test double finds exactly the id "1" |
| `Api.GetCarByIdMock` | api_test.go:58-80 | against the test double, id "1" is 200 with car 1 and every other id is 404 |
| `Api.NewCar` | api.go:163-178 | the rebuilt car has the posted fields, no id and the request time as creation time |
| `Api.Created` | api.go:181-188 | 201 exactly when the store accepts, with the posted car under the store's id; otherwise 500 "Could not insert Car into DB." |
| `Api.CreateCar` | api.go:151-189 | a body that does not bind is 400 and makes no store call; otherwise the rebuilt car goes to the store once and the response is `Created` of the store's answer |
| `Api.CreatedMock` | api_test.go:112-137 | against the test double, "BadCompany" is 500 and every other car is 201 with id 1 |
| `Api.GinEnvMode` | api.go:215-224 | "prod" is release mode, "dev" is debug mode, every other name is test mode |
| `Config.GetLogLevel` | config.go:98-115 | always one of the four levels; Debug, Warn and Error exactly for the lower-cased names "debug", "warn" and "error"; Info for every other name |
| `Config.GetLogLevelIgnoresCase` | config.go:99-104 | names that lower-case alike give the same level |
| `Config.GetLogLevelLowered` | config.go:99 | lower-casing the name first changes nothing |
| `Config.GetLogLevelDebugAnyCase` | config.go:103-104 | "DEBUG" and "Debug" are both Debug |
| `Config.GetLogLevelExamples` | config.go:105-113 | "info" and the empty name are Info, "warn" is Warn, "error" is Error |

## Left out

- CSV decoding: `gocsv.Unmarshal` and internal/csvreader.go are a library
  wrapper. The decoder's result is an input: a failure, or a sequence of
  distinct fresh records.
- The clock is a parameter (the current year, and the time of a
  `createCar` request).
- The 60-second context timeout of the import is not modelled.
- Logging is not modelled, and neither are the `print` call in `GetLogLevel`
  and `log.Error` in every handler.
- Gin's context plumbing, JSON encoding and binding are not modelled. A
  body that binds is a given car.
- The route table, `StartRouter`, Swagger, `ping` and `main.go` are not
  modelled. They are I/O, flags and a background goroutine.
- The SQL behind `CarDB` (db.go) is not modelled. The store's answers are
  parameters.
- `LoadConfig` and `GetConfigFilePath` are not modelled. They read files
  and the working directory.
- `GoStrings.Atoi`: does not model the 64-bit range error of
  `strconv.Atoi`. An integer text of any length parses.
- `GoStrings.ToLower`: lower-cases ASCII capitals only, where Go lower-cases
  all of Unicode.
- `Api.PageCount`: integer ceiling division stands for the float
  computation. They agree for counts below 2^53.
- `Api.PageCount`: a zero per-page follows amd64's conversion of infinity
  and NaN to `int`. Other platforms convert differently.
- `Api.CreateCar`: the in-place write of `newCar.ID` is a value update of
  the car.

## Findings

| source | as written | input that shows it | evidently intended | confidence | as-written member | corrected member |
|---|---|---|---|---|---|---|
| api.go:85-108 | `per_page` is parsed but never checked to be positive, and `uint(perPage)` wraps a negative value | `per_page=-5`, page 1, an empty table: accepted, the store is asked for LIMIT 2^64 - 5 at OFFSET 0 | a `per_page` below 1 is a bad request (400) and the store is not asked; `Api.NonPositivePerPageRejected` and `Api.AcceptedQuery` prove it of the corrected handler | medium, not executed | `Api.NegativePerPageAccepted` | `Api.GetCars` |
