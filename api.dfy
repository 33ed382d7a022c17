/** The decision logic of the HTTP handlers: the guards and the paging
    arithmetic of `getCars`, the status mapping of `getCarById` and
    `createCar`, and the choice of Gin's mode from the environment name.
    The store's answers are parameters, so each handler is a function from
    the request and those answers to the response (and, for `getCars`, to
    the calls it makes on the store). */
module Api {
  import opened Types
  import opened GoStrings
  import opened Store

  const MinInt64: int := -0x8000_0000_0000_0000
  const MaxInt64: int := 0x7fff_ffff_ffff_ffff
  /** Go's `uint` is 64 bits wide on the platforms the server targets. */
  const UintModulus: int := 0x1_0000_0000_0000_0000

  const StatusOK: int := 200
  const StatusCreated: int := 201
  const StatusBadRequest: int := 400
  const StatusNotFound: int := 404
  const StatusInternalServerError: int := 500

  /** What a handler writes: a JSON message, a car, a list of cars, or a bare
      status (`AbortWithStatus`). */
  datatype Body = NoBody | Message(text: string) | OneCar(car: Car) | Cars(cars: seq<Car>)

  datatype Response = Response(status: int, body: Body)

  // ---------------------------------------------------------------------
  // getCars
  // ---------------------------------------------------------------------

  /** Go's conversion `uint(x)` of a 64-bit signed value: wrap-around modulo
      2^64. */
  function Uint(x: int): (u: nat)
    ensures u < UintModulus
    ensures (x - u) % UintModulus == 0
    ensures 0 <= x < UintModulus ==> u == x
    ensures x >= 0 ==> u <= x
  {
    x % UintModulus
  }

  /** The mathematical ceiling of a / b, for either sign of b. */
  function CeilDiv(a: int, b: int): (q: int)
    requires b != 0
    ensures b > 0 ==> (q - 1) * b < a <= q * b
    ensures b < 0 ==> q * b <= a < (q - 1) * b
  {
    if b > 0 then
      var f := (-a) / b;
      assert -a == f * b + (-a) % b;
      -f
    else
      var f := a / (-b);
      assert a == f * (-b) + a % (-b);
      -f
  }

  /** `int(math.Ceil(float64(count) / float64(perPage)))`, raised to 1 when it
      is 0. A zero `perPage` divides by zero: the quotient is an infinity or
      NaN, which Go's conversion to `int` turns into the smallest 64-bit
      integer on amd64. */
  function PageCount(count: int, perPage: int): (n: int)
    ensures perPage == 0 ==> n == MinInt64
    ensures perPage != 0 && count == 0 ==> n == 1
    ensures perPage > 0 && count >= 0 ==> n >= 1
  {
    if perPage == 0 then MinInt64
    else
      var c := CeilDiv(count, perPage);
      if c == 0 then 1 else c
  }

  /** The `LIMIT` and `OFFSET` handed to `CarDB.GetCars`, both `uint`. */
  datatype Pagination = Pagination(limit: nat, offset: nat)

  /** The answer of `CarDB.Count`, as the Go pair `(int, error)`. */
  datatype CountReply = CountReply(count: int, err: Option<StoreError>)

  /** The answer of `CarDB.GetCars`, as the Go pair `([]*Car, error)`. */
  datatype ListReply = ListReply(cars: seq<Car>, err: Option<StoreError>)

  /** The response of `getCars`, whether it asked the store for the count,
      and the page it asked the store for, if any. */
  datatype GetCarsOutcome = GetCarsOutcome(response: Response, counted: bool, listed: Option<Pagination>)

  /** `c.DefaultQuery(key, default)`: the query value when the key is present
      (even when it is empty), the default otherwise. */
  function DefaultQuery(query: map<string, string>, key: string, default: string): (v: string)
    ensures key in query ==> v == query[key]
    ensures key !in query ==> v == default
  {
    if key in query then query[key] else default
  }

  function PageText(query: map<string, string>): string
  {
    DefaultQuery(query, "page", "1")
  }

  function PerPageText(query: map<string, string>): string
  {
    DefaultQuery(query, "per_page", "25")
  }

  /** The chain of guards of `getCars`. `checkPerPage` false is the handler
      as written; true adds the rejection of a `per_page` below 1 right after
      it is parsed. The order is the handler's: parse `page`, reject pages
      below 1, ask for the count, parse `per_page`, compare `page` with the
      page count, ask for the page of cars. */
  function GetCarsHandler(query: map<string, string>, count: CountReply, list: Pagination -> ListReply,
                          checkPerPage: bool): (o: GetCarsOutcome)
    ensures !o.counted <==> !IsInteger(PageText(query)) || Atoi(PageText(query)).value < 1
    ensures o.listed.Some? ==> o.counted && count.err.None? && IsInteger(PerPageText(query))
    ensures o.listed.Some? ==>
      var page := Atoi(PageText(query)).value;
      var perPage := Atoi(PerPageText(query)).value;
      page <= PageCount(count.count, perPage) &&
      o.listed.value == Pagination(Uint(perPage), Uint((page - 1) * perPage))
    ensures o.listed.None? ==> o.response.status == StatusBadRequest || o.response.status == StatusInternalServerError
  {
    var page := Atoi(PageText(query));
    if page.err.Some? then
      GetCarsOutcome(Response(StatusBadRequest, Message("Invalid page given. Double-check that a number is given.")),
                     false, None)
    else if page.value < 1 then
      GetCarsOutcome(Response(StatusBadRequest, Message("Page number can't be less than 1.")), false, None)
    else if count.err.Some? then
      GetCarsOutcome(Response(StatusInternalServerError, NoBody), true, None)
    else
      var perPage := Atoi(PerPageText(query));
      if perPage.err.Some? then
        GetCarsOutcome(Response(StatusBadRequest, NoBody), true, None)
      else if checkPerPage && perPage.value < 1 then
        GetCarsOutcome(Response(StatusBadRequest, NoBody), true, None)
      else if page.value > PageCount(count.count, perPage.value) then
        GetCarsOutcome(Response(StatusBadRequest, Message("Invalid page given.")), true, None)
      else
        var p := Pagination(Uint(perPage.value), Uint((page.value - 1) * perPage.value));
        var reply := list(p);
        if reply.err.Some? then GetCarsOutcome(Response(StatusInternalServerError, NoBody), true, Some(p))
        else GetCarsOutcome(Response(StatusOK, Cars(reply.cars)), true, Some(p))
  }

  /** `getCars` as written: `per_page` is never checked for being positive. */
  function GetCarsAsWritten(query: map<string, string>, count: CountReply, list: Pagination -> ListReply)
    : (o: GetCarsOutcome)
    ensures o.listed.Some? ==> o.listed.value.limit == Uint(Atoi(PerPageText(query)).value)
  {
    GetCarsHandler(query, count, list, false)
  }

  /** `getCars` with a `per_page` below 1 rejected as a bad request. A page or
      a per-page text that is not an integer, a page below 1, a failing
      count, a page beyond the page count and a failing listing are the
      handler's error cases; the page is checked before the count is
      requested, and a request that passes every guard is answered with
      the cars the store listed for it. */
  function GetCars(query: map<string, string>, count: CountReply, list: Pagination -> ListReply)
    : (o: GetCarsOutcome)
    ensures !o.counted <==> !IsInteger(PageText(query)) || Atoi(PageText(query)).value < 1
    ensures !o.counted ==> o.response.status == StatusBadRequest && o.listed.None?
    ensures o.counted && count.err.Some? ==>
      o.response == Response(StatusInternalServerError, NoBody) && o.listed.None?
    ensures o.listed.Some? <==>
      o.counted && count.err.None? && IsInteger(PerPageText(query)) &&
      1 <= Atoi(PerPageText(query)).value &&
      Atoi(PageText(query)).value <= PageCount(count.count, Atoi(PerPageText(query)).value)
    ensures o.listed.None? ==> o.response.status == StatusBadRequest || o.response.status == StatusInternalServerError
    ensures o.counted && count.err.None? && o.listed.None? ==> o.response.status == StatusBadRequest
    ensures o.counted && count.err.None? && IsInteger(PerPageText(query)) && 1 <= Atoi(PerPageText(query)).value &&
            Atoi(PageText(query)).value > PageCount(count.count, Atoi(PerPageText(query)).value) ==>
      o.response == Response(StatusBadRequest, Message("Invalid page given."))
    ensures o.listed.Some? ==>
      o.response == if list(o.listed.value).err.Some? then Response(StatusInternalServerError, NoBody)
                    else Response(StatusOK, Cars(list(o.listed.value).cars))
  {
    GetCarsHandler(query, count, list, true)
  }

  /** Wherever `per_page` is not an integer below 1, the handler as written
      and the corrected one answer alike, so every property proved of
      `GetCars` holds of the handler as written on those requests. */
  lemma AsWrittenAgrees(query: map<string, string>, count: CountReply, list: Pagination -> ListReply)
    requires !(IsInteger(PerPageText(query)) && Atoi(PerPageText(query)).value < 1)
    ensures GetCarsAsWritten(query, count, list) == GetCars(query, count, list)
  {
  }

  /** A missing `page` is page 1 and a missing `per_page` is 25. */
  lemma GetCarsDefaults(query: map<string, string>, count: CountReply, list: Pagination -> ListReply)
    requires "page" !in query && "per_page" !in query
    ensures GetCars(query, count, list) == GetCars(map["page" := "1", "per_page" := "25"], count, list)
    ensures GetCarsAsWritten(query, count, list)
         == GetCarsAsWritten(map["page" := "1", "per_page" := "25"], count, list)
  {
    var given := map["page" := "1", "per_page" := "25"];
    assert PageText(given) == "1" && PerPageText(given) == "25";
  }

  lemma MulLeft(a: int, b: int, c: int)
    requires a <= b && c >= 0
    ensures a * c <= b * c
  {
  }

  /** With a positive page size and a non-negative count, a page is accepted
      exactly when it is page 1 or starts before the end of the table. */
  lemma AcceptedPages(count: int, perPage: int, page: int)
    requires count >= 0 && perPage > 0 && page >= 1
    ensures page <= PageCount(count, perPage) <==> page == 1 || (page - 1) * perPage < count
  {
    var q := CeilDiv(count, perPage);
    if page >= 2 {
      if page <= PageCount(count, perPage) {
        MulLeft(page - 1, q - 1, perPage);
      }
      if (page - 1) * perPage < count && q < page - 1 + 1 {
        MulLeft(q, page - 1, perPage);
      }
    }
  }

  /** An accepted page starts at a non-negative offset inside a non-empty
      table, and only page 1 is accepted for an empty one. */
  lemma PageWindow(count: int, perPage: int, page: int)
    requires perPage >= 1 && page >= 1 && page <= PageCount(count, perPage)
    ensures 0 <= (page - 1) * perPage
    ensures count > 0 ==> (page - 1) * perPage < count
    ensures count <= 0 ==> page == 1
  {
    MulLeft(0, page - 1, perPage);
    if count > 0 {
      AcceptedPages(count, perPage, page);
    } else {
      var q := CeilDiv(count, perPage);
      assert q <= 0;
    }
  }

  /** Page 1 of an empty table is always accepted: the store is asked for
      the first `per_page` cars. */
  lemma EmptyTableFirstPage(query: map<string, string>, list: Pagination -> ListReply)
    requires PageText(query) == "1" && IsInteger(PerPageText(query))
    requires 1 <= Atoi(PerPageText(query)).value <= MaxInt64
    ensures GetCars(query, CountReply(0, None), list).listed == Some(Pagination(Atoi(PerPageText(query)).value, 0))
  {
    assert Atoi("1") == IntResult(1, None) by {
      assert IsDigits("1") && "1"[..0] == "";
    }
  }

  /** An accepted request asks for `per_page` cars starting at
      `(page - 1) * per_page`, and that offset lies inside a non-empty table;
      the values fit the 64-bit `uint`s when the count and `per_page` fit a
      64-bit `int`, which is all `Count` and `Atoi` return. */
  lemma AcceptedQuery(query: map<string, string>, count: CountReply, list: Pagination -> ListReply)
    ensures var o := GetCars(query, count, list);
      var page := Atoi(PageText(query)).value;
      var perPage := Atoi(PerPageText(query)).value;
      o.listed.Some? ==>
        1 <= page && 1 <= perPage &&
        (count.count > 0 ==> o.listed.value.offset < count.count) &&
        (perPage <= MaxInt64 ==> o.listed.value.limit == perPage) &&
        (count.count <= MaxInt64 ==> o.listed.value.offset == (page - 1) * perPage) &&
        (count.count <= 0 ==> page == 1)
  {
    var o := GetCars(query, count, list);
    var page := Atoi(PageText(query)).value;
    var perPage := Atoi(PerPageText(query)).value;
    if o.listed.Some? {
      PageWindow(count.count, perPage, page);
      assert o.listed.value == Pagination(Uint(perPage), Uint((page - 1) * perPage));
    }
  }

  /** As written, `per_page=-5` on an empty table is accepted on page 1, and
      the store is asked for 2^64 - 5 cars. */
  lemma NegativePerPageAccepted(list: Pagination -> ListReply)
    ensures GetCarsAsWritten(map["per_page" := "-5"], CountReply(0, None), list).listed
         == Some(Pagination(UintModulus - 5, 0))
  {
    var query := map["per_page" := "-5"];
    assert PageText(query) == "1" && PerPageText(query) == "-5";
    assert Atoi("1") == IntResult(1, None) by {
      assert IsDigits("1") && "1"[..0] == "";
    }
    assert Atoi("-5") == IntResult(-5, None) by {
      assert !IsDigit("-5"[0]);
      assert "-5"[1..] == "5" && IsDigits("5") && "5"[..0] == "";
    }
  }

  /** With the check in place, a per-page text below 1 is a bad request and
      the store is never asked for cars. */
  lemma NonPositivePerPageRejected(query: map<string, string>, count: CountReply, list: Pagination -> ListReply)
    requires IsInteger(PerPageText(query)) && Atoi(PerPageText(query)).value < 1
    ensures GetCars(query, count, list).listed.None?
    ensures GetCars(query, count, list).response.status == StatusBadRequest ||
            GetCars(query, count, list) == GetCarsOutcome(Response(StatusInternalServerError, NoBody), true, None)
  {
  }

  // ---------------------------------------------------------------------
  // getCarById
  // ---------------------------------------------------------------------

  /** The answer of `CarDB.GetCarById`: the car, or an error. */
  datatype LookupReply = Found(car: Car) | LookupFailed(err: StoreError)

  /** `getCarById`: 404 "Car not found." when the store errs, otherwise 200
      with the store's car. */
  function GetCarById(id: string, lookup: string -> LookupReply): (r: Response)
    ensures r.status == StatusNotFound <==> lookup(id).LookupFailed?
    ensures r.status != StatusNotFound ==> r == Response(StatusOK, OneCar(lookup(id).car))
    ensures r.status == StatusNotFound ==> r.body == Message("Car not found.")
  {
    match lookup(id)
    case LookupFailed(_) => Response(StatusNotFound, Message("Car not found."))
    case Found(car) => Response(StatusOK, OneCar(car))
  }

  const NoText: CarText := CarText("", "", "", "", "", "", "", "", "", "", "", "")

  /** The test double `MockDB.GetCarById`: only id "1" exists, a Toyota
      Corolla with id 1. */
  function MockGetCarById(id: string): (r: LookupReply)
    ensures r.Found? <==> id == "1"
  {
    if id == "1" then Found(Car(Atoi(id).value, NoText.(company := "Toyota", model := "Corolla"), 0, 0, 0))
    else LookupFailed(StoreError)
  }

  /** Against the test double, exactly id "1" is found, as car 1. */
  lemma GetCarByIdMock(id: string)
    ensures GetCarById(id, MockGetCarById).status == StatusOK <==> id == "1"
    ensures id == "1" ==> GetCarById(id, MockGetCarById).body.car.id == 1
  {
    if id == "1" {
      assert Atoi("1") == IntResult(1, None) by {
        assert IsDigits("1") && "1"[..0] == "";
      }
    }
  }

  // ---------------------------------------------------------------------
  // createCar
  // ---------------------------------------------------------------------

  /** The result of binding the request's JSON body to a car. */
  datatype BindResult = BindFailed | Bound(car: Car)

  /** The car `createCar` rebuilds from the posted fields: no id yet and the
      time of the request as creation time. */
  function NewCar(posted: Car, now: int): (car: Car)
    ensures car.id == 0 && car.createdAt == now
    ensures car.text == posted.text && car.startYear == posted.startYear && car.endYear == posted.endYear
  {
    Car(0, posted.text, posted.startYear, posted.endYear, now)
  }

  /** The response of `createCar` once the store has answered for `car`:
      500 on a store error, otherwise 201 with the car under the id the
      store assigned. */
  function Created(car: Car, reply: CreateReply): (r: Response)
    ensures r.status == StatusCreated <==> reply.err.None?
    ensures r.status != StatusCreated ==>
      r == Response(StatusInternalServerError, Message("Could not insert Car into DB."))
    ensures r.status == StatusCreated ==>
      r.body.OneCar? && r.body.car.id == reply.id && r.body.car.text == car.text &&
      r.body.car.startYear == car.startYear && r.body.car.endYear == car.endYear &&
      r.body.car.createdAt == car.createdAt
  {
    if reply.err.Some? then Response(StatusInternalServerError, Message("Could not insert Car into DB."))
    else Response(StatusCreated, OneCar(car.(id := reply.id)))
  }

  /** `createCar`: a body that does not bind is a bad request and the store
      is not called; otherwise the rebuilt car goes to the store once and
      the response follows its answer. */
  method CreateCar(store: CarStore, body: BindResult, now: int) returns (r: Response)
    modifies store
    ensures body.BindFailed? ==>
      r == Response(StatusBadRequest, Message("Invalid car given.")) &&
      store.calls == old(store.calls) && store.created == old(store.created)
    ensures body.Bound? ==>
      var car := NewCar(body.car, now);
      r == Created(car, store.answer(car)) && store.calls == old(store.calls) + [car] &&
      store.created == if r.status == StatusCreated then old(store.created) + [car] else old(store.created)
  {
    if body.BindFailed? {
      return Response(StatusBadRequest, Message("Invalid car given."));
    }
    var newCar := NewCar(body.car, now);
    var id, err := store.CreateCar(newCar);
    if err.Some? {
      return Response(StatusInternalServerError, Message("Could not insert Car into DB."));
    }
    newCar := newCar.(id := id);
    return Response(StatusCreated, OneCar(newCar));
  }

  /** Against the test double, "BadCompany" is refused with 500 and every
      other car is created with id 1. */
  lemma CreatedMock(car: Car)
    ensures Created(car, MockCreateCar(car)).status == StatusInternalServerError <==> car.text.company == "BadCompany"
    ensures car.text.company != "BadCompany" ==>
      Created(car, MockCreateCar(car)) == Response(StatusCreated, OneCar(car.(id := 1)))
  {
  }

  // ---------------------------------------------------------------------
  // ginEnvMode
  // ---------------------------------------------------------------------

  const ReleaseMode: string := "release"
  const DebugMode: string := "debug"
  const TestMode: string := "test"

  /** `ginEnvMode`: "prod" runs Gin in release mode, "dev" in debug mode and
      any other name in test mode. */
  function GinEnvMode(env: string): (mode: string)
    ensures mode == ReleaseMode <==> env == "prod"
    ensures mode == DebugMode <==> env == "dev"
    ensures mode == TestMode <==> env != "prod" && env != "dev"
  {
    if env == "prod" then ReleaseMode
    else if env == "dev" then DebugMode
    else TestMode
  }
}
