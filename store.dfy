/** The storage port the importer and the handlers talk to: the `CreateCar`
    operation of the `CarDB` interface. */
module Store {
  import opened Types

  /** A store whose answer to `CreateCar` is given by `answer`, a function of
      the car alone. It keeps the log of every call it received and the list
      of the cars it accepted. */
  class CarStore {
    const answer: Car -> CreateReply
    var calls: seq<Car>
    var created: seq<Car>

    constructor (answer: Car -> CreateReply)
      ensures this.answer == answer
      ensures calls == [] && created == []
    {
      this.answer := answer;
      calls := [];
      created := [];
    }

    /** `CarDB.CreateCar`: logs the call, stores the car unless the answer is
        an error, and returns the answer. */
    method CreateCar(car: Car) returns (id: int, err: Option<StoreError>)
      modifies this
      ensures CreateReply(id, err) == answer(car)
      ensures calls == old(calls) + [car]
      ensures created == if err.None? then old(created) + [car] else old(created)
    {
      var reply := answer(car);
      id, err := reply.id, reply.err;
      calls := calls + [car];
      if err.None? {
        created := created + [car];
      }
    }
  }

  /** The test double `MockDB.CreateCar`: it refuses the company
      "BadCompany" with id 0 and accepts every other car with id 1. */
  function MockCreateCar(car: Car): (r: CreateReply)
    ensures r.err.Some? <==> car.text.company == "BadCompany"
    ensures r.id == if r.err.Some? then 0 else 1
  {
    if car.text.company == "BadCompany" then CreateReply(0, Some(StoreError))
    else CreateReply(1, None)
  }
}
