/** Values shared by the importer, the store port and the HTTP handlers. */
module Types {

  datatype Option<T> = None | Some(value: T)

  /** The `*strconv.NumError` that `strconv.Atoi` returns on a syntax error:
      the name of the function and the text that failed to parse. */
  datatype NumError = NumError(func: string, num: string)

  /** A failure reported by the store; the core never looks inside it. */
  datatype StoreError = StoreError

  /** The descriptive columns of a car, as text: the core copies them from
      the CSV record to the store without interpreting them. */
  datatype CarText = CarText(
    company: string,
    model: string,
    horsepower: string,
    torque: string,
    transmissionType: string,
    drivetrain: string,
    fuelEconomy: string,
    numberOfDoors: string,
    price: string,
    bodyType: string,
    engineType: string,
    numberOfCylinders: string)

  /** A car as the store receives and returns it: every field of the CSV
      record except the raw "Model Year Range" text, which cleaning replaces
      by the two integer years. `createdAt` stands for the `time.Time`
      timestamp as an opaque number. */
  datatype Car = Car(id: int, text: CarText, startYear: int, endYear: int, createdAt: int)

  /** What `CarDB.CreateCar` returns: the assigned id and an error, as the
      Go pair `(int, error)`. */
  datatype CreateReply = CreateReply(id: int, err: Option<StoreError>)
}
