/** The outcomes of the calculator's operations: a value, or the exception the JavaScript code
    would throw instead of returning. */
module Results {

  datatype SpawnError =
      /** A `Date` became an Invalid Date and formatting it threw a `RangeError`. */
    | InvalidDate
      /** The slot index was negative, `spawnLocations[i]` was `undefined`, and destructuring it
          threw a `TypeError`. */
    | UndefinedLocation
      /** The bounded search for a boundary outside the maintenance hour ran out of steps. */
    | NoBoundaryFound

  datatype Result<+T> = Success(value: T) | Failure(error: SpawnError)
}
