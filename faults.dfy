/** The conditions under which the graph's operations throw, as values. */
module Faults {

  datatype Fault =
    | ShrinkRejected   // setVertexSize asked for fewer slots than links already has
    | NoVertex         // isOneComponent on a graph whose links is empty
    | SeedOutOfRange   // isOneComponent's seed scan ran past the last slot

  /** The result of an operation that either completes or throws. */
  datatype Outcome = Pass | Fail(fault: Fault)

  /** The result of an operation that either returns a value or throws. */
  datatype Result<T> = Ok(value: T) | Err(fault: Fault)
}
