/** Shared vocabulary of the model: optional values and instants. */
module Base {

  /** A value that may be absent: the model of a nullable column or an optional field. */
  datatype Option<+T> = None | Some(value: T)

  /** An instant, in milliseconds. The database clock (`NOW()`) and the server clock
      (`Date.now()`) are merged into this single time line. */
  type Time = int
}
