/** Failure-carrying values: the Java nulls and exceptions of the ontology layer. */
module Results {

  /** A Java reference that may be null. */
  datatype Option<+T> = None | Some(value: T)

  /** The two exceptions the ontology layer throws. */
  datatype Error = NullPointerException | IllegalArgumentException

  /** The outcome of a call: a returned value or a thrown exception. */
  datatype Result<+T> = Ok(value: T) | Err(error: Error)
}
