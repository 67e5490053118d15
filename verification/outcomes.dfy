/** How the model records the exceptions the Java code throws and the values it may lack. */
module Outcomes {

  /** A value that may be absent: a number that did not parse, or a dictionary that was not read. */
  datatype Option<T> = None | Some(value: T)

  /** Either the value a Java call returns, or the exception it throws instead. */
  datatype Result<T, E> = Ok(value: T) | Thrown(error: E)
}
