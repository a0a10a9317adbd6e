/** Outcomes of the modelled code: an optional value, and a value or the Java
    exception that escapes instead of it. */
module Results {

  datatype Option<+T> = None | Some(value: T)

  /** The unchecked and checked exceptions the spider's code can raise. */
  datatype Failure =
    | NumberFormat    // Integer.parseInt on text that is not a numeral
    | SubstringRange  // String.substring with a begin index past the end index
    | ArrayIndex      // an array element read outside the array's bounds
    | Transport       // IOException from the HTTP client

  datatype Result<+T> = Ok(value: T) | Err(error: Failure)
}
