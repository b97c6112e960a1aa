/** Value wrappers shared by the harvester and the resume extractor. */
module Common {

  /** Python's `None` or a present value. */
  datatype Option<T> = None | Some(value: T)

  /** The outcome of a step whose failure Python reports as an exception;
      `Err` carries the exception's message, `str(e)`. */
  datatype Result<T> = Ok(value: T) | Err(message: string)

  /** The sum of the lengths of the strings. */
  function TotalLength(parts: seq<string>): nat
  {
    if |parts| == 0 then 0 else |parts[0]| + TotalLength(parts[1..])
  }
}
