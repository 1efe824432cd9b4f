/** Java's null references and exception control flow, made explicit as values. */
module JavaBase {

  /** A reference that may be null: `None` is Java's `null`. */
  datatype Option<+T> = None | Some(value: T)

  /** The exceptions the core raises or lets escape, with the message the source gives. */
  datatype Exception =
    | NumberFormat                       // Double.parseDouble rejected its argument
    | DateTimeParse                      // LocalDateTime.parse rejected its argument
    | IllegalArgument(message: string)
    | UnsupportedOperation(message: string)

  /** The message `getMessage()` gives for an exception the core throws itself. */
  function MessageOf(e: Exception): string
  {
    match e
    case NumberFormat => ""
    case DateTimeParse => ""
    case IllegalArgument(m) => m
    case UnsupportedOperation(m) => m
  }

  /** The outcome of a Java call: it returns a value or it throws. */
  datatype Result<+T> = Returns(value: T) | Throws(exception: Exception)
}
