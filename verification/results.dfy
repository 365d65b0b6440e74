/** The Java exceptions the wake path can raise, and a failure-compatible
    result type carrying either a value or the exception that aborted the
    computation. */
module Results {

  /** The exceptions that escape from the conversion and packet-building code.
      None of them is caught: in the source they unwind out of the wake
      handler before any datagram is built. */
  datatype Failure =
    /** `Integer.parseInt` rejected `text` (bad digit, lone sign, empty text,
        out-of-range radix or a value outside the 32-bit range). */
    | NumberFormat(text: string)
    /** `System.arraycopy` was asked to read or write past the end of an array. */
    | IndexOutOfBounds

  datatype Result<+T> = Ok(value: T) | Err(error: Failure) {

    predicate IsFailure() {
      Err?
    }

    function PropagateFailure<U>(): Result<U>
      requires Err?
    {
      Err(error)
    }

    function Extract(): T
      requires Ok?
    {
      value
    }
  }
}
