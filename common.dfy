/** Shared vocabulary: optional values, results, the exceptions the Java
    code throws, and the fixed-width integer ranges of `long` and `int`. */
module Common {

  /** A Java reference that may be null. */
  datatype Option<+T> = None | Some(value: T)

  /** Either a value or the exception the Java code would throw instead. */
  datatype Result<+T> = Ok(value: T) | Err(error: Exception) {
    predicate IsFailure() { Err? }

    function PropagateFailure<U>(): Result<U>
      requires Err?
    {
      Err(error)
    }

    function Extract(): T
      requires Ok?
    {
      value
    }
  }

  /** The exceptions that the modelled code raises, by meaning. The comment
      after each constructor names the Java class that carries it. */
  datatype Exception =
    | IllegalArgument      // IllegalArgumentException (null key, id <= 0, unknown enum name)
    | DuplicateId          // RuntimeException "A cap with ID %d already exists"
    | CapNotFound          // RuntimeException "No cap found with ID %d"
    | BrandNotFound        // RuntimeException "No caps found with brand: %s"
    | InvalidLine          // RuntimeException "Invalid string to parse"
    | IndexCorruption      // CapDatabaseException "Index corruption detected"
    | NumberFormat         // NumberFormatException
    | IndexOutOfBounds     // ArrayIndexOutOfBoundsException / IndexOutOfBoundsException
    | NoSuchElement        // NoSuchElementException from an exhausted iterator
    | MalformedCap         // whatever the (absent) heap-line decoder throws
    | InvalidParametersCap(reason: CapDefect)  // InvalidParametersCapException

  /** Which validation guard of the service rejected a cap. */
  datatype CapDefect = BadPrice | BadStock | BlankColor

  /** Java `long`. */
  type Long = x: int | -0x8000_0000_0000_0000 <= x < 0x8000_0000_0000_0000

  /** Java `int`. */
  type Int32 = x: int | -0x8000_0000 <= x < 0x8000_0000

  predicate InLongRange(x: int) {
    -0x8000_0000_0000_0000 <= x < 0x8000_0000_0000_0000
  }

  predicate InIntRange(x: int) {
    -0x8000_0000 <= x < 0x8000_0000
  }

  /** A non-empty sequence is its front followed by its last element. */
  lemma SplitLast<T>(s: seq<T>)
    requires s != []
    ensures s[..|s| - 1] + [s[|s| - 1]] == s
  {
  }
}
