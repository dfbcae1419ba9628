/** Java's nullable references, and the exceptions the scanner can raise. */
module Options {

  /** A value that may be absent: Java's `null` is `None`. */
  datatype Option<+T> = None | Some(value: T)

  /** Where a `StringIndexOutOfBoundsException` (or the constructor's
      `AssertionError`) escapes from the module loader. */
  datatype Fault =
    | CharAtEnd          // `charAt` at the end of the text: no value after the colon
    | UnclosedString     // a string value with no closing quote
    | BracketsReversed   // the last `]` stands before the first `[`
    | ColonBeforeQuote   // a prerequisite entry whose first `:` precedes its first `"`
    | EmptyField         // the `Module` constructor's assertion on an empty code or name

  /** Either a normal result or the exception that escaped. Usable with `:-`. */
  datatype Outcome<+T> = Ok(value: T) | Throws(fault: Fault) {

    predicate IsFailure() {
      Throws?
    }

    function PropagateFailure<U>(): Outcome<U>
      requires Throws?
    {
      Throws(fault)
    }

    function Extract(): T
      requires Ok?
    {
      value
    }
  }
}
