/** What the compiler can throw. */
module Errors {
  /**
   * `ParseError` and `MissingCatalogEntryError` are the project's error classes, `PlainError` a
   * bare `Error` (a `RangeError` from a call stack that overflowed is one too), and
   * `NonErrorValue` a thrown value that is not an `Error` at all.
   */
  datatype Exception =
    | ParseError(message: string)
    | MissingCatalogEntryError(message: string)
    | PlainError(message: string)
    | NonErrorValue

  /** The message of JavaScript's `RangeError` on call-stack overflow. */
  const StackOverflowMessage := "Maximum call stack size exceeded"
}
