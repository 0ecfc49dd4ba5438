/** Error values of the crossword encoder: the one exception its code can raise. */
module Wrappers {

  /** Python's IndexError, raised by `words[0]` on an empty word list. */
  datatype Error = IndexError

  datatype Result<+T> = Success(value: T) | Failure(error: Error)
}
