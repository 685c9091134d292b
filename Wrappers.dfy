/** Optional values (Java's nullable references and `Optional`) and results that carry an error
    (Java's unchecked exceptions). */
module Wrappers {

  datatype Option<+T> = None | Some(value: T)

  /** The exceptions the relationship core can let escape to its caller. */
  datatype Error =
    | IllegalArgument       // a malformed URN, or a page request Spring refuses
    | ConstraintViolation   // a row that fails the bean-validation constraints at save time
    | IncorrectResultSize   // a single-result finder that matched more than one row
    | InvalidSortProperty   // a paged query sorted by a key that names no persistent property

  datatype Result<+T> = Ok(value: T) | Err(error: Error)
}
