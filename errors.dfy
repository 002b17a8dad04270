/** Failure kinds of the table store and of the SQL parser, and the wrappers
    that carry them instead of exceptions. */
module Errors {

  /** One variant per failure the store and the parser can raise. */
  datatype Error =
    | TableAlreadyExists    // CreateTable on a name already present
    | TableNotFound         // any operation on an absent table
    | InvalidWhereClause    // a non-empty WHERE text without '='
    | InvalidJoinCondition  // a join condition without exactly one '='
    | InvalidSql            // fewer than three tokens
    | UnsupportedCommand    // first token neither SELECT nor INSERT
    | IndexOutOfRange       // a token index below zero (SELECT without FROM)

  datatype Option<+T> = None | Some(value: T)

  /** The outcome of an operation that produces a value. */
  datatype Result<+T> = Ok(value: T) | Err(error: Error)

  /** The outcome of an operation that only changes state. */
  datatype Outcome = Pass | Fail(error: Error)
}
