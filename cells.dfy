/** Values shared by the whole spreadsheet core: cell positions, the error kinds the
    core raises, and the result types that stand for Java's exceptions. */
module Cells {

  /** A (row, column) key compared structurally, as CellPosition.equals does. */
  datatype Pos = Pos(row: int, col: int)

  /** One constructor per distinct IllegalArgumentException the core throws. */
  datatype Error =
    | NegativeCell     // "Row or column cannot be negative" (get, set, isEmpty)
    | NegativeStart    // "Source start row or column can't be negative" (setInBulk, check 1)
    | NegativeEnd      // "Source end row or column can't be negative" (setInBulk, check 2)
    | EndBeforeStart   // "Starting cell can't have its x or y less than ..." (setInBulk, check 3)
    | InvalidRow       // "Invalid row" (the row-label decoder)

  /** A value, or the exception that was thrown instead. */
  datatype Result<T> = Ok(value: T) | Err(error: Error)

  /** A void operation that returned normally, or the exception it threw. */
  datatype Outcome = Pass | Fail(error: Error)

  function Max(a: int, b: int): int
  {
    if a < b then b else a
  }
}
