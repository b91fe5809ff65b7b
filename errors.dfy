/** The failure values of the planner: each exception the C# code throws becomes
    a `Failure`, and an operation that may throw returns a `Result` or `Outcome`. */
module Errors {

  /** Why `UtsDocument.Validate` rejects a document (InvalidOperationException). */
  datatype ValidationIssue =
    | TNotPositive        // T must be > 0
    | KNegative           // K must be >= 0
    | ENegative           // E must be >= 0
    | RowLengthMismatch   // some student's row length differs from T

  /** Why the `.uts` reader or the cell codec rejects its input (FormatException). */
  datatype FormatIssue =
    | InvalidCell(c: char)           // a cell symbol outside {A, D, Z, -, L}
    | QuoteInUnquotedField           // a quote after other characters of an unquoted field
    | UnterminatedQuotedField        // the line ends inside a quoted field
    | MissingMetadataValue(key: string)
    | TooShort                       // fewer than two lines
    | UnsupportedVersion             // first line does not start with UTS,1
    | InvalidHeaderWidth
    | RowWidthMismatch(row: nat)     // 1-based line number of the offending row
    | InvalidCellToken               // a cell token that is not exactly one character

  datatype Failure =
    | InvalidOperation(issue: ValidationIssue)
    | ArgumentOutOfRange
    | IndexOutOfRange                // an array index outside the array
    | ArgumentNull
    | Format(format: FormatIssue)
    | Overflow                       // a negative array size

  datatype Result<+T> = Ok(value: T) | Err(error: Failure)

  datatype Outcome = Pass | Fail(error: Failure)

  /** A C# reference that may be null. */
  datatype Nullable<+T> = Null | NonNull(value: T)
}
