/** The exceptions the transaction code throws, as one error type. */
module Errors {
  import opened JavaTypes

  /** Which `NoTransactionsException` was thrown; each carries its own message. */
  datatype Missing =
    | NoSuchId(id: Int32)                               // "No transaction with this Id: <id>"
    | NothingBetween(start: Timestamp, end: Timestamp)  // "No transactions between <start> and <end>."
    | NoTransactionsAtAll                               // "There are no transactions."
    | NothingToSave                                     // "No transactions to save."

  /** Why a file was refused with a file format exception. */
  datatype FormatProblem =
    | NotWritable
    | NotReadable
    | NotCsv
    | NotThreeValuesPerLine
    | BadValuesOnLine(line: nat)   // "... The exception occurred on line <line>"

  /** Why a `java.io.FileNotFoundException` was thrown. */
  datatype Absence = DoesNotExist | CannotWrite

  /** Unchecked exceptions that leave an operation. */
  datatype Unchecked =
    | IndexOutOfBounds                        // a missing field of `split(",")`
    | ParseFailure                            // a field that does not parse, outside any catch
    | ModifiedDuringRun(problem: FormatProblem) // a re-validation failure of the attached file
    | UnexpectedIo                            // an `IOException` wrapped in a `RuntimeException`

  datatype Error =
    | NoTransactions(missing: Missing)
    | InsufficientFunds(sum: Amount)
    | FileFormat(problem: FormatProblem)
    | FileNotFound(absence: Absence)
    | FileCreation
    | NotAttached
    | StartAfterEnd                           // the `DateTimeException` of the ledger's range query
    | Runtime(cause: Unchecked)
}
