/** Absence and failure, the two ways a pipeline value can be missing.
    `Option` stands for a table cell that may hold pandas' missing marker
    (NaN / NaT); `Result` stands for a stage that may stop with an error. */
module Wrappers {

  /** A table cell: `None` is the missing marker, `Some(v)` a present value. */
  datatype Option<+T> = None | Some(value: T) {

    /** The value, or `default` when the cell is missing (pandas `fillna`). */
    function GetOr(default: T): T {
      match this
      case Some(v) => v
      case None => default
    }
  }

  /** Why a stage stopped: a table the stage looks up is not in the
      dictionary of tables, or a column it selects is not in the frame
      (both are a `KeyError` in the source). */
  datatype PipelineError =
    | MissingDataset(dataset: string)
    | MissingColumn(column: string)

  /** The outcome of a stage that can fail. */
  datatype Result<+T> = Success(value: T) | Failure(error: PipelineError) {

    predicate IsFailure() {
      Failure?
    }

    function PropagateFailure<U>(): Result<U>
      requires Failure?
    {
      Failure(error)
    }

    function Extract(): T
      requires Success?
    {
      value
    }
  }
}
