/** Optional values and the structural errors the spreadsheet core reports. */
module Outcomes {

  datatype Option<+T> = None | Some(value: T)

  /** The exceptions the core throws, plus `NullCell`, which stands for a
      dereference of an entry that ClearCell has nulled (undefined behaviour in
      the C++ program, an explicit failure here). */
  datatype Error =
    | InvalidPosition
    | CircularDependency
    | SyntaxError
    | NullCell

  /** A value or the error that prevented it. */
  datatype Result<+T> = Ok(value: T) | Err(error: Error)

  /** The outcome of a mutator that returns nothing: it passed or it threw. */
  datatype Outcome = Pass | Fail(error: Error)
}
