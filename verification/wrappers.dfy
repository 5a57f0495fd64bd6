/** Option and Result, and the faults that the generated code raises by panicking. */
module Wrappers {

  datatype Option<+T> = None | Some(value: T)

  datatype Result<+T, +E> = Ok(value: T) | Err(error: E)

  /** Every way the modelled code can panic (an `unwrap`, an index out of
      range, an `assert!`, `todo!()`, or a configuration check).
      `NotAlive` and `IdOutOfRange` are the two entity `assert!`s: the
      entity is dead, or its id was never handed out. */
  datatype Fault =
    | IndexOutOfBounds
    | UnwrapNone
    | NotAlive
    | IdOutOfRange
    | Unimplemented
    | UnknownStage(stage: string)
    | UnknownComponent(name: string)
    | UnknownResource(name: string)
    | NoRequiredComponent
    | NullWithLifetimes(component: string)
}
