/** Option and Result types shared by the model, and the .NET exceptions that
    the modelled members can raise and that escape to their callers. */
module Faults {

  /** A reference that may be null. */
  datatype Option<+T> = None | Some(value: T)

  /** An exception that escapes the modelled member. */
  datatype Fault =
    | ArgumentNull(param: string)   // ArgumentNullException naming the parameter
    | NullReference                 // NullReferenceException
    | InvalidCast                   // InvalidCastException

  /** A member's return value, or the exception it throws instead. */
  datatype Result<+T> = Ok(value: T) | Err(fault: Fault)

  /** The outcome of a member that returns nothing (void). */
  datatype Outcome = Done | Failed(fault: Fault)
}
