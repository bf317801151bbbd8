/** Failure-compatible helper types shared by the whole model. */
module Wrappers {

  /** A value or nothing; `None` stands for a C# `null` reference. */
  datatype Option<+T> = None | Some(value: T)

  /** The exceptions the modelled C# code can raise. */
  datatype Fault =
    | DuplicateKey     // Dictionary.Add on a key already present
    | NullReference    // member access on a null reference
    | IndexOutOfRange  // array read past its end
    | InvalidCast      // (string) cast of a non-string object
    | ArgumentNull     // Dictionary.Add with a null key
    | ParameterCount   // MethodInfo.Invoke with the wrong number of arguments

  /** A computed value, or the exception that ended the computation with
      nothing to show for it. */
  datatype Result<+T> = Ok(value: T) | Err(fault: Fault)

  /** The result of a statement sequence that may throw part-way.
      `Threw` carries the state as it stood when the exception left the
      method: effects performed before the throw are kept, as in C#. */
  datatype Outcome<+S> = Done(state: S) | Threw(fault: Fault, state: S)
}
