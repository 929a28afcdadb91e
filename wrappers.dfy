/** Option and Result values used across the model: `null` in the C# source
    becomes `None`, and a thrown exception becomes `Err` with its message. */
module Wrappers {

  datatype Option<+T> = None | Some(value: T) {

    /** The C# `x ?? d`. */
    function GetOr(default: T): T {
      if Some? then value else default
    }
  }

  datatype Result<+T> = Ok(value: T) | Err(message: string)
}
