/** Option and Result values used where the modelled code returns "nothing" or raises. */
module Wrappers {

  datatype Option<+T> = None | Some(value: T)

  /** The error kinds the modelled code raises. */
  datatype Error =
    | ValueError(message: string)
    | KeyError(key: string)
    | AttributeError(message: string)

  datatype Result<+T> = Ok(value: T) | Err(error: Error)
}
