/** Shared value types: Go's fixed-width integers and the error-carrying results
    that stand in for `log.Fatal` and returned errors. */
module Basics {

  /** Go's uint8 (a byte). */
  type uint8 = x: int | 0 <= x < 0x100

  /** Go's uint16 (a port number). */
  type uint16 = x: int | 0 <= x < 0x1_0000

  datatype Option<T> = None | Some(value: T)

  /** The outcome of an operation that the source ends with an error or with
      `log.Fatal`: the model reports the failure instead of exiting. */
  datatype Result<T> = Ok(value: T) | Err(reason: string)

  function Min(a: int, b: int): int { if a <= b then a else b }

  function Max(a: int, b: int): int { if a <= b then b else a }
}
