/** Conversion outcomes: a value, or the reason the conversion stops. */
module Outcome {

  /** Why a conversion stops. `PackRange(offset)` is `struct.error` raised
      while packing the field at `offset`, whose value does not fit. */
  datatype Error =
    | Relocations
    | BaseNotZero
    | PackRange(offset: nat)

  datatype Result<T> = Ok(value: T) | Err(error: Error)
}
