/** Datatypes shared by every module. */
module Prelude {

  datatype Option<+T> = None | Some(value: T)

  datatype Result<+T, +E> = Ok(value: T) | Err(error: E)

  type Byte = b: nat | b < 256

  /** Physical memory from `start` up to but not including `end`. */
  datatype PhysRange = PhysRange(start: nat, end: nat)

  datatype PageAllocError = OutOfBounds | MisalignedAddr | OutOfSpace | NotAllocated | UnableToMap

  /** One more than the greatest 64-bit value. */
  const TWO_64 := 0x1_0000_0000_0000_0000
}
