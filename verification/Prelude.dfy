/** Types that several models share. */
module Prelude {

  datatype Option<+T> = None | Some(value: T)

  datatype Result<+T, +E> = Ok(value: T) | Err(error: E)

  /** A byte as bits; where it is a number to compute with, as in `Octets`, it is an `Octet`. */
  type Byte = bv8

  type Word = bv64

  const TWO_64 := 0x1_0000_0000_0000_0000

  /** Go's `uint64`. */
  newtype uint64 = n: int | 0 <= n < 0x1_0000_0000_0000_0000
}
