/** Types shared by every module. */
module Prelude {

  datatype Option<+T> = None | Some(value: T)

  datatype Result<+T, +E> = Ok(value: T) | Err(error: E)

  /** Go's uint64 is kept as a number below 2^64; every operation that can leave the range wraps explicitly. */
  const TWO_64: nat := 0x1_0000_0000_0000_0000

  type Word64 = n: nat | n < TWO_64

  predicate Distinct<T(==)>(s: seq<T>) {
    forall i, j | 0 <= i < j < |s| :: s[i] != s[j]
  }
}
