/** Small shared vocabulary: an optional value and Go's fixed-width integers. */
module Base {

  /** Go's `(value, ok)` pairs and nil-able results become an Option. */
  datatype Option<+T> = None | Some(value: T)

  const MaxUint64: int := 0xFFFF_FFFF_FFFF_FFFF

  /** Go's `uint64`. */
  type Uint64 = x: int | 0 <= x <= 0xFFFF_FFFF_FFFF_FFFF

  /** Go's `byte`. */
  type Byte = x: int | 0 <= x < 256
}
