/** Small shared vocabulary: an optional value and the C integer widths the
    modelled code relies on. */
module Common {

  datatype Option<+T> = None | Some(value: T)

  /** 2^32: the modulus of C `unsigned`. */
  const U32: nat := 0x1_0000_0000
  /** 2^31: the first value a C `int` cannot hold. */
  const I32Limit: nat := 0x8000_0000
  /** 2^64: the modulus of `hsize_t` and `size_t`. */
  const U64: nat := 0x1_0000_0000_0000_0000

  /** Reinterprets a 32-bit unsigned bit pattern as a two's-complement `int`. */
  function ToInt32(x: nat): (r: int)
    requires x < U32
    ensures -(I32Limit as int) <= r < I32Limit
    ensures r % U32 == x
    ensures x < I32Limit ==> r == x
  {
    if x < I32Limit then x else x - U32
  }
}
