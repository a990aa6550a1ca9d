/** Physical type tags of the storage engine and the fixed-width integer
    arithmetic the source relies on. */
module Types {

  /** The storage engine's physical datatypes, as far as the modelled code
      dispatches on them. Every datetime unit is one tag, and so is every
      time-of-day unit: no modelled branch tells two units apart. */
  datatype DType =
    | Int8 | UInt8 | Int16 | UInt16 | Int32 | UInt32 | Int64 | UInt64
    | Float32 | Float64 | Bool
    | StringAscii | StringUtf8 | Char | GeomWkb | GeomWkt
    | DateTime | Time | Blob

  const TWO_63: int := 0x8000_0000_0000_0000
  const TWO_64: int := 0x1_0000_0000_0000_0000

  const INT64_MAX: int := TWO_63 - 1
  const UINT64_MAX: int := TWO_64 - 1

  /** A C++ `int64_t`. */
  type int64 = x: int | -TWO_63 <= x < TWO_63

  /** A C++ `uint64_t`. */
  type uint64 = x: int | 0 <= x < TWO_64

  /** Two's-complement wrap-around of an exact integer result into `int64_t`. */
  function WrapI64(x: int): (r: int64)
    ensures (r - x) % TWO_64 == 0
    ensures -TWO_63 <= x < TWO_63 ==> r == x
  {
    var m := (x + TWO_63) % TWO_64;
    m - TWO_63
  }

  /** Reduction of an exact integer result modulo 2^64, as `uint64_t` does. */
  function WrapU64(x: int): (r: uint64)
    ensures (r - x) % TWO_64 == 0
    ensures 0 <= x < TWO_64 ==> r == x
  {
    x % TWO_64
  }

  /** Decrementing and then incrementing in `int64_t` is the identity, even at
      the bottom of the range where both steps wrap. */
  lemma WrapI64DecInc(x: int64)
    ensures WrapI64(WrapI64(x - 1) + 1) == x
  {
    if x == -TWO_63 {
      assert WrapI64(x - 1) == INT64_MAX;
    }
  }
}
