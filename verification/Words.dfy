/** Machine words of the tracer and the conversions C applies to them. */
module Words {

  datatype Option<+T> = None | Some(value: T)

  const TWO_31 := 0x8000_0000
  const TWO_32 := 0x1_0000_0000
  const TWO_56 := 0x100_0000_0000_0000
  const TWO_63 := 0x8000_0000_0000_0000
  const TWO_64 := 0x1_0000_0000_0000_0000
  const INT32_MAX := 0x7fff_ffff
  const EINVAL := 22

  type u8 = x: int | 0 <= x < 0x100
  type u32 = x: int | 0 <= x < 0x1_0000_0000
  type u64 = x: int | 0 <= x < 0x1_0000_0000_0000_0000
  type s32 = x: int | -0x8000_0000 <= x < 0x8000_0000
  type s64 = x: int | -0x8000_0000_0000_0000 <= x < 0x8000_0000_0000_0000

  const NUL := '\0'

  function Min(a: int, b: int): int {
    if a < b then a else b
  }

  function Max(a: int, b: int): int {
    if a < b then b else a
  }

  // (uint32_t)v
  function Low32(v: u64): u32 {
    v % TWO_32
  }

  // (int32_t)(uint32_t)v
  function AsInt32(v: u64): s32 {
    var w := v % TWO_32;
    if w < TWO_31 then w else w - TWO_32
  }

  // (int64_t)v
  function AsInt64(v: u64): s64 {
    if v < TWO_63 then v else v - TWO_64
  }

  // (uint64_t)v
  function AsUnsigned(v: s64): u64 {
    if v < 0 then v + TWO_64 else v
  }

  // Unsigned 64-bit addition.
  function Add64(a: u64, b: nat): u64 {
    (a + b) % TWO_64
  }

  // Unsigned 64-bit subtraction.
  function Sub64(a: u64, b: u64): u64 {
    (a - b) % TWO_64
  }
}
