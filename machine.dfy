/** Rust's fixed-width integers and the `as` casts between them that the core uses.
    Dafny integers are unbounded, so every narrowing or sign-changing cast is spelled out. */
module Machine {

  const TWO_31: int := 0x8000_0000
  const TWO_32: int := 0x1_0000_0000
  const TWO_63: int := 0x8000_0000_0000_0000
  const TWO_64: int := 0x1_0000_0000_0000_0000

  /** Rust `i64`. */
  type int64 = x: int | -0x8000_0000_0000_0000 <= x < 0x8000_0000_0000_0000
  /** Rust `i32`. */
  type int32 = x: int | -0x8000_0000 <= x < 0x8000_0000
  /** Rust `u8`. */
  type uint8 = x: int | 0 <= x < 0x100

  const I32_MAX: int32 := 0x7fff_ffff

  /** `x as i32` for an integer `x` of a wider type (`i64` or `usize`): keep the low
      32 bits and read them in two's complement. */
  function TruncateToI32(x: int): (r: int32)
    ensures (r - x) % TWO_32 == 0
    ensures -TWO_31 <= x < TWO_31 ==> r == x
  {
    var low := x % TWO_32;
    if low >= TWO_31 then low - TWO_32 else low
  }

  /** `v as usize` for an `i32` on a 64-bit target: sign extension, so a negative
      value becomes a huge unsigned one. */
  function I32AsUsize(v: int32): (r: nat)
    ensures r < TWO_64
    ensures (r - v) % TWO_64 == 0
    ensures v >= 0 ==> r == v
    ensures v < 0 ==> r >= TWO_64 - TWO_31
  {
    if v < 0 then v + TWO_64 else v
  }

  /** `i32::min`. */
  function MinI32(a: int32, b: int32): (r: int32)
    ensures r <= a && r <= b
    ensures r == a || r == b
  {
    if a <= b then a else b
  }
}
