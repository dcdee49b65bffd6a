/** Stand-ins for the Rust primitive types and library enums that the model uses. */
module Primitives {

  /** `usize::MAX` on a 64-bit target. */
  const USIZE_MAX: int := 0xFFFF_FFFF_FFFF_FFFF

  /** Rust's `usize` on a 64-bit target. */
  type usize = x: int | 0 <= x <= USIZE_MAX

  /** Rust's `u16` (the width and height of a terminal `Rect`). */
  type u16 = x: int | 0 <= x < 0x1_0000

  /** `usize::saturating_add(1)`: one more, but never past `usize::MAX`. */
  function SaturatingInc(a: usize): (r: usize)
    ensures r >= 1
    ensures a < USIZE_MAX ==> r == a + 1
    ensures a == USIZE_MAX ==> r == a
  {
    if a == USIZE_MAX then a else a + 1
  }

  datatype Option<T> = None | Some(value: T)

  datatype Result<T, E> = Ok(value: T) | Err(error: E)
}
