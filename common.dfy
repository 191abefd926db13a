/** Value types shared by every model: Rust's `Option`, `Result` and the
    32-bit signed integer `i32`. */
module Common {

  /** Rust's `Option<T>`. */
  datatype Option<+T> = None | Some(value: T)

  /** Rust's `Result<T, E>`; a panic of the source is modelled as an `Err`. */
  datatype Result<+T, +E> = Ok(value: T) | Err(error: E)

  const I32_MIN: int := -0x8000_0000
  const I32_MAX: int := 0x7FFF_FFFF

  /** Rust's `i32`. */
  newtype i32 = x: int | I32_MIN <= x <= I32_MAX

  /** `n` copies of `x`. */
  function Repeat(x: i32, n: nat): (s: seq<i32>)
    ensures |s| == n
    ensures forall i :: 0 <= i < n ==> s[i] == x
  {
    if n == 0 then [] else [x] + Repeat(x, n - 1)
  }
}
