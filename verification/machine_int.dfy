/**
 The fixed-width unsigned integers of the searcher, on a 64-bit target.

 Dafny's integers are unbounded, so the width of Rust's `u64` and `usize`
 is written out as subset types, and the one unsigned subtraction whose
 result can leave the range of `usize` is modelled as a partial operation
 whose outcome depends on how the program was built: a debug build checks
 for overflow and panics, a release build wraps modulo 2^64.
 */
module MachineInt {

  /** Largest value of Rust's `u64`. */
  const U64_MAX: nat := 0xFFFF_FFFF_FFFF_FFFF

  /** Largest value of Rust's `usize` on a 64-bit target. */
  const USIZE_MAX: nat := 0xFFFF_FFFF_FFFF_FFFF

  /** `isize::MAX`: no allocation, hence no `Vec`, spans more bytes than this,
      so it bounds the length of every list the searcher can be given. */
  const ISIZE_MAX: nat := 0x7FFF_FFFF_FFFF_FFFF

  /** The number of distinct `usize` values; wrapping arithmetic is modulo this. */
  const USIZE_MODULUS: nat := USIZE_MAX + 1

  type u64 = x: nat | x <= U64_MAX

  type usize = x: nat | x <= USIZE_MAX

  /** The two ways the program can be compiled. Overflow checks are on in a
      debug build and off (wrapping) in a release build. */
  datatype Build = Debug | Release

  /** The result of a `usize` operation that may overflow. */
  datatype Checked = Ok(value: usize) | Overflow

  /** `a - b` on `usize`. */
  function Sub(build: Build, a: usize, b: usize): (r: Checked)
    // only a debug build refuses, and only when the true difference is negative
    ensures r.Overflow? <==> build == Debug && a < b
    // when the difference is representable it is exact
    ensures a >= b ==> r == Ok(a - b)
    // whatever comes back is congruent to the true difference
    ensures r.Ok? ==> (a - b - r.value) % USIZE_MODULUS == 0
  {
    if a >= b then Ok(a - b)
    else if build == Debug then Overflow
    else Ok(a - b + USIZE_MODULUS)
  }
}
