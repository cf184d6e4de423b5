/** The fixed-width integer ranges of the on-chain program (Rust's u64, u128
    and i64) as subset types of `int`, together with the checked, saturating
    and truncating operations the program applies to them. A value of one of
    these types can never silently leave its range: every step that could is
    written out as a check. */
module Numeric {

  const U64_MAX: int := 0xFFFF_FFFF_FFFF_FFFF
  const U128_MAX: int := 0xFFFF_FFFF_FFFF_FFFF_FFFF_FFFF_FFFF_FFFF
  const I64_MIN: int := -0x8000_0000_0000_0000
  const I64_MAX: int := 0x7FFF_FFFF_FFFF_FFFF

  type U64 = x: int | 0 <= x <= U64_MAX
  type U128 = x: int | 0 <= x <= U128_MAX
  type I64 = x: int | I64_MIN <= x <= I64_MAX

  /** Account addresses; the model only compares them for equality. */
  type Pubkey = nat

  datatype Option<T> = None | Some(value: T)

  /** `a.checked_add(b)` on u64. */
  function CheckedAddU64(a: U64, b: U64): Option<U64>
  {
    if a + b <= U64_MAX then Some(a + b) else None
  }

  /** `a.checked_sub(b)` on u64. */
  function CheckedSubU64(a: U64, b: U64): Option<U64>
  {
    if b <= a then Some(a - b) else None
  }

  /** `a.checked_add(b)` on u128. */
  function CheckedAddU128(a: U128, b: U128): Option<U128>
  {
    if a + b <= U128_MAX then Some(a + b) else None
  }

  /** `a.checked_mul(b)` on u128. */
  function CheckedMulU128(a: U128, b: U128): Option<U128>
  {
    if a * b <= U128_MAX then Some(a * b) else None
  }

  /** `a.saturating_sub(b)`. */
  function SaturatingSub(a: nat, b: nat): nat
  {
    if b <= a then a - b else 0
  }

  /** The `as u64` cast of a u128: keeps the low 64 bits. */
  function TruncateU64(x: int): U64
  {
    x % (U64_MAX + 1)
  }

  /** The `as i64` cast: keeps the low 64 bits and reads them as a signed
      value. */
  function WrapI64(x: int): (r: I64)
    ensures I64_MIN <= x <= I64_MAX ==> r == x
    ensures I64_MAX < x <= U64_MAX ==> r == x - (U64_MAX + 1)
  {
    (x - I64_MIN) % (U64_MAX + 1) + I64_MIN
  }

  /** The cast loses nothing when the value already fits. */
  lemma TruncateIsIdentityBelowU64(x: int)
    requires 0 <= x <= U64_MAX
    ensures TruncateU64(x) == x
  {
  }

  lemma MulLeft(a: int, b: int, c: int)
    requires 0 <= c && a <= b
    ensures c * a <= c * b
  {
  }

  lemma MulBelow(a: int, b: int, c: int)
    requires 0 < c && a < b
    ensures c * a < c * b
  {
  }

  /** The product of two u64 values fits in a u128. */
  lemma ProductOfU64sFitsU128(a: U64, b: U64)
    ensures a * b <= U128_MAX
  {
    MulLeft(a, U64_MAX, b);
    MulLeft(b, U64_MAX, U64_MAX);
    assert U64_MAX * U64_MAX <= U128_MAX;
  }

  /** Floor division is monotone in the dividend. */
  lemma DivMonotone(x: int, y: int, d: int)
    requires 0 <= x <= y && 0 < d
    ensures x / d <= y / d
  {
    if x / d > y / d {
      MulLeft(y / d + 1, x / d, d);
      assert false;
    }
  }

  /** A quotient is below `q` when the dividend is below `q * d`. */
  lemma DivBelow(x: int, q: int, d: int)
    requires 0 <= x < q * d && 0 < d
    ensures x / d < q
  {
    if x / d >= q {
      MulLeft(q, x / d, d);
      assert false;
    }
  }
}
