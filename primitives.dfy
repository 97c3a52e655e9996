/**
 * The machine-integer vocabulary the library is written in: the two backing
 * widths (`u32`, `u64`), Rust's `checked_*` and `wrapping_*` operations,
 * the truncating `as` cast, `Option` and `core::cmp::Ordering`.
 *
 * Integers here are unbounded; every place where the Rust code relies on a
 * fixed width is written out against `Max(w)`.
 */
module Primitives {

  datatype Option<T> = None | Some(value: T)

  /** `core::cmp::Ordering`. */
  datatype Ordering = Less | Equal | Greater {
    function Reverse(): Ordering {
      match this
      case Less => Greater
      case Equal => Equal
      case Greater => Less
    }
  }

  /** The backing integer type `T` of a value: `u32` or `u64`. */
  datatype Width = U32 | U64

  const U32_MAX: nat := 0xFFFF_FFFF
  const U64_MAX: nat := 0xFFFF_FFFF_FFFF_FFFF

  /** `T::MAX`. */
  function Max(w: Width): nat {
    if w == U32 then U32_MAX else U64_MAX
  }

  /** The period of wrapping arithmetic in width `w`, `T::MAX + 1`. */
  function Modulus(w: Width): nat {
    Max(w) + 1
  }

  /** `x as T` for a `u64` value `x`: keeps the low bits, silently. */
  function Truncate(w: Width, x: nat): (r: nat)
    ensures r <= Max(w)
    ensures x <= Max(w) ==> r == x
  {
    x % Modulus(w)
  }

  /** `a.checked_add(b)` */
  function CheckedAdd(w: Width, a: nat, b: nat): (r: Option<nat>)
    ensures r.Some? <==> a + b <= Max(w)
    ensures r.Some? ==> r.value == a + b
  {
    if a + b <= Max(w) then Some(a + b) else None
  }

  /** `a.checked_sub(b)` */
  function CheckedSub(w: Width, a: nat, b: nat): (r: Option<nat>)
    ensures r.Some? <==> b <= a
    ensures r.Some? ==> r.value == a - b
  {
    if b <= a then Some(a - b) else None
  }

  /** `a.checked_mul(b)` */
  function CheckedMul(w: Width, a: nat, b: nat): (r: Option<nat>)
    ensures r.Some? <==> a * b <= Max(w)
    ensures r.Some? ==> r.value == a * b
  {
    if a * b <= Max(w) then Some(a * b) else None
  }

  /** `a.wrapping_add(b)` */
  function WrappingAdd(w: Width, a: nat, b: nat): (r: nat)
    ensures r <= Max(w)
  {
    (a + b) % Modulus(w)
  }

  /** `a.wrapping_sub(b)` (Dafny's `%` never yields a negative value) */
  function WrappingSub(w: Width, a: nat, b: nat): (r: nat)
    ensures r <= Max(w)
  {
    (a - b) % Modulus(w)
  }

  /** `a.cmp(&b)` on unsigned integers. */
  function Cmp(a: int, b: int): (r: Ordering)
    ensures r == Less <==> a < b
    ensures r == Greater <==> a > b
  {
    if a < b then Less else if a > b then Greater else Equal
  }
}
