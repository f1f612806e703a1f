/** Shared vocabulary: optional values and the bounded integers of the host language. */
module Prelude {
  datatype Option<+T> = None | Some(value: T) {
    predicate IsFailure() { None? }
    function PropagateFailure<U>(): Option<U>
      requires None?
    { None }
    function Extract(): T
      requires Some?
    { value }
  }

  const I64_MIN: int := -0x8000_0000_0000_0000
  const I64_MAX: int := 0x7FFF_FFFF_FFFF_FFFF

  type I64 = x: int | I64_MIN <= x <= I64_MAX

  /** Row ids: every 64-bit id, with no upper end. */
  type Id = x: int | I64_MIN <= x

  /** Checked 64-bit arithmetic: the exact result, or nothing when it does not fit. */
  function Checked(x: int): Option<I64> {
    if I64_MIN <= x <= I64_MAX then Some(x) else None
  }

  function Min(a: nat, b: nat): nat {
    if a <= b then a else b
  }

  /** Some element, no matter which: the order in which a hash table or a query enumerates is not specified. */
  method AnyOf<T(==)>(s: set<T>) returns (x: T)
    requires s != {}
    ensures x in s
  {
    x :| x in s;
  }
}
