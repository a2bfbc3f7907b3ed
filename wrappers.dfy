/** Rust's `Option<T>`, with the `unwrap_or_default` family used by the source, and the
    width of its `u64`. */
module Wrappers {

  /** `u64::MAX`. */
  const U64_MAX: nat := 0xFFFF_FFFF_FFFF_FFFF

  datatype Option<+T> = None | Some(value: T) {

    /** `unwrap_or(default)`: the carried value, or `default` when there is none. */
    function GetOr(default: T): (r: T)
      ensures Some? ==> r == value
      ensures None? ==> r == default
    {
      match this
      case Some(v) => v
      case None => default
    }
  }
}
