/** The optional value used for every JSON key that may be absent, and for
    results that Python represents as `None`; and the smaller of two
    lengths, as slicing and `zip` take it. */
module Wrappers {

  datatype Option<+T> = None | Some(value: T) {

    /** Python's `d.get(key, default)`: the value if present, else the default. */
    function GetOr(default: T): T {
      match this
      case Some(v) => v
      case None => default
    }
  }

  /** `min(a, b)` on lengths. */
  function Min(a: nat, b: nat): nat {
    if a <= b then a else b
  }
}
