/** Optional values, and the truthiness of Python strings that may be `None`. */
module Wrappers {

  /** `None` or `Some(value)`; used for the source's `None`-able values. */
  datatype Option<+T> = None | Some(value: T)

  /** Python truthiness of a value that is either `None` or a `str`:
      both `None` and the empty string are false. */
  predicate Truthy(o: Option<string>) {
    o.Some? && o.value != ""
  }

  /** `a if a else b` on two `None`-able strings. */
  function OrElse(a: Option<string>, b: Option<string>): (r: Option<string>)
    ensures Truthy(a) ==> r == a
    ensures !Truthy(a) ==> r == b
  {
    if Truthy(a) then a else b
  }
}
