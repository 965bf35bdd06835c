/** The optional value used where the Ruby code returns `nil`. */
module Wrappers {
  datatype Option<+T> = None | Some(value: T)

  /** The set holding the value of `o`, or nothing. */
  function Elements<T>(o: Option<T>): set<T> {
    if o.Some? then {o.value} else {}
  }
}
