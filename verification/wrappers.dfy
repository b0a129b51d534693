/** The optional value the schedule uses for a lookup that may find nothing
    (JavaScript's `undefined` from `find`) and for a credit that did not parse. */
module Wrappers {

  datatype Option<+T> = None | Some(value: T) {

    /** The value, or `default` when there is none (JavaScript's `x || default`
        for a value that is missing). */
    function GetOr(default: T): T
    {
      match this
      case Some(v) => v
      case None => default
    }
  }
}
