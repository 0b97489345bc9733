/** The optional values the model needs: a field or argument that JavaScript
    leaves `undefined`. */
module Wrappers {

  datatype Option<+T> = None | Some(value: T) {
    /** The value, or `default` when it is absent (JavaScript's
        `typeof v === 'undefined' ? default : v`). */
    function GetOr(default: T): T {
      match this
      case Some(v) => v
      case None => default
    }
  }
}
