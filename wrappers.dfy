/** The optional-value datatype shared by the model: a form field that may be
    absent, a lookup that may miss, a column that may hold NULL. */
module Wrappers {

  datatype Option<+T> = None | Some(value: T) {

    /** The encapsulated value, or `default` when there is none. */
    function GetOr(default: T): T {
      match this
      case Some(v) => v
      case None => default
    }
  }
}
