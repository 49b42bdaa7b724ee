/** The Option type used for SQL NULL, Python None and JavaScript undefined. */
module Wrappers {

  datatype Option<+T> = None | Some(value: T) {

    /** The value, or `default` when there is none. */
    function GetOr(default: T): T {
      match this
      case Some(v) => v
      case None => default
    }
  }

  /** SQL `COALESCE(update, known)`: the update unless it is NULL. */
  function Coalesce<T>(update: Option<T>, known: Option<T>): (r: Option<T>)
    ensures update.Some? ==> r == update
    ensures update.None? ==> r == known
    ensures known.Some? ==> r.Some?
  {
    if update.Some? then update else known
  }
}
