/** Optional values, and request fields that may be left out of a JSON body. */
module Wrappers {

  /** A value that may be absent: JavaScript's `undefined` or `null`. */
  datatype Option<+T> = None | Some(value: T)
  {
    function GetOr(default: T): T
    {
      match this
      case Some(v) => v
      case None => default
    }
  }

  /** A key of a partial-update body: left out of the body, or given with a value. */
  datatype Field<+T> = Omitted | Given(value: T)
}
