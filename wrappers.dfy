/** Optional values: Kotlin's nullable results (`toIntOrNull`, `maxOfOrNull`, a missing file). */
module Wrappers {

  datatype Option<+T> = None | Some(value: T) {

    /** The `?:` (elvis) operator: the value, or `default` when there is none. */
    function GetOr(default: T): T
    {
      match this
      case Some(v) => v
      case None => default
    }
  }
}
