/** Optional values: a missing dictionary entry or a missing item attribute. */
module Wrappers {

  datatype Option<+T> = None | Some(value: T)

  /** The value of a present option, or the given default (Python's `d.get(k, default)`). */
  function GetOr<T>(o: Option<T>, default: T): T
  {
    match o
    case Some(v) => v
    case None => default
  }
}
