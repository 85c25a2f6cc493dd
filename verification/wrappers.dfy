/** Option and Result: the missing value (SQL NULL, pandas NaN, Python None)
    and the error path (an exception the pipeline does not catch). */
module Wrappers {

  datatype Option<+T> = None | Some(value: T) {

    /** Python's `x or default` for an optional value. */
    function GetOr(default: T): T {
      match this
      case Some(v) => v
      case None => default
    }
  }

  datatype Result<+T, +E> = Ok(value: T) | Err(error: E)

  /** Applies `f` under `Some`, keeping `None` (pandas' `.str` methods leave NaN alone). */
  function MapOption<T, U>(o: Option<T>, f: T -> U): (r: Option<U>)
    ensures r.None? <==> o.None?
    ensures o.Some? ==> r == Some(f(o.value))
  {
    match o
    case None => None
    case Some(v) => Some(f(v))
  }
}
