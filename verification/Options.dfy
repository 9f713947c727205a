/** The one optional value shared by every module. */
module Options {
  datatype Option<+T> = None | Some(value: T)

  /** SQL's COALESCE of two columns: the first non-null one. */
  function Coalesce<T>(a: Option<T>, b: Option<T>): Option<T> {
    if a.Some? then a else b
  }
}
