/** The optional value used where the source accepts `None`. */
module Wrappers {
  datatype Option<+T> = None | Some(value: T)

  /** Python's `text or ""` on an optional string. */
  function OrEmpty(x: Option<string>): string {
    match x
    case Some(t) => t
    case None => ""
  }
}
