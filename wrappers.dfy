/** The Option datatype standing in for Java's nullable references. */
module Wrappers {

  datatype Option<+T> = None | Some(value: T)

  /** A Java string that may be null, read with null taken as the empty string. */
  function ValueOrEmpty(v: Option<string>): string
  {
    match v
    case None => ""
    case Some(x) => x
  }
}
