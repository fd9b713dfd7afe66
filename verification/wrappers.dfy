/** The optional value every extractor returns before a per-field default is applied. */
module Wrappers {

  /** `None` plays the part of Python's "no match" (`re.search` returning `None`) and of `pd.NA`. */
  datatype Option<+T> = None | Some(value: T) {

    /** The wrapped value, or `default` when there is none. */
    function GetOr(default: T): T {
      match this
      case Some(v) => v
      case None => default
    }
  }
}
