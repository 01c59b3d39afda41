/** The Option type used for the source's nullable references and failed lookups. */
module Wrappers {

  /** `None` stands for a C# `null` (or a lookup that found nothing). */
  datatype Option<+T> = None | Some(value: T) {

    /** Returns the value, or `default` when there is none. */
    function GetOr(default: T): T {
      match this
      case Some(v) => v
      case None => default
    }
  }
}
