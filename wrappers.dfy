/** Option and Result values, used where the plugin returns `None` or raises. */
module Wrappers {

  datatype Option<+T> = None | Some(value: T) {

    /** The wrapped value, or `default` when there is none (Python's `getattr(x, a, default)`). */
    function GetOr(default: T): T {
      match this
      case Some(v) => v
      case None => default
    }
  }

  datatype Result<+T, +E> = Success(value: T) | Failure(error: E)
}

/**
 * The Python exceptions that the modelled code lets escape: the class of
 * each, and the line of `src/__init__.py` that raises it.
 */
module Exceptions {

  datatype Exception =
    | TypeError(line: nat)
    | ValueError(line: nat)
    | UnboundLocalError(line: nat)
    | AttributeError(line: nat)
}
