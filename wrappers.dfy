/** Option and Result, the two wrappers the model uses for the source's
    missing keys (`None` in a dictionary) and rejected inputs. */
module Wrappers {

  datatype Option<+T> = None | Some(value: T) {
    function GetOr(default: T): T {
      match this
      case Some(v) => v
      case None => default
    }
  }

  datatype Result<+R, +E> = Ok(value: R) | Err(error: E)
}
