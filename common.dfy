/** Small value types shared by the whole model. */
module Common {

  datatype Option<+T> = None | Some(value: T) {
    function GetOr(default: T): T {
      match this
      case Some(v) => v
      case None => default
    }
  }

  /** A key of the per-user session store: either never written, or holding a value. */
  datatype Slot<+T> = Absent | Present(value: T)

  /**
   * The exceptions the modelled code raises or catches: a missing file, a missing column, a
   * bad `range` step, and any other exception an outside call (a parser, a library, the
   * network) may raise.
   */
  datatype Exception =
    | FileNotFoundError
    | KeyError(key: string)
    | ValueError(message: string)
    | Error(message: string)

  /** What a call into code outside the model does: return a value or raise. */
  datatype Outcome<+T> = Returned(value: T) | Raised(exception: Exception)

  function Min(a: int, b: int): int { if a <= b then a else b }

  function Max(a: int, b: int): int { if a <= b then b else a }
}
