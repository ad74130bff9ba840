/** Optional values and the outcome of operations that can throw in the .NET source. */
module Wrappers {

  datatype Option<T> = None | Some(value: T)
  {
    predicate IsSome() { this.Some? }

    function GetOr(default: T): T
    {
      match this
      case None => default
      case Some(v) => v
    }
  }

  /** The exceptions of the .NET base library that the modelled code can raise. */
  datatype Exception =
    | ArgumentOutOfRange
    | IndexOutOfRange
    | InvalidOperation(message: string)
    | Argument(message: string)
    | Format
    | Overflow
    | NullReference

  /** The result of a call that either returns a value or throws. */
  datatype Result<T> = Ok(value: T) | Throws(error: Exception)
}
