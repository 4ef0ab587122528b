/** Option, Result and the exceptions that the parsers and the exporter raise. */
module Results {

  datatype Option<+T> = None | Some(value: T)

  /** `kwargs.get(key, default)`: the supplied value, or `default` when none was supplied. */
  function GetOr<T>(o: Option<T>, default: T): (r: T)
    ensures o.None? ==> r == default
    ensures o.Some? ==> r == o.value
  {
    if o.Some? then o.value else default
  }

  /** The exceptions that leave the core. Names follow the Python classes. */
  datatype Error =
      /** builtin FileNotFoundError raised by `open` on a missing path */
    | FileNotFound(path: string)
      /** project InvalidFormatError */
    | InvalidFormat(message: string)
      /** project UnsupportedFormatError */
    | UnsupportedFormat(message: string)
      /** list indexing out of range */
    | IndexError
      /** uncaught KeyError escaping an adapter */
    | KeyError
      /** uncaught TypeError escaping an adapter */
    | TypeError
      /** uncaught AttributeError (a non-dict row where a dict is used) */
    | AttributeError
      /** ValueError raised by the CSV dictionary writer */
    | ValueError(message: string)
      /** any other exception a reader raised, propagated unchanged */
    | Unhandled(detail: string)

  datatype Result<+T> = Ok(value: T) | Err(error: Error)
}
