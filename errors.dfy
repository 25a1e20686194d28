/** Optional values, the library's error taxonomy and the result type every fallible
    operation returns. */
module Errors {

  datatype Option<T> = None | Some(value: T)

  /** The error kinds of the library. `Http` stands for a transport failure reported by
      the HTTP client; its payload is the client's description of the failure. */
  datatype Error =
    | Configuration(message: string)
    | Http(detail: string)
    | Api(message: string)
    | Formatting(message: string)
    | Other(message: string)

  datatype Result<T> = Ok(value: T) | Err(error: Error)
}
