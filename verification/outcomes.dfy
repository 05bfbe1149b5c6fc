/** Failure-compatible wrappers shared by every part of the bridge model.

    The hosts signal failure by throwing (.NET exceptions, JavaScript errors) and
    the guest by trapping; the model turns each of those into an `Error` value so
    that every failure path is an ordinary result that contracts can talk about.
 */
module Outcomes {

  datatype Option<+T> = None | Some(value: T)

  /** Why an operation of the bridge did not complete. */
  datatype Error =
      /** A bounds-checked memory access fell outside linear memory
          (ArgumentOutOfRangeException in .NET, RangeError in JavaScript,
          a trap inside the guest). */
    | OutOfBounds(offset: int, length: int, size: int)
      /** `new HttpMethod(..)` or `fetch` rejected the method name: empty, not a
          token, or (for `fetch`) one of the forbidden CONNECT, TRACE, TRACK. */
    | InvalidMethod(name: string)
      /** `fetch` refused a GET or HEAD request that carries a body. */
    | BodyNotAllowed(verb: string)
      /** .NET's `HttpClient` was handed a URI that is not an absolute HTTP URI
          and has no `BaseAddress` to resolve it against. */
    | NoBaseAddress(url: string)
      /** Text that a host parses as JSON (the request body it logs, the
          response it re-serialises) did not parse. */
    | MalformedJson
      /** The upstream answered with a status outside 200..299. */
    | HttpStatus(status: int)
      /** The transport produced no response at all (connection refused, ...). */
    | TransportFailed
      /** The Node host's `http_request` ran while no host buffer was recorded. */
    | HostNotSet
      /** `dealloc_buffer` was handed a pointer and size that do not describe a
          live allocation of exactly that size: undefined behaviour in the guest. */
    | BadRelease(ptr: int, size: int)

  datatype Result<+T> = Ok(value: T) | Err(error: Error) {

    predicate IsFailure() {
      Err?
    }

    function PropagateFailure<U>(): Result<U>
      requires Err?
    {
      Err(error)
    }

    function Extract(): T
      requires Ok?
    {
      value
    }
  }
}
