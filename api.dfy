/** Result and error types shared by the network repositories. */
module Api {

  datatype Option<+T> = None | Some(value: T)

  /** Reasons a request can fail. Only `StatusCodeError` is produced by the
      repository code itself; every other reason (transport failure, decode
      failure, ...) comes from the request and decode layers and is kept
      opaque here. */
  datatype SessionError = StatusCodeError | Other(id: nat)

  /** The typed outcome handed to callers: an optional value and an optional error. */
  datatype ApiResult<+T> = ApiResult(value: Option<T>, error: Option<SessionError>)
  {
    /** A failure never carries a value alongside its error. */
    predicate Valid() {
      error.Some? ==> value.None?
    }

    /** Success and failure are exclusive and exhaustive: exactly one field is set. */
    predicate ExactlyOne() {
      value.Some? != error.Some?
    }

    /** No error is set. This is what a caller reads as success; it does not
        by itself mean a value is present: `ApiResult(None, None)` has no error. */
    predicate HasNoError() {
      error.None?
    }
  }

  /** The outcome of decoding a raw response: an optional decoded envelope and
      an optional transport/decode error. */
  datatype DecodeResult<+V> = DecodeResult(value: Option<V>, error: Option<SessionError>)

  /** HTTP status codes in the half-open range 200..<300 are successes. */
  predicate IsSuccessStatus(code: int) {
    200 <= code < 300
  }
}
