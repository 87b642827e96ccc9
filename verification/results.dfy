/** Error values and the result wrappers the library's operations return.
    Go reports failures as `error` values built with `fmt.Errorf`; here each
    distinct message becomes one constructor of `Error`. */
module Results {

  /** One constructor per error message the library can produce. */
  datatype Error =
    | WrongLength(got: nat)   // "expected 4 bytes, got %d"
    | TooManySlashes          // "too many slashes in the provided address"
    | InvalidAddress          // "invalid IP address provided"
    | InvalidNetmask          // "invalid netmask value"
    | ExpectedOneSlash        // "expected one CIDR or netmask for the network"
    | NoMoreAddresses         // "no more addresses"

  /** A Go `(T, error)` pair where exactly one side is meaningful. */
  datatype Result<+T> = Ok(value: T) | Err(error: Error)

  /** A Go pointer result: `nil` is `None`. */
  datatype Option<+T> = None | Some(value: T)

  /** A Go `error` return with no other value: `nil` is `Pass`. */
  datatype Outcome = Pass | Fail(error: Error)
}
