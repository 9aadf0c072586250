/** Failure-carrying results used across the model.
    The source signals its failures by throwing; each such throw becomes an `Error` here. */
module Results {

  datatype Option<+T> = None | Some(value: T)

  /** The ways an operation of the library can throw. */
  datatype Error =
    | NoPlaceholders     // `String.match` found no placeholder and `.map` was called on `null`
    | NoMatch            // `url.match(regex)` was `null` and `.slice` was called on it
    | MalformedEncoding  // `decodeURIComponent` rejected its argument

  datatype Result<+T> = Success(value: T) | Failure(error: Error)
}
