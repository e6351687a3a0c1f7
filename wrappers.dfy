/** Optional values (Java's nullable references) and the service's error results. */
module Wrappers {

  /** A Java reference that may be null. */
  datatype Option<+T> = None | Some(value: T)

  /** The failures the service surfaces to its callers. */
  datatype Error =
    | UpstreamUnavailable  // a fetch returned no payload ("External data source unavailable")
    | NotFound             // no record has the requested name ("Country not found")

  datatype Result<+T> = Ok(value: T) | Err(error: Error)
}
