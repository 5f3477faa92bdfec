/**
 * The two library calls the fingerprints depend on, passed in as
 * parameters: the md5 digest (blueimp-md5) and the WHATWG `URL` parser.
 * Nothing is assumed of either beyond being a function: in particular no
 * claim is made that md5 is free of collisions.
 */
module Env {
  import opened Wrappers
  import opened JsValues

  /** The parts of a parsed URL that fingerprints read; each is a string, possibly empty. */
  datatype Url = Url(protocol: string, hostname: string, port: string, pathname: string, search: string)

  /**
   * `md5(text)`, and `new URL(value)`: `None` when the constructor throws
   * (the value is coerced to text by the constructor, so it sees the whole value).
   */
  datatype Env = Env(md5: string -> string, parseUrl: Value -> Option<Url>)
}
