/**
 * The record the capture path builds for every request it stores
 * (main.go:23-32). The store only ever looks at `id`; the other fields
 * are carried along untouched.
 */
module Requests {

  /** Header name to its values, in the order they were received. */
  type Headers = map<string, seq<string>>

  datatype RequestInfo = RequestInfo(
    id: int,
    requestMethod: string,
    path: string,
    proto: string,
    headers: Headers,
    body: string,
    timestamp: int,      // capture time, supplied by the caller's clock
    remoteAddr: string
  )
}
