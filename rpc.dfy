/** The shape in which the RPC helper `postRPC` (main.js) hands replies to the core. The transport
    itself (axios, URLs, headers, the 30-second timeout) is not part of this model: the core only
    ever sees one of these values. */
module Rpc {
  import opened Common

  /** A reply that reached the client: the HTTP status, the body if there was one, and its text
      (the body itself when it was a string, else its JSON; or the status text of an HTTP error). */
  datatype Response<T> = Response(status: int, data: Option<T>, text: Option<string>)

  /** The outcome of one RPC call: either it threw (network failure, timeout: anything that is not
      an HTTP reply), or it returned a response. */
  datatype Call<T> = Threw(message: string) | Returned(response: Response<T>)

  /** The status the core treats as success. */
  const StatusOk: int := 200

  /** True when the call returned HTTP 200 with a body present. */
  predicate IsOkWithData<T>(call: Call<T>) {
    call.Returned? && call.response.status == StatusOk && call.response.data.Some?
  }
}
