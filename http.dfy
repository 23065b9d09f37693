/**
 * The shape of an HTTP reply as the handlers and middleware write it: a status,
 * the response headers and a body. The body is either text or a structured
 * payload standing for the handler's JSON bytes (JSON encoding is not modelled).
 */
module Http {

  type Headers = map<string, string>

  const StatusOK: int := 200
  const StatusFound: int := 302
  const StatusBadRequest: int := 400
  const StatusForbidden: int := 403
  const StatusNotFound: int := 404
  const StatusInternalServerError: int := 500

  const TextPlain: string := "text/plain; charset=utf-8"
  const ApplicationJson: string := "application/json"

  datatype Body<+T> = Text(text: string) | Payload(value: T) | NoBody

  datatype Reply<+T> = Reply(status: int, headers: Headers, body: Body<T>)

  /**
   * net/http's Error: plain-text content type, nosniff, the given status and
   * the message followed by a newline; headers already set are kept.
   */
  function Error<T>(h: Headers, msg: string, code: int): (r: Reply<T>)
    ensures r.status == code && r.body == Text(msg + "\n")
    ensures r.headers.Keys == h.Keys + {"Content-Type", "X-Content-Type-Options"}
    ensures r.headers["Content-Type"] == TextPlain && r.headers["X-Content-Type-Options"] == "nosniff"
    ensures forall k :: k in h && k != "Content-Type" && k != "X-Content-Type-Options" ==> r.headers[k] == h[k]
  {
    Reply(code, h["Content-Type" := TextPlain]["X-Content-Type-Options" := "nosniff"], Text(msg + "\n"))
  }

  /** A 200 reply with a JSON content type carrying the payload. */
  function Json<T>(h: Headers, value: T): (r: Reply<T>)
    ensures r.status == StatusOK && r.body == Payload(value)
    ensures r.headers.Keys == h.Keys + {"Content-Type"} && r.headers["Content-Type"] == ApplicationJson
    ensures forall k :: k in h && k != "Content-Type" ==> r.headers[k] == h[k]
  {
    Reply(StatusOK, h["Content-Type" := ApplicationJson], Payload(value))
  }

  /** net/http's Redirect with status 302 to an absolute URL: a Location header and no payload. */
  function Redirect<T>(h: Headers, url: string): (r: Reply<T>)
    ensures r.status == StatusFound && r.headers.Keys == h.Keys + {"Location"} && r.headers["Location"] == url
    ensures forall k :: k in h && k != "Location" ==> r.headers[k] == h[k]
  {
    Reply(StatusFound, h["Location" := url], NoBody)
  }
}
