/** The slice of the HTTP library (hyper) the client relies on: status
    codes and their classes, request methods, the two media types it sends,
    the request it builds, hyper's error, and what one exchange hands back. */
module Hyper {
  import Utf8
  import opened Results

  /** A status code as hyper carries it: an unsigned 16-bit value. */
  newtype StatusCode = n: int | 0 <= n < 0x1_0000

  /** The five classes of section 6 of RFC 7231, by first digit, and no
      class for anything outside 100..599. */
  datatype StatusClass = Informational | Successful | Redirection | ClientError | ServerError | NoClass

  function Class(s: StatusCode): StatusClass {
    if 100 <= s < 200 then Informational
    else if 200 <= s < 300 then Successful
    else if 300 <= s < 400 then Redirection
    else if 400 <= s < 500 then ClientError
    else if 500 <= s < 600 then ServerError
    else NoClass
  }

  /** hyper's `StatusCode::is_success`: the status is in the 2xx class. */
  function IsSuccess(s: StatusCode): (ok: bool)
    ensures ok <==> 200 <= s <= 299
  {
    Class(s) == Successful
  }

  datatype Method = Options | Get | Post | Put | Delete | Head | Trace | Connect | Patch

  /** The values of the Content-Type header the client sets. */
  datatype MediaType = ApplicationJson | ApplicationOctetStream

  function MediaTypeText(m: MediaType): string {
    match m
    case ApplicationJson => "application/json"
    case ApplicationOctetStream => "application/octet-stream"
  }

  /** An outgoing request: method, target URI, the two headers the client
      sets (absent until set) and the body bytes. */
  datatype Request = Request(
    verb: Method,
    uri: string,
    contentType: Option<MediaType>,
    contentLength: Option<nat>,
    body: Utf8.Bytes)

  /** hyper's `Request::new`: no headers and an empty body. */
  function NewRequest(m: Method, uri: string): Request {
    Request(m, uri, None, None, [])
  }

  /** A request is framed when it names its media type and its
      Content-Length is the number of body bytes actually sent. */
  predicate Framed(r: Request) {
    r.contentType.Some? && r.contentLength == Some(|r.body|)
  }

  /** `hyper::Error`: a transport-level failure (connection, I/O, protocol).
      Its inner structure belongs to hyper and is kept as a description. */
  datatype Error = Error(description: string)

  /** What one request comes back with: a transport failure (while waiting
      for the headers or while buffering the body), or a completed response
      whose body has been read in full. */
  datatype Exchange =
    | Failed(error: Error)
    | Completed(status: StatusCode, body: Utf8.Bytes)
}
