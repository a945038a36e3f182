/** The transport wrapper: a client bound to a base URI that builds one
    request per call. */
module ConsulClient {
  import opened Results
  import Utf8
  import Hyper
  import Json

  /** A client: the base URI it was built from. The shared connection pool
      of the HTTP library is not part of the model. */
  datatype Client = Client(baseUri: string)

  /** The parse failure `Client::new` reports. */
  datatype UriError = InvalidUri

  /** `Client::new`: succeeds exactly when the URI parser accepts `url`, and
      the client then keeps `url` as its base. The parser belongs to the HTTP
      library and is a parameter here. */
  function New(url: string, parses: string -> bool): (r: Result<Client, UriError>)
    ensures r.Ok? <==> parses(url)
    ensures r.Ok? ==> r.value.baseUri == url
  {
    if parses(url) then Ok(Client(url)) else Err(InvalidUri)
  }

  /** `Client::request`: the target is the base URI followed by `path`,
      unchanged; the request carries the given media type, and a
      Content-Length equal to the number of body bytes it sends. */
  method Request(client: Client, verb: Hyper.Method, path: string, mediaType: Hyper.MediaType, body: Utf8.Bytes)
    returns (req: Hyper.Request)
    ensures req.verb == verb && req.uri == client.baseUri + path
    ensures req.contentType == Some(mediaType) && req.body == body
    ensures Hyper.Framed(req)
  {
    var uri := client.baseUri + path;
    req := Hyper.NewRequest(verb, uri);
    req := req.(contentType := Some(mediaType));
    req := req.(contentLength := Some(|body|));
    req := req.(body := body);
  }

  /** `Client::request_json`: `value` is rendered to JSON text by `render`
      (the serializer's text output), and the request carries that text's
      UTF-8 bytes, typed as JSON, with a Content-Length equal to their
      number: bytes, not characters. */
  method RequestJson(client: Client, verb: Hyper.Method, path: string, value: Json.Json, render: Json.Json -> string)
    returns (req: Hyper.Request)
    ensures req.verb == verb && req.uri == client.baseUri + path
    ensures req.contentType == Some(Hyper.ApplicationJson)
    ensures req.body == Utf8.Encode(render(value))
    ensures Hyper.Framed(req)
  {
    var json := render(value);
    var uri := client.baseUri + path;
    req := Hyper.NewRequest(verb, uri);
    req := req.(contentType := Some(Hyper.ApplicationJson));
    req := req.(contentLength := Some(|Utf8.Encode(json)|));
    req := req.(body := Utf8.Encode(json));
  }
}
