/** The agent endpoint: registering a service with the local agent. */
module Agent {
  import opened Results
  import Utf8
  import Hyper
  import Json
  import Payload
  import ConsulClient
  import opened ConsulError

  const RegisterPath: string := "/v1/agent/service/register"

  /** How `register` reads a completed response: any 2xx status is success,
      whatever the body; any other status is a `Consul` error carrying the
      body decoded lossily as UTF-8. */
  function RegisterResponse(status: Hyper.StatusCode, body: Utf8.Bytes): (r: Result<(), Error>)
    ensures r.Ok? <==> 200 <= status <= 299
    ensures r.Err? ==> r.error == Consul(Utf8.DecodeLossy(body))
  {
    if Hyper.IsSuccess(status) then Ok(()) else Err(Consul(Utf8.DecodeLossy(body)))
  }

  /** The result of `register` for one exchange: a transport failure is
      always the `Http` kind with the same cause; only a completed response
      can give success or a `Consul` error. */
  function RegisterOutcome(x: Hyper.Exchange): (r: Result<(), Error>)
    ensures r.Ok? <==> x.Completed? && Hyper.IsSuccess(x.status)
    ensures x.Failed? ==> r == Err(Http(x.error))
    ensures x.Completed? && !Hyper.IsSuccess(x.status) ==> r == Err(Consul(Utf8.DecodeLossy(x.body)))
  {
    match x
    case Failed(e) => Err(FromHyper(e))
    case Completed(status, body) => RegisterResponse(status, body)
  }

  /** `Agent::register`: a PUT of the JSON form of `service` to the
      registration path, then the reading of what the exchange returns.
      The network is the parameter `exchange`; `render` is the JSON
      serializer's text output. */
  method Register(client: ConsulClient.Client, service: Payload.RegisterService,
                  render: Json.Json -> string, exchange: Hyper.Request -> Hyper.Exchange)
    returns (sent: Hyper.Request, r: Result<(), Error>)
    ensures sent.verb == Hyper.Put && sent.uri == client.baseUri + RegisterPath
    ensures sent.contentType == Some(Hyper.ApplicationJson)
    ensures Hyper.MediaTypeText(sent.contentType.value) == "application/json"
    ensures sent.body == Utf8.Encode(render(Payload.EncodeService(service)))
    ensures Hyper.Framed(sent)
    ensures r == RegisterOutcome(exchange(sent))
  {
    sent := ConsulClient.RequestJson(client, Hyper.Put, RegisterPath, Payload.EncodeService(service), render);
    r := RegisterOutcome(exchange(sent));
  }

  /** A failed registration reports the agent's message exactly: a body
      that is the UTF-8 form of a text decodes to that text. */
  lemma RegisterReportsBodyText(status: Hyper.StatusCode, message: string)
    requires !(200 <= status <= 299)
    ensures RegisterResponse(status, Utf8.Encode(message)) == Err(Consul(message))
  {
    Utf8.DecodeEncode(message);
  }
}
