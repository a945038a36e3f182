/** The key-value endpoint: writing raw bytes at a key path. */
module KV {
  import opened Results
  import Utf8
  import Hyper
  import ConsulClient
  import opened ConsulError

  const KeyPrefix: string := "/v1/kv/"

  /** The body bytes `true\n`, the agent's report that the write took place. */
  const TrueBody: Utf8.Bytes := [0x74, 0x72, 0x75, 0x65, 0x0A]

  /** The body bytes `false\n`, the agent's report that it did not. */
  const FalseBody: Utf8.Bytes := [0x66, 0x61, 0x6C, 0x73, 0x65, 0x0A]

  /** The request path for `path`: the prefix, then `path` with no escaping. */
  method KeyPath(path: string) returns (uri: string)
    ensures |uri| == |KeyPrefix| + |path|
    ensures uri[..|KeyPrefix|] == KeyPrefix && uri[|KeyPrefix|..] == path
  {
    uri := "/v1/kv/";
    uri := uri + path;
  }

  /** How `put` reads a completed response: with a 2xx status the body
      `true\n` is `true` and `false\n` is `false`; every other body, and
      every other status whatever the body, is a `Consul` error carrying the
      body decoded lossily as UTF-8. */
  function PutResponse(status: Hyper.StatusCode, body: Utf8.Bytes): (r: Result<bool, Error>)
    ensures r == Ok(true) <==> 200 <= status <= 299 && body == TrueBody
    ensures r == Ok(false) <==> 200 <= status <= 299 && body == FalseBody
    ensures r.Err? ==> r.error == Consul(Utf8.DecodeLossy(body))
  {
    if Hyper.IsSuccess(status) && body == TrueBody then Ok(true)
    else if Hyper.IsSuccess(status) && body == FalseBody then Ok(false)
    else Err(Consul(Utf8.DecodeLossy(body)))
  }

  /** The result of `put` for one exchange: a transport failure is always
      the `Http` kind with the same cause; only a completed response can
      give a value or a `Consul` error. */
  function PutOutcome(x: Hyper.Exchange): (r: Result<bool, Error>)
    ensures r.Ok? <==> x.Completed? && Hyper.IsSuccess(x.status) && (x.body == TrueBody || x.body == FalseBody)
    ensures r.Ok? ==> r.value == (x.body == TrueBody)
    ensures x.Failed? ==> r == Err(Http(x.error))
    ensures x.Completed? && r.Err? ==> r == Err(Consul(Utf8.DecodeLossy(x.body)))
  {
    match x
    case Failed(e) => Err(FromHyper(e))
    case Completed(status, body) => PutResponse(status, body)
  }

  /** `KV::put`: a PUT of the raw `data`, typed as an octet stream, to the
      key path of `path`, then the reading of what the exchange returns.
      The network is the parameter `exchange`. */
  method Put(client: ConsulClient.Client, path: string, data: Utf8.Bytes,
             exchange: Hyper.Request -> Hyper.Exchange)
    returns (sent: Hyper.Request, r: Result<bool, Error>)
    ensures sent.verb == Hyper.Put && sent.uri == client.baseUri + KeyPrefix + path
    ensures sent.contentType == Some(Hyper.ApplicationOctetStream) && sent.body == data
    ensures Hyper.MediaTypeText(sent.contentType.value) == "application/octet-stream"
    ensures Hyper.Framed(sent)
    ensures r == PutOutcome(exchange(sent))
  {
    var uri := KeyPath(path);
    assert uri == KeyPrefix + path;
    sent := ConsulClient.Request(client, Hyper.Put, uri, Hyper.ApplicationOctetStream, data);
    r := PutOutcome(exchange(sent));
  }

  /** The two expected bodies are the UTF-8 forms of the texts "true\n"
      and "false\n", and they differ. */
  lemma ExpectedBodies()
    ensures TrueBody == Utf8.Encode("true\n") && FalseBody == Utf8.Encode("false\n")
    ensures TrueBody != FalseBody
  {
    Utf8.EncodeAscii("true\n");
    Utf8.EncodeAscii("false\n");
    assert |TrueBody| != |FalseBody|;
  }

  /** With a 2xx status, a body that is the UTF-8 form of a text is read as
      `true` exactly for "true\n", as `false` exactly for "false\n", and as a
      `Consul` error carrying the text itself for anything else. */
  lemma PutOfText(status: Hyper.StatusCode, text: string)
    requires 200 <= status <= 299
    ensures PutResponse(status, Utf8.Encode(text)) ==
      if text == "true\n" then Ok(true)
      else if text == "false\n" then Ok(false)
      else Err(Consul(text))
  {
    ExpectedBodies();
    Utf8.DecodeEncode(text);
    Utf8.DecodeEncode("true\n");
    Utf8.DecodeEncode("false\n");
  }

  /** A status outside 2xx is an error even when the body is `true\n`. */
  lemma PutRejectsNonSuccess(status: Hyper.StatusCode)
    requires !(200 <= status <= 299)
    ensures PutResponse(status, TrueBody) == Err(Consul("true\n"))
    ensures PutResponse(status, FalseBody) == Err(Consul("false\n"))
  {
    ExpectedBodies();
    Utf8.DecodeEncode("true\n");
    Utf8.DecodeEncode("false\n");
  }
}
