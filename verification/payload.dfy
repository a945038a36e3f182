/** The two records the client sends, `RegisterService` and `Check`, and
    the JSON object members their serialization emits. A field marked
    "skip if none" produces no member when it is absent; every other field
    always produces its member. Members come in declaration order. */
module Payload {
  import opened Results
  import opened Json

  newtype U16 = n: int | 0 <= n < 0x1_0000

  /** A health check attached to a registration. */
  datatype Check = Check(
    ttl: Option<string>,
    interval: string,
    http: Option<string>,
    script: Option<string>,
    deregisterCriticalServiceAfter: string)

  /** The payload of a service registration. */
  datatype RegisterService = RegisterService(
    id: string,
    name: string,
    tags: seq<string>,
    port: U16,
    address: string,
    check: Option<Check>)

  /** The member for an optional text field: none when the field is absent. */
  function OptionalText(name: string, v: Option<string>): seq<Member> {
    match v
    case None => []
    case Some(t) => [Member(name, String(t))]
  }

  function Texts(ss: seq<string>): (js: seq<Json>)
    ensures |js| == |ss|
    ensures forall i :: 0 <= i < |ss| ==> js[i] == String(ss[i])
  {
    if ss == [] then [] else [String(ss[0])] + Texts(ss[1..])
  }

  function CheckMembers(c: Check): seq<Member> {
    OptionalText("ttl", c.ttl)
    + [Member("interval", String(c.interval))]
    + OptionalText("http", c.http)
    + OptionalText("script", c.script)
    + [Member("DeregisterCriticalServiceAfter", String(c.deregisterCriticalServiceAfter))]
  }

  /** The members every registration carries. */
  function RequiredMembers(s: RegisterService): seq<Member> {
    [ Member("ID", String(s.id)),
      Member("Name", String(s.name)),
      Member("Tags", Array(Texts(s.tags))),
      Member("Port", Number(s.port as int)),
      Member("Address", String(s.address)) ]
  }

  function CheckMember(check: Option<Check>): seq<Member> {
    match check
    case None => []
    case Some(c) => [Member("Check", Object(CheckMembers(c)))]
  }

  function ServiceMembers(s: RegisterService): seq<Member> {
    RequiredMembers(s) + CheckMember(s.check)
  }

  function EncodeCheck(c: Check): Json {
    Object(CheckMembers(c))
  }

  function EncodeService(s: RegisterService): Json {
    Object(ServiceMembers(s))
  }

  /** The names of the optional members that are present, in order. */
  function Present(name: string, v: Option<string>): seq<string> {
    if v.Some? then [name] else []
  }

  /** The names of the encoded Check, in declaration order, skipping the
      absent optional fields. */
  function CheckNameList(c: Check): seq<string> {
    Present("ttl", c.ttl) + ["interval"] + Present("http", c.http)
      + Present("script", c.script) + ["DeregisterCriticalServiceAfter"]
  }

  lemma CheckNamesInOrder(c: Check)
    ensures Names(CheckMembers(c)) == CheckNameList(c)
  {
    var t := OptionalText("ttl", c.ttl);
    var i := [Member("interval", String(c.interval))];
    var h := OptionalText("http", c.http);
    var sc := OptionalText("script", c.script);
    var d := [Member("DeregisterCriticalServiceAfter", String(c.deregisterCriticalServiceAfter))];
    NamesAppend(t, i);
    NamesAppend(t + i, h);
    NamesAppend(t + i + h, sc);
    NamesAppend(t + i + h + sc, d);
  }

  /** The encoded Check carries `ttl`, `http` and `script` exactly when
      those fields are present, always carries `interval` and
      `DeregisterCriticalServiceAfter`, and names no member twice. */
  lemma CheckNames(c: Check)
    ensures "ttl" in Names(CheckMembers(c)) <==> c.ttl.Some?
    ensures "http" in Names(CheckMembers(c)) <==> c.http.Some?
    ensures "script" in Names(CheckMembers(c)) <==> c.script.Some?
    ensures "interval" in Names(CheckMembers(c))
    ensures "DeregisterCriticalServiceAfter" in Names(CheckMembers(c))
    ensures UniqueNames(CheckMembers(c))
  {
    CheckNamesInOrder(c);
    CheckNameListDistinct(c);
  }

  lemma CheckNameListDistinct(c: Check)
    ensures forall i, j :: 0 <= i < j < |CheckNameList(c)| ==> CheckNameList(c)[i] != CheckNameList(c)[j]
  {
    var ns := CheckNameList(c);
    var tail := ["DeregisterCriticalServiceAfter"];
    match (c.ttl, c.http, c.script)
    case (None, None, None) => assert ns == ["interval"] + tail;
    case (None, None, Some(_)) => assert ns == ["interval", "script"] + tail;
    case (None, Some(_), None) => assert ns == ["interval", "http"] + tail;
    case (None, Some(_), Some(_)) => assert ns == ["interval", "http", "script"] + tail;
    case (Some(_), None, None) => assert ns == ["ttl", "interval"] + tail;
    case (Some(_), None, Some(_)) => assert ns == ["ttl", "interval", "script"] + tail;
    case (Some(_), Some(_), None) => assert ns == ["ttl", "interval", "http"] + tail;
    case (Some(_), Some(_), Some(_)) => assert ns == ["ttl", "interval", "http", "script"] + tail;
  }

  /** The encoded RegisterService carries a `Check` member exactly when
      its check is present; `ID`, `Name`, `Tags`, `Port` and `Address` are
      always there; no member is named twice. */
  lemma ServiceNames(s: RegisterService)
    ensures Names(ServiceMembers(s)) ==
      ["ID", "Name", "Tags", "Port", "Address"] + (if s.check.Some? then ["Check"] else [])
    ensures "Check" in Names(ServiceMembers(s)) <==> s.check.Some?
    ensures forall n :: n in ["ID", "Name", "Tags", "Port", "Address"] ==> n in Names(ServiceMembers(s))
    ensures UniqueNames(ServiceMembers(s))
  {
    var req, opt := RequiredMembers(s), CheckMember(s.check);
    NamesAppend(req, opt);
    var ns := Names(req + opt);
    assert Names(req) == ["ID", "Name", "Tags", "Port", "Address"];
    if s.check.Some? {
      assert Names(opt) == ["Check"];
      assert ns == ["ID", "Name", "Tags", "Port", "Address", "Check"];
    } else {
      assert Names(opt) == [];
      assert ns == ["ID", "Name", "Tags", "Port", "Address"];
    }
    assert forall i, j :: 0 <= i < j < |ns| ==> ns[i] != ns[j];
  }

  predicate NoNull(ms: seq<Member>) {
    forall i :: 0 <= i < |ms| ==> ms[i].value != Null
  }

  lemma NoNullAppend(a: seq<Member>, b: seq<Member>)
    requires NoNull(a) && NoNull(b)
    ensures NoNull(a + b)
  {
    forall i | 0 <= i < |a + b| ensures (a + b)[i].value != Null {
      if i < |a| { assert (a + b)[i] == a[i]; } else { assert (a + b)[i] == b[i - |a|]; }
    }
  }

  /** The encoding never emits `null`: an absent field is left out, not
      written as a null member. */
  lemma NoNullMembers(s: RegisterService)
    ensures NoNull(ServiceMembers(s))
    ensures s.check.Some? ==> NoNull(CheckMembers(s.check.value))
  {
    if s.check.Some? {
      var c := s.check.value;
      var t := OptionalText("ttl", c.ttl);
      var i := [Member("interval", String(c.interval))];
      var h := OptionalText("http", c.http);
      var sc := OptionalText("script", c.script);
      var d := [Member("DeregisterCriticalServiceAfter", String(c.deregisterCriticalServiceAfter))];
      NoNullAppend(t, i);
      NoNullAppend(t + i, h);
      NoNullAppend(t + i + h, sc);
      NoNullAppend(t + i + h + sc, d);
    }
    NoNullAppend(RequiredMembers(s), CheckMember(s.check));
  }

  /** Reading an optional text member the way the derived deserializer
      reads an `Option` field: missing or null is `None`, a string is
      `Some`, anything else is malformed (the outer `None`). */
  function ReadOptionalText(ms: seq<Member>, name: string): Option<Option<string>> {
    match Lookup(ms, name)
    case None => Some(None)
    case Some(Null) => Some(None)
    case Some(String(t)) => Some(Some(t))
    case Some(_) => None
  }

  /** Reading a required text member: missing or of another type is malformed. */
  function ReadText(ms: seq<Member>, name: string): Option<string> {
    match Lookup(ms, name)
    case Some(String(t)) => Some(t)
    case _ => None
  }

  function ReadTexts(js: seq<Json>): (r: Option<seq<string>>)
    ensures r.Some? ==> |r.value| == |js|
  {
    if js == [] then Some([])
    else match (js[0], ReadTexts(js[1..]))
      case (String(t), Some(rest)) => Some([t] + rest)
      case _ => None
  }

  function ReadPort(ms: seq<Member>): Option<U16> {
    match Lookup(ms, "Port")
    case Some(Number(n)) => if 0 <= n < 0x1_0000 then Some(n as U16) else None
    case _ => None
  }

  /** The reading of a Check object that its encoding is meant for. */
  function DecodeCheck(j: Json): Option<Check> {
    if !j.Object? then None
    else
      var ms := j.members;
      match (ReadOptionalText(ms, "ttl"), ReadText(ms, "interval"), ReadOptionalText(ms, "http"),
             ReadOptionalText(ms, "script"), ReadText(ms, "DeregisterCriticalServiceAfter"))
      case (Some(ttl), Some(interval), Some(http), Some(script), Some(deregister)) =>
        Some(Check(ttl, interval, http, script, deregister))
      case _ => None
  }

  function ReadTags(ms: seq<Member>): Option<seq<string>> {
    match Lookup(ms, "Tags")
    case Some(Array(items)) => ReadTexts(items)
    case _ => None
  }

  /** A missing or null `Check` member reads as no check. */
  function ReadCheck(ms: seq<Member>): Option<Option<Check>> {
    match Lookup(ms, "Check")
    case None => Some(None)
    case Some(Null) => Some(None)
    case Some(cj) => match DecodeCheck(cj) case Some(c) => Some(Some(c)) case None => None
  }

  /** The reading of a RegisterService object that its encoding is meant for. */
  function DecodeService(j: Json): Option<RegisterService> {
    if !j.Object? then None
    else
      var ms := j.members;
      match (ReadText(ms, "ID"), ReadText(ms, "Name"), ReadTags(ms), ReadPort(ms), ReadText(ms, "Address"), ReadCheck(ms))
      case (Some(id), Some(name), Some(tags), Some(port), Some(address), Some(check)) =>
        Some(RegisterService(id, name, tags, port, address, check))
      case _ => None
  }

  lemma {:induction false} ReadTextsOfTexts(ss: seq<string>)
    ensures ReadTexts(Texts(ss)) == Some(ss)
  {
    if ss != [] {
      var js := Texts(ss);
      assert js[0] == String(ss[0]);
      assert js[1..] == Texts(ss[1..]);
      ReadTextsOfTexts(ss[1..]);
      assert [ss[0]] + ss[1..] == ss;
    }
  }

  /** Each optional Check field is found under its name exactly when present. */
  lemma CheckLookups(c: Check)
    ensures Lookup(CheckMembers(c), "ttl") == if c.ttl.Some? then Some(String(c.ttl.value)) else None
    ensures Lookup(CheckMembers(c), "http") == if c.http.Some? then Some(String(c.http.value)) else None
    ensures Lookup(CheckMembers(c), "script") == if c.script.Some? then Some(String(c.script.value)) else None
    ensures Lookup(CheckMembers(c), "interval") == Some(String(c.interval))
    ensures Lookup(CheckMembers(c), "DeregisterCriticalServiceAfter") == Some(String(c.deregisterCriticalServiceAfter))
  {
    var ms := CheckMembers(c);
    CheckNames(c);
    LookupUnique(ms, Member("interval", String(c.interval)));
    LookupUnique(ms, Member("DeregisterCriticalServiceAfter", String(c.deregisterCriticalServiceAfter)));
    OptionalLookup(ms, "ttl", c.ttl);
    OptionalLookup(ms, "http", c.http);
    OptionalLookup(ms, "script", c.script);
  }

  /** The lookup of an optional field's name in members with unique names
      that carry its member exactly when the field is present. */
  lemma OptionalLookup(ms: seq<Member>, name: string, v: Option<string>)
    requires UniqueNames(ms)
    requires name in Names(ms) <==> v.Some?
    requires v.Some? ==> Member(name, String(v.value)) in ms
    ensures Lookup(ms, name) == if v.Some? then Some(String(v.value)) else None
  {
    if v.Some? {
      LookupUnique(ms, Member(name, String(v.value)));
    } else {
      LookupFinds(ms, name);
    }
  }

  /** Omitting absent fields loses nothing: the encoded Check reads back as itself. */
  lemma DecodeEncodeCheck(c: Check)
    ensures DecodeCheck(EncodeCheck(c)) == Some(c)
  {
    var ms := CheckMembers(c);
    CheckLookups(c);
    assert ReadOptionalText(ms, "ttl") == Some(c.ttl);
    assert ReadOptionalText(ms, "http") == Some(c.http);
    assert ReadOptionalText(ms, "script") == Some(c.script);
    assert ReadText(ms, "interval") == Some(c.interval);
    assert ReadText(ms, "DeregisterCriticalServiceAfter") == Some(c.deregisterCriticalServiceAfter);
  }

  lemma ServiceLookups(s: RegisterService)
    ensures ReadText(ServiceMembers(s), "ID") == Some(s.id)
    ensures ReadText(ServiceMembers(s), "Name") == Some(s.name)
    ensures ReadTags(ServiceMembers(s)) == Some(s.tags)
    ensures ReadPort(ServiceMembers(s)) == Some(s.port)
    ensures ReadText(ServiceMembers(s), "Address") == Some(s.address)
  {
    var req := RequiredMembers(s);
    var opt := CheckMember(s.check);
    ReadTextsOfTexts(s.tags);
    assert UniqueNames(req);
    forall k | 0 <= k < 5
      ensures Lookup(req + opt, req[k].name) == Some(req[k].value)
    {
      LookupAppend(req, opt, req[k].name);
      assert Names(req)[k] == req[k].name;
      LookupUnique(req, req[k]);
    }
    assert req[0].name == "ID" && req[1].name == "Name" && req[2].name == "Tags";
    assert req[3].name == "Port" && req[4].name == "Address";
  }

  lemma ServiceCheckLookup(s: RegisterService)
    ensures ReadCheck(ServiceMembers(s)) == Some(s.check)
  {
    var ms := ServiceMembers(s);
    ServiceNames(s);
    if s.check.Some? {
      LookupUnique(ms, ms[5]);
      DecodeEncodeCheck(s.check.value);
    } else {
      LookupFinds(ms, "Check");
    }
  }

  /** The encoded RegisterService reads back as itself, check included. */
  lemma DecodeEncodeService(s: RegisterService)
    ensures DecodeService(EncodeService(s)) == Some(s)
  {
    ServiceLookups(s);
    ServiceCheckLookup(s);
  }
}
