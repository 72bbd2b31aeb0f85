/** `HttpServer`: the fixed responses, service registration keyed by the
    lower-cased path, dispatch of a parsed request to its service, and the
    connection handler's loop that parses the received bytes and picks the
    response.

    A service method is its attribute and an implementation. Reflection is
    replaced by the implementation's variant: it returns a `string`, a
    `byte[]`, or something else. A handler is a function of the request
    body (and of the catalog for a meta service) that returns a value,
    returns null, or throws. */
module HttpServer {
  import opened Basics
  import Numbers
  import Ascii
  import Utf8
  import HttpParser

  /** The first line of a response. */
  function StatusLine(code: string, reason: string): string
  {
    "HTTP/1.1 " + code + " " + reason + "\r\n"
  }

  /** A plain-text error response declaring `length` as its `Content-Length`. */
  function ErrorResponse(code: string, reason: string, length: string, body: string): string
  {
    StatusLine(code, reason) + ("Content-Length: " + length + "\r\n" + "Content-Type: text/plain\r\n" + "\r\n" + body)
  }

  /** The bodies of the error responses and the `Content-Length` each one
      declares. */
  const BadRequestBody: string := "Error 400: Bad Request"
  const BadRequestLengthText: string := "22"
  const NotFoundBody: string := "Error 404: Not Found"
  const NotFoundLengthText: string := "20"
  const InternalErrorBody: string := "Error 500: Internal Server Error"
  const InternalErrorLengthText: string := "32"

  const Ok: string := StatusLine("200", "OK") + "\r\n"
  const BadRequest: string := ErrorResponse("400", "Bad Request", BadRequestLengthText, BadRequestBody)
  const NotFound: string := ErrorResponse("404", "Not Found", NotFoundLengthText, NotFoundBody)
  const InternalError: string := ErrorResponse("500", "Internal Server Error", InternalErrorLengthText, InternalErrorBody)

  /** `Encoding.UTF8.GetBytes` of each response. */
  const OkBytes: seq<byte> := Utf8.Encode(Ok)
  const BadRequestBytes: seq<byte> := Utf8.Encode(BadRequest)
  const NotFoundBytes: seq<byte> := Utf8.Encode(NotFound)
  const InternalErrorBytes: seq<byte> := Utf8.Encode(InternalError)

  /** An ASCII body takes as many bytes as it has characters. */
  lemma {:induction false} AsciiLength(body: string, length: string)
    requires Utf8.IsAscii(body) && Numbers.Decimal(|body|) == length
    ensures Numbers.Decimal(|Utf8.Encode(body)|) == length
  {
    Utf8.EncodeAscii(body);
  }

  /** Each error response declares the true byte length of its body. */
  lemma BadRequestLength()
    ensures Numbers.Decimal(|Utf8.Encode(BadRequestBody)|) == BadRequestLengthText
  {
    assert Numbers.Decimal(22) == "22";
    AsciiLength(BadRequestBody, BadRequestLengthText);
  }

  lemma NotFoundLength()
    ensures Numbers.Decimal(|Utf8.Encode(NotFoundBody)|) == NotFoundLengthText
  {
    assert Numbers.Decimal(20) == "20";
    AsciiLength(NotFoundBody, NotFoundLengthText);
  }

  lemma InternalErrorLength()
    ensures Numbers.Decimal(|Utf8.Encode(InternalErrorBody)|) == InternalErrorLengthText
  {
    assert Numbers.Decimal(32) == "32";
    AsciiLength(InternalErrorBody, InternalErrorLengthText);
  }

  /** The status code of a response that starts `HTTP/1.1 `: the next three
      characters. */
  function StatusCode(response: seq<byte>): Option<string>
  {
    if |response| >= 12 && AsChars(response[..9]) == "HTTP/1.1 " then Some(AsChars(response[9..12])) else None
  }

  /** The status code is read from the status line, whatever follows it. */
  lemma {:induction false} StatusOfText(code: string, reason: string, tail: string, rest: seq<byte>)
    requires |code| == 3 && Utf8.IsAscii(code)
    ensures StatusCode(Utf8.Encode(StatusLine(code, reason) + tail) + rest) == Some(code)
  {
    var head := "HTTP/1.1 " + code;
    assert Utf8.IsAscii(head);
    assert StatusLine(code, reason) + tail == head + (" " + reason + "\r\n" + tail);
    Utf8.EncodeAppend(head, " " + reason + "\r\n" + tail);
    Utf8.EncodeAscii(head);
    var r := Utf8.Encode(StatusLine(code, reason) + tail) + rest;
    assert AsChars(r[..9]) == head[..9] == "HTTP/1.1 ";
    assert AsChars(r[9..12]) == head[9..12] == code;
  }

  lemma OkStatus(rest: seq<byte>)
    ensures StatusCode(OkBytes + rest) == Some("200")
  {
    StatusOfText("200", "OK", "\r\n", rest);
  }

  lemma BadRequestStatus()
    ensures StatusCode(BadRequestBytes) == Some("400")
  {
    StatusOfText("400", "Bad Request",
      "Content-Length: " + BadRequestLengthText + "\r\n" + "Content-Type: text/plain\r\n" + "\r\n" + BadRequestBody, []);
    assert BadRequestBytes + [] == BadRequestBytes;
  }

  lemma NotFoundStatus()
    ensures StatusCode(NotFoundBytes) == Some("404")
  {
    StatusOfText("404", "Not Found",
      "Content-Length: " + NotFoundLengthText + "\r\n" + "Content-Type: text/plain\r\n" + "\r\n" + NotFoundBody, []);
    assert NotFoundBytes + [] == NotFoundBytes;
  }

  lemma InternalErrorStatus()
    ensures StatusCode(InternalErrorBytes) == Some("500")
  {
    StatusOfText("500", "Internal Server Error",
      "Content-Length: " + InternalErrorLengthText + "\r\n" + "Content-Type: text/plain\r\n" + "\r\n" + InternalErrorBody, []);
    assert InternalErrorBytes + [] == InternalErrorBytes;
  }

  // ---------------------------------------------------------------------
  // Services.

  datatype ServiceType = Text | Binary

  /** `[Service(path, type, ..., meta)]`: the route, the kind of result
      (`Text` when only a path is given) and whether the method is also
      handed the catalog of services. */
  datatype ServiceAttribute = ServiceAttribute(path: string, kind: ServiceType, meta: bool)

  /** What calling a handler does: it returns a value or null, or it throws. */
  datatype Invocation<T> = Returned(result: Option<T>) | Threw

  /** What a meta service is given: every registered service by path. */
  type Catalog = map<string, ServiceAttribute>

  /** A reflected method: the attribute it carries, if any, and what it returns. */
  datatype Implementation =
    | ReturnsString(text: (seq<byte>, Option<Catalog>) -> Invocation<string>)
    | ReturnsBytes(binary: (seq<byte>, Option<Catalog>) -> Invocation<seq<byte>>)
    | ReturnsOther

  datatype ServiceMethod = ServiceMethod(attribute: Option<ServiceAttribute>, implementation: Implementation)

  /** The registered method, by its kind. */
  datatype Handler =
    | TextHandler(text: (seq<byte>, Option<Catalog>) -> Invocation<string>)
    | BinaryHandler(binary: (seq<byte>, Option<Catalog>) -> Invocation<seq<byte>>)

  /** `HttpServer.Service`. */
  datatype Service = Service(attribute: ServiceAttribute, path: string, meta: bool, handler: Handler)

  /** `Services.Values` as a meta service sees them. */
  function CatalogOf(services: map<string, Service>): Catalog
  {
    map k | k in services :: services[k].attribute
  }

  /** What the handler did, with a text result in its UTF-8 bytes. */
  function Invoke(s: Service, data: seq<byte>, catalog: Catalog): Invocation<seq<byte>>
  {
    var arg := if s.meta then Some(catalog) else None;
    match s.handler
    case TextHandler(f) =>
      (match f(data, arg)
       case Threw => Threw
       case Returned(None) => Returned(None)
       case Returned(Some(text)) => Returned(Some(Utf8.Encode(text))))
    case BinaryHandler(f) => f(data, arg)
  }

  /** `Service.RunService`. */
  function RunService(s: Service, data: seq<byte>, catalog: Catalog): (response: seq<byte>)
  {
    var arg := if s.meta then Some(catalog) else None;
    match s.handler
    case TextHandler(f) =>
      (match f(data, arg)
       case Threw => InternalErrorBytes
       case Returned(None) => BadRequestBytes
       case Returned(Some(text)) => Utf8.Encode(Ok + text))
    case BinaryHandler(f) =>
      (match f(data, arg)
       case Threw => InternalErrorBytes
       case Returned(None) => BadRequestBytes
       case Returned(Some(binary)) => OkBytes + binary)
  }

  /** What a service sends for what its handler did. */
  predicate Answers(response: seq<byte>, outcome: Invocation<seq<byte>>)
  {
    match outcome
    case Returned(Some(payload)) => StatusCode(response) == Some("200") && response == OkBytes + payload
    case Returned(None) => StatusCode(response) == Some("400") && response == BadRequestBytes
    case Threw => StatusCode(response) == Some("500") && response == InternalErrorBytes
  }

  lemma TextServiceOutcome(s: Service, data: seq<byte>, catalog: Catalog)
    requires s.handler.TextHandler?
    ensures Answers(RunService(s, data, catalog), Invoke(s, data, catalog))
  {
    var arg := if s.meta then Some(catalog) else None;
    match s.handler.text(data, arg)
    case Returned(Some(text)) =>
      Utf8.EncodeAppend(Ok, text);
      OkStatus(Utf8.Encode(text));
    case Returned(None) => BadRequestStatus();
    case Threw => InternalErrorStatus();
  }

  lemma BinaryServiceOutcome(s: Service, data: seq<byte>, catalog: Catalog)
    requires s.handler.BinaryHandler?
    ensures Answers(RunService(s, data, catalog), Invoke(s, data, catalog))
  {
    var arg := if s.meta then Some(catalog) else None;
    match s.handler.binary(data, arg)
    case Returned(Some(binary)) => OkStatus(binary);
    case Returned(None) => BadRequestStatus();
    case Threw => InternalErrorStatus();
  }

  /** A service answers 200 followed by exactly the payload's bytes when its
      handler returns a value, 400 when it returns null and 500 when it
      throws. */
  lemma RunServiceOutcome(s: Service, data: seq<byte>, catalog: Catalog)
    ensures Answers(RunService(s, data, catalog), Invoke(s, data, catalog))
  {
    if s.handler.TextHandler? {
      TextServiceOutcome(s, data, catalog);
    } else {
      BinaryServiceOutcome(s, data, catalog);
    }
  }

  /** `ProcessRequest`: the service under the request's path, else 404. */
  function ProcessRequest(services: map<string, Service>, request: HttpParser.Request): seq<byte>
  {
    if request.path in services then RunService(services[request.path], request.data, CatalogOf(services))
    else NotFoundBytes
  }

  /** The answer is 404 exactly when no service is registered under the path. */
  lemma ProcessRequestStatus(services: map<string, Service>, request: HttpParser.Request)
    ensures StatusCode(ProcessRequest(services, request)) == Some("404") <==> request.path !in services
    ensures request.path in services ==>
      ProcessRequest(services, request) == RunService(services[request.path], request.data, CatalogOf(services))
  {
    NotFoundStatus();
    if request.path in services {
      RunServiceOutcome(services[request.path], request.data, CatalogOf(services));
    }
  }

  // ---------------------------------------------------------------------
  // Registration.

  /** Lines 45-49: a method with the attribute whose return type matches the
      declared kind (`string` for Text, `byte[]` for Binary) becomes a
      service under its lower-cased path. */
  function Accept(m: ServiceMethod): Option<Service>
  {
    match m.attribute
    case None => None
    case Some(a) =>
      match m.implementation
      case ReturnsString(f) => if a.kind == Text then Some(Service(a, Ascii.ToLower(a.path), a.meta, TextHandler(f))) else None
      case ReturnsBytes(f) => if a.kind == Binary then Some(Service(a, Ascii.ToLower(a.path), a.meta, BinaryHandler(f))) else None
      case ReturnsOther => None
  }

  /** The outcome of `AddService`: the paths it registered, or the path on
      which `Services.Add` threw. */
  datatype Registration = Registered(paths: seq<string>) | DuplicatePath(path: string)

  /** `AddService` over the methods in order: the services after it, and its
      outcome. A duplicate path stops it, keeping what was added before. */
  function Register(services: map<string, Service>, methods: seq<ServiceMethod>): (map<string, Service>, Registration)
    decreases |methods|
  {
    if methods == [] then (services, Registered([]))
    else match Accept(methods[0])
      case None => Register(services, methods[1..])
      case Some(s) =>
        if s.path in services then (services, DuplicatePath(s.path))
        else
          var (after, r) := Register(services[s.path := s], methods[1..]);
          (after, if r.Registered? then Registered([s.path] + r.paths) else r)
  }

  /** The services the methods would register, in order. */
  function Accepted(methods: seq<ServiceMethod>): (ss: seq<Service>)
    decreases |methods|
  {
    if methods == [] then []
    else (match Accept(methods[0]) case None => [] case Some(s) => [s]) + Accepted(methods[1..])
  }

  function Paths(ss: seq<Service>): (ps: seq<string>)
    ensures |ps| == |ss| && forall i :: 0 <= i < |ss| ==> ps[i] == ss[i].path
  {
    if ss == [] then [] else [ss[0].path] + Paths(ss[1..])
  }

  function Keys(ss: seq<Service>): set<string>
  {
    set p | p in Paths(ss)
  }

  predicate DistinctPaths(ss: seq<Service>)
  {
    forall i, j :: 0 <= i < j < |ss| ==> ss[i].path != ss[j].path
  }

  /** Every accepted service is keyed by the lower-cased attribute path and
      has a handler of the declared kind. */
  lemma {:induction false} AcceptedShape(methods: seq<ServiceMethod>)
    ensures var ss := Accepted(methods);
      forall i :: 0 <= i < |ss| ==>
        ss[i].path == Ascii.ToLower(ss[i].attribute.path) && Ascii.IsLower(ss[i].path) &&
        (ss[i].attribute.kind == Text <==> ss[i].handler.TextHandler?)
    decreases |methods|
  {
    if methods != [] {
      AcceptedCons(methods);
      AcceptedShape(methods[1..]);
      match Accept(methods[0])
      case None =>
      case Some(s) => Ascii.ToLowerSpec(s.attribute.path);
    }
  }

  /** One step of `Registered`: the first method's service, if any, comes
      first. */
  lemma AcceptedCons(methods: seq<ServiceMethod>)
    requires methods != []
    ensures Accepted(methods) == match Accept(methods[0]) case None => Accepted(methods[1..]) case Some(s) => [s] + Accepted(methods[1..])
  {
    if Accept(methods[0]).None? {
      assert [] + Accepted(methods[1..]) == Accepted(methods[1..]);
    }
  }

  /** The accepted paths are distinct and none is registered already. */
  predicate Fresh(services: map<string, Service>, ss: seq<Service>)
  {
    DistinctPaths(ss) && forall i :: 0 <= i < |ss| ==> ss[i].path !in services
  }

  /** Taking the first service off, and registering it. */
  lemma FreshCons(services: map<string, Service>, s: Service, tail: seq<Service>)
    ensures Fresh(services, [s] + tail) <==> s.path !in services && Fresh(services[s.path := s], tail)
  {
    var ss := [s] + tail;
    assert ss[0] == s;
    assert forall i :: 1 <= i < |ss| ==> ss[i] == tail[i - 1];
    if s.path !in services && Fresh(services[s.path := s], tail) {
      forall i, j | 0 <= i < j < |ss| ensures ss[i].path != ss[j].path {
        assert ss[j] == tail[j - 1];
        if i > 0 { assert ss[i] == tail[i - 1]; }
      }
    }
    if Fresh(services, ss) {
      forall i, j | 0 <= i < j < |tail| ensures tail[i].path != tail[j].path {
        assert ss[i + 1] == tail[i] && ss[j + 1] == tail[j];
      }
      forall j | 0 <= j < |tail| ensures tail[j].path !in services[s.path := s] {
        assert ss[j + 1] == tail[j];
      }
    }
  }

  /** `AddService` succeeds exactly when the accepted paths are distinct and
      none is registered already. */
  lemma {:induction false} RegisterOutcome(services: map<string, Service>, methods: seq<ServiceMethod>)
    ensures Register(services, methods).1.Registered? <==> Fresh(services, Accepted(methods))
    decreases |methods|
  {
    if methods != [] {
      AcceptedCons(methods);
      match Accept(methods[0])
      case None => RegisterOutcome(services, methods[1..]);
      case Some(s) =>
        FreshCons(services, s, Accepted(methods[1..]));
        if s.path !in services {
          RegisterOutcome(services[s.path := s], methods[1..]);
        }
    }
  }

  /** Entries present before `AddService` are never replaced, whatever its
      outcome. */
  lemma {:induction false} RegisterKeeps(services: map<string, Service>, methods: seq<ServiceMethod>)
    ensures var after := Register(services, methods).0;
      services.Keys <= after.Keys && forall k :: k in services ==> after[k] == services[k]
    decreases |methods|
  {
    if methods != [] {
      match Accept(methods[0])
      case None => RegisterKeeps(services, methods[1..]);
      case Some(s) =>
        if s.path !in services {
          RegisterKeeps(services[s.path := s], methods[1..]);
        }
    }
  }

  /** On success `AddService` reports the accepted paths, in order. */
  lemma {:induction false} RegisterPaths(services: map<string, Service>, methods: seq<ServiceMethod>)
    ensures var r := Register(services, methods).1;
      r.Registered? ==> r.paths == Paths(Accepted(methods))
    decreases |methods|
  {
    if methods != [] {
      AcceptedCons(methods);
      match Accept(methods[0])
      case None => RegisterPaths(services, methods[1..]);
      case Some(s) =>
        if s.path !in services {
          RegisterPaths(services[s.path := s], methods[1..]);
          assert Paths([s] + Accepted(methods[1..])) == [s.path] + Paths(Accepted(methods[1..]));
        }
    }
  }

  /** On success `AddService` adds exactly the accepted paths to the table. */
  lemma {:induction false} RegisterKeys(services: map<string, Service>, methods: seq<ServiceMethod>)
    ensures var (after, r) := Register(services, methods);
      r.Registered? ==> after.Keys == services.Keys + Keys(Accepted(methods))
    decreases |methods|
  {
    if methods != [] {
      AcceptedCons(methods);
      var tail := Accepted(methods[1..]);
      match Accept(methods[0])
      case None => RegisterKeys(services, methods[1..]);
      case Some(s) =>
        if s.path !in services {
          RegisterKeys(services[s.path := s], methods[1..]);
          assert Paths([s] + tail) == [s.path] + Paths(tail);
          assert Keys([s] + tail) == {s.path} + Keys(tail);
        }
    }
  }

  /** On success each accepted service is in the table under its path. */
  lemma {:induction false} RegisterTable(services: map<string, Service>, methods: seq<ServiceMethod>)
    ensures var (after, r) := Register(services, methods);
      var ss := Accepted(methods);
      r.Registered? ==> forall i :: 0 <= i < |ss| ==> ss[i].path in after && after[ss[i].path] == ss[i]
    decreases |methods|
  {
    if methods != [] {
      AcceptedCons(methods);
      var tail := Accepted(methods[1..]);
      match Accept(methods[0])
      case None => RegisterTable(services, methods[1..]);
      case Some(s) =>
        if s.path !in services {
          var services' := services[s.path := s];
          RegisterTable(services', methods[1..]);
          RegisterKeeps(services', methods[1..]);
          var ss := [s] + tail;
          assert forall i :: 1 <= i < |ss| ==> ss[i] == tail[i - 1];
        }
    }
  }

  /** A duplicate is a path an accepted method asks for that is already in
      the table when its turn comes. */
  lemma {:induction false} RegisterDuplicate(services: map<string, Service>, methods: seq<ServiceMethod>)
    ensures var (after, r) := Register(services, methods);
      r.DuplicatePath? ==> r.path in Keys(Accepted(methods)) && r.path in after
    decreases |methods|
  {
    if methods != [] {
      AcceptedCons(methods);
      match Accept(methods[0])
      case None => RegisterDuplicate(services, methods[1..]);
      case Some(s) =>
        assert Paths(Accepted(methods))[0] == s.path;
        if s.path !in services {
          assert Paths(Accepted(methods)) == [s.path] + Paths(Accepted(methods[1..]));
          RegisterDuplicate(services[s.path := s], methods[1..]);
        }
    }
  }

  // ---------------------------------------------------------------------
  // Connections.

  /** What the connection handler does: sends a response, or closes the
      connection without one (an exception reached the outer catch). */
  datatype Connection = Sent(response: seq<byte>) | Closed

  /** Lines 239-249: `Invalid` is answered 400; any other state is
      dispatched with whatever the request holds. */
  function Respond(services: map<string, Service>, input: seq<byte>, budget: nat): Connection
  {
    match HttpParser.Received(input, budget)
    case None => Closed
    case Some(p) =>
      if p.state == HttpParser.Invalid then Sent(BadRequestBytes) else Sent(ProcessRequest(services, p.request))
  }

  /** Empty input is dispatched under the empty path, so it is answered 404
      unless a service is registered under `""`. */
  lemma EmptyInput(services: map<string, Service>, budget: nat)
    requires "" !in services
    ensures Respond(services, [], budget) == Sent(NotFoundBytes)
  {
    HttpParser.CutShort([], budget);
    assert HttpParser.Start.request.path == "";
  }

  /** Input that ends, or runs out of time, before the path is complete is
      dispatched under the empty path too. */
  lemma CutShortResponse(services: map<string, Service>, input: seq<byte>, budget: nat)
    requires "" !in services
    ensures var r := HttpParser.Received(input, budget);
      r.Some? && (r.value.state == HttpParser.Method || r.value.state == HttpParser.Path) ==>
        Respond(services, input, budget) == Sent(NotFoundBytes)
  {
    HttpParser.CutShort(input, budget);
  }

  /** A method token other than GET or POST (in any case) is answered with
      the 400 response, whatever follows it. */
  lemma {:induction false} UnknownMethod(services: map<string, Service>, token: seq<byte>, rest: seq<byte>, budget: nat)
    requires 32 !in token && HttpParser.ParseMethod(Ascii.ToUpper(AsChars(token))).None?
    requires budget > |token|
    ensures Respond(services, token + [32] + rest, budget) == Sent(BadRequestBytes)
  {
    var input := token + [32] + rest;
    var k := Min(budget, |input|);
    CutAfterToken(token, rest, k);
    HttpParser.MethodLine(HttpParser.Start, token, rest[..k - |token| - 1]);
  }

  lemma CutAfterToken(token: seq<byte>, rest: seq<byte>, k: nat)
    requires |token| < k <= |token| + 1 + |rest|
    ensures (token + [32] + rest)[..k] == token + ([32] + rest[..k - |token| - 1])
  {
  }

  /** A well-formed request with a known method, read within its time, is
      dispatched on its lower-cased path with its body; a request that
      repeats a header name gets no response at all. */
  lemma {:induction false} WireResponse(services: map<string, Service>, token: seq<byte>, path: seq<byte>,
                                        version: seq<byte>, hs: seq<HttpParser.Header>, body: seq<byte>, budget: nat)
    requires HttpParser.WireOk(token, path, version, hs)
    requires HttpParser.ParseMethod(Ascii.ToUpper(AsChars(token))).Some?
    requires budget >= |HttpParser.Wire(token, path, version, hs, body)|
    ensures var c := Respond(services, HttpParser.Wire(token, path, version, hs, body), budget);
      && (c.Closed? <==> !HttpParser.DistinctNames(hs))
      && (c.Sent? ==>
            var key := Ascii.ToLower(AsChars(path));
            && (StatusCode(c.response) == Some("404") <==> key !in services)
            && (key in services ==> c.response == RunService(services[key], body, CatalogOf(services))))
  {
    var input := HttpParser.Wire(token, path, version, hs, body);
    assert input[..Min(budget, |input|)] == input;
    HttpParser.WireRequest(token, path, version, hs, body);
    var r := HttpParser.Received(input, budget);
    if r.Some? {
      ProcessRequestStatus(services, r.value.request);
    }
  }

  /** Routing ignores case: once `AddService` has registered a service, on
      top of whatever table the earlier calls built, a request path that
      spells the attribute's path in any mix of case reaches that service. */
  lemma {:induction false} RoutingIgnoresCase(services: map<string, Service>, methods: seq<ServiceMethod>,
                                              i: nat, requested: string)
    requires Register(services, methods).1.Registered?
    requires i < |Accepted(methods)|
    requires |requested| == |Accepted(methods)[i].attribute.path|
    requires forall j :: 0 <= j < |requested| ==> Ascii.SameIgnoringCase(requested[j], Accepted(methods)[i].attribute.path[j])
    ensures Ascii.ToLower(requested) in Register(services, methods).0
    ensures Register(services, methods).0[Ascii.ToLower(requested)] == Accepted(methods)[i]
  {
    RegisterTable(services, methods);
    AcceptedShape(methods);
    var s := Accepted(methods)[i];
    Ascii.ToLowerIsCaseInsensitive(requested, s.attribute.path);
  }

  /** The server: its service table. */
  class HttpServer {
    var services: map<string, Service>

    constructor ()
      ensures services == map[]
    {
      services := map[];
    }

    /** `AddService` over the methods of one service type. */
    method AddService(methods: seq<ServiceMethod>) returns (r: Registration)
      modifies this
      ensures (services, r) == Register(old(services), methods)
    {
      var result: seq<string> := [];
      var i := 0;
      assert methods[0..] == methods;
      var whole := Register(services, methods);
      if whole.1.Registered? {
        assert [] + whole.1.paths == whole.1.paths;
      }
      while i < |methods|
        invariant 0 <= i <= |methods|
        invariant Register(old(services), methods) == Prefixed(result, Register(services, methods[i..]))
        decreases |methods| - i
      {
        assert methods[i..][0] == methods[i] && methods[i..][1..] == methods[i + 1..];
        match Accept(methods[i]) {
          case None =>
          case Some(s) =>
            if s.path in services {
              return DuplicatePath(s.path);
            }
            var later := Register(services[s.path := s], methods[i + 1..]).1;
            if later.Registered? {
              assert result + ([s.path] + later.paths) == result + [s.path] + later.paths;
            }
            services := services[s.path := s];
            result := result + [s.path];
        }
        i := i + 1;
      }
      assert methods[i..] == [] && result + [] == result;
      r := Registered(result);
    }

    /** The connection handler from the received bytes on (lines 125-249):
        the parser loop, then the response. */
    method AcceptConnection(input: seq<byte>, budget: nat) returns (c: Connection)
      ensures c == Respond(services, input, budget)
    {
      var n := Min(budget, |input|);
      var request := HttpParser.Defaults;
      var requestHeaderName: string := "";
      var requestData: seq<byte> := [];
      var state := HttpParser.Method;
      var buffer: string := "";
      var last := '\0';
      var i := 0;
      while i < n
        invariant 0 <= i <= n && state != HttpParser.Invalid && request.data == []
        invariant HttpParser.Received(input, budget) ==
          HttpParser.Feed(Some(HttpParser.Parser(state, last, buffer, requestHeaderName, request.(data := requestData))), input[i..n])
        decreases n - i
      {
        var p := HttpParser.Parser(state, last, buffer, requestHeaderName, request.(data := requestData));
        assert input[i..n] == [input[i]] + input[i + 1..n];
        HttpParser.FeedCons(p, input[i], input[i + 1..n]);
        var chr := input[i] as char;
        match state {
          case Method =>
            if chr == ' ' {
              var methodStr := Ascii.ToUpper(buffer);
              match HttpParser.ParseMethod(methodStr) {
                case Some(m) =>
                  request := request.(verb := m);
                  buffer := "";
                  state := HttpParser.Path;
                case None =>
                  state := HttpParser.Invalid;
              }
            } else {
              buffer := buffer + [chr];
            }
          case Path =>
            if chr == ' ' {
              request := request.(path := Ascii.ToLower(buffer));
              buffer := "";
              state := HttpParser.Version;
            } else {
              buffer := buffer + [chr];
            }
          case Version =>
            if chr == '\n' && last == '\r' {
              request := request.(version := Ascii.ToUpper(buffer));
              buffer := "";
              state := HttpParser.HeaderName;
            } else if chr == '\r' {
            } else {
              buffer := buffer + [chr];
            }
          case HeaderName =>
            if chr == ' ' && last == ':' {
              requestHeaderName := buffer;
              if requestHeaderName in request.headers {
                HttpParser.FeedNone(input[i + 1..n]);
                return Closed;
              }
              request := request.(headers := request.headers[requestHeaderName := ""]);
              buffer := "";
              state := HttpParser.HeaderValue;
            } else if chr == ':' {
            } else if chr == '\n' && last == '\r' {
              state := HttpParser.Content;
            } else if chr == '\r' {
            } else {
              buffer := buffer + [chr];
            }
          case HeaderValue =>
            if chr == '\n' && last == '\r' {
              request := request.(headers := request.headers[requestHeaderName := buffer]);
              buffer := "";
              state := HttpParser.HeaderName;
            } else if chr == '\r' {
            } else {
              buffer := buffer + [chr];
            }
          case Content =>
            requestData := requestData + [input[i]];
          case Invalid =>
        }
        assert HttpParser.Transition(p, input[i]) ==
          Some(HttpParser.Parser(state, last, buffer, requestHeaderName, request.(data := requestData)));
        if state == HttpParser.Invalid {
          HttpParser.FeedInvalid(HttpParser.Parser(state, last, buffer, requestHeaderName, request.(data := requestData)), input[i + 1..n]);
          break;
        }
        last := chr;
        i := i + 1;
      }
      request := request.(data := requestData);
      if state == HttpParser.Invalid {
        c := Sent(BadRequestBytes);
      } else {
        c := Sent(ProcessRequest(services, request));
      }
    }
  }

  /** The outcome of `AddService` once the paths before position `i` were
      registered. */
  function Prefixed(done: seq<string>, outcome: (map<string, Service>, Registration)): (map<string, Service>, Registration)
  {
    (outcome.0, if outcome.1.Registered? then Registered(done + outcome.1.paths) else outcome.1)
  }
}
