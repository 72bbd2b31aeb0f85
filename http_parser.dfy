/** The request parser of `HttpServer.AcceptConnection`: a state machine
    that reads the received bytes one at a time, each byte taken as the
    character with the same code.

    `Step` is one turn of the loop body, `Feed` the loop over a whole input
    (it stops at the first byte after the state becomes `Invalid`, and
    `None` stands for the exception `Headers.Add` throws on a repeated
    header name). */
module HttpParser {
  import opened Basics
  import Ascii

  datatype ReceiveState = Method | Path | Version | HeaderName | HeaderValue | Content | Invalid

  datatype HttpMethod = GET | POST

  /** `HttpRequest`; `data` is the `requestData` list, which becomes
      `request.Data` once the loop ends. */
  datatype Request = Request(verb: HttpMethod, path: string, version: string,
                             headers: map<string, string>, data: seq<byte>)

  /** A fresh `HttpRequest`: GET, empty path and version, no headers, no data. */
  const Defaults := Request(GET, "", "", map[], [])

  /** The loop's variables: `state`, `last`, `buffer`, `requestHeaderName`
      and the request being filled in. */
  datatype Parser = Parser(state: ReceiveState, last: char, buffer: string, headerName: string, request: Request)

  const Start := Parser(Method, '\0', "", "", Defaults)

  /** `Enum.TryParse` of the upper-cased method token. */
  function ParseMethod(token: string): Option<HttpMethod>
  {
    if token == "GET" then Some(GET) else if token == "POST" then Some(POST) else None
  }

  /** The `switch (state)` of the loop body on byte `b`. */
  function Transition(p: Parser, b: byte): Option<Parser>
  {
    var c := b as char;
    match p.state
    case Method =>
      if c == ' ' then
        match ParseMethod(Ascii.ToUpper(p.buffer))
        case Some(m) => Some(p.(state := Path, buffer := "", request := p.request.(verb := m)))
        case None => Some(p.(state := Invalid))
      else Some(p.(buffer := p.buffer + [c]))
    case Path =>
      if c == ' ' then Some(p.(state := Version, buffer := "", request := p.request.(path := Ascii.ToLower(p.buffer))))
      else Some(p.(buffer := p.buffer + [c]))
    case Version =>
      if c == '\n' && p.last == '\r' then
        Some(p.(state := HeaderName, buffer := "", request := p.request.(version := Ascii.ToUpper(p.buffer))))
      else if c == '\r' then Some(p)
      else Some(p.(buffer := p.buffer + [c]))
    case HeaderName =>
      if c == ' ' && p.last == ':' then
        if p.buffer in p.request.headers then None
        else Some(p.(state := HeaderValue, headerName := p.buffer, buffer := "",
                     request := p.request.(headers := p.request.headers[p.buffer := ""])))
      else if c == ':' then Some(p)
      else if c == '\n' && p.last == '\r' then Some(p.(state := Content))
      else if c == '\r' then Some(p)
      else Some(p.(buffer := p.buffer + [c]))
    case HeaderValue =>
      if c == '\n' && p.last == '\r' then
        Some(p.(state := HeaderName, buffer := "", request := p.request.(headers := p.request.headers[p.headerName := p.buffer])))
      else if c == '\r' then Some(p)
      else Some(p.(buffer := p.buffer + [c]))
    case Content => Some(p.(request := p.request.(data := p.request.data + [b])))
    case Invalid => Some(p)
  }

  /** One turn of the loop: the switch, then `last` is set to the byte unless
      the state has become `Invalid` (the loop breaks before that). */
  function Step(p: Parser, b: byte): Option<Parser>
  {
    match Transition(p, b)
    case None => None
    case Some(q) => if q.state == Invalid then Some(q) else Some(q.(last := b as char))
  }

  /** The loop over `input`; it ends early when the state is `Invalid` or an
      exception was thrown. */
  function Feed(p: Option<Parser>, input: seq<byte>): Option<Parser>
    decreases |input|
  {
    if input == [] then p
    else match p
      case None => None
      case Some(q) => if q.state == Invalid then p else Feed(Step(q, input[0]), input[1..])
  }

  /** The parse of the received bytes, when the connection's time allows
      `budget` turns of the loop. */
  function Received(input: seq<byte>, budget: nat): Option<Parser>
  {
    Feed(Some(Start), input[..Min(budget, |input|)])
  }

  lemma {:induction false} FeedAppend(p: Option<Parser>, a: seq<byte>, b: seq<byte>)
    ensures Feed(p, a + b) == Feed(Feed(p, a), b)
    decreases |a|
  {
    if a == [] {
      assert a + b == b;
    } else if p.Some? && p.value.state != Invalid {
      assert (a + b)[0] == a[0] && (a + b)[1..] == a[1..] + b;
      FeedAppend(Step(p.value, a[0]), a[1..], b);
    } else if p.None? {
      assert Feed(p, a + b) == None;
    }
  }

  // ---------------------------------------------------------------------
  // What the parser keeps: normalised fields, and the defaults until a
  // field is reached.

  /** The facts the loop keeps about its variables. */
  predicate Normal(p: Parser)
  {
    var r := p.request;
    && Ascii.IsLower(r.path)
    && Ascii.IsUpper(r.version) && '\r' !in r.version
    && (forall k :: k in r.headers ==> ':' !in k && '\r' !in k && '\r' !in r.headers[k])
    && (p.state == Version || p.state == HeaderValue ==> '\r' !in p.buffer)
    && (p.state == HeaderName ==> ':' !in p.buffer && '\r' !in p.buffer)
    && (p.state == HeaderValue ==> ':' !in p.headerName && '\r' !in p.headerName)
    && (p.state != Content ==> r.data == [])
    && (p.state == Method || p.state == Path || p.state == Invalid ==> r.path == "" && r.version == "" && r.headers == map[])
    && (p.state == Version ==> r.version == "" && r.headers == map[])
  }

  lemma StepNormal(p: Parser, b: byte)
    requires Normal(p) && p.state != Invalid
    ensures Step(p, b).Some? ==> Normal(Step(p, b).value)
  {
    match p.state
    case Method =>
    case Path => Ascii.ToLowerSpec(p.buffer);
    case Version => Ascii.ToUpperSpec(p.buffer);
    case HeaderName => StepNormalHeaders(p, b);
    case HeaderValue => StepNormalHeaders(p, b);
    case Content =>
  }

  lemma StepNormalHeaders(p: Parser, b: byte)
    requires Normal(p) && (p.state == HeaderName || p.state == HeaderValue)
    ensures Step(p, b).Some? ==> Normal(Step(p, b).value)
  {
    var c := b as char;
    if p.state == HeaderName && c == ' ' && p.last == ':' && p.buffer !in p.request.headers {
      var q := Step(p, b).value;
      assert q.request.headers == p.request.headers[p.buffer := ""];
    }
  }

  /** Every state the loop reaches keeps `Normal`: the path holds no
      upper-case letter, the version no lower-case letter and no CR, header
      names hold neither `:` nor CR, header values no CR, there is data only
      in `Content`, and the fields not yet reached keep their defaults. */
  lemma {:induction false} FeedNormal(p: Option<Parser>, input: seq<byte>)
    requires p.Some? ==> Normal(p.value)
    ensures Feed(p, input).Some? ==> Normal(Feed(p, input).value)
    decreases |input|
  {
    if input != [] && p.Some? && p.value.state != Invalid {
      StepNormal(p.value, input[0]);
      FeedNormal(Step(p.value, input[0]), input[1..]);
    }
  }

  /** What any received input leaves in its parse. */
  lemma ReceivedNormal(input: seq<byte>, budget: nat)
    ensures Received(input, budget).Some? ==> Normal(Received(input, budget).value)
  {
    FeedNormal(Some(Start), input[..Min(budget, |input|)]);
  }

  // ---------------------------------------------------------------------
  // Single turns of the loop.

  lemma FeedCons(p: Parser, b: byte, rest: seq<byte>)
    requires p.state != Invalid
    ensures Feed(Some(p), [b] + rest) == Feed(Step(p, b), rest)
  {
    assert ([b] + rest)[0] == b && ([b] + rest)[1..] == rest;
  }

  lemma FeedNone(input: seq<byte>)
    ensures Feed(None, input) == None
  {
  }

  lemma FeedInvalid(p: Parser, input: seq<byte>)
    requires p.state == Invalid
    ensures Feed(Some(p), input) == Some(p)
  {
  }

  /** A space in `Method` looks the upper-cased token up. */
  lemma MethodSpace(p: Parser)
    requires p.state == Method
    ensures Step(p, 32) == match ParseMethod(Ascii.ToUpper(p.buffer))
      case Some(m) => Some(p.(state := Path, buffer := "", last := ' ', request := p.request.(verb := m)))
      case None => Some(p.(state := Invalid))
  {
    assert (32 as byte) as char == ' ';
  }

  /** A space in `Path` stores the lower-cased path. */
  lemma PathSpace(p: Parser)
    requires p.state == Path
    ensures Step(p, 32) == Some(p.(state := Version, buffer := "", last := ' ', request := p.request.(path := Ascii.ToLower(p.buffer))))
  {
    assert (32 as byte) as char == ' ';
  }

  /** A CRLF in `Version` stores the upper-cased version. */
  lemma VersionEnd(p: Parser, rest: seq<byte>)
    requires p.state == Version
    ensures Feed(Some(p), [13, 10] + rest) ==
      Feed(Some(p.(state := HeaderName, buffer := "", last := '\n', request := p.request.(version := Ascii.ToUpper(p.buffer)))), rest)
  {
    assert (13 as byte) as char == '\r' && (10 as byte) as char == '\n';
    var q := p.(last := '\r');
    assert Step(p, 13) == Some(q);
    FeedCons(p, 13, [10] + rest);
    assert [13, 10] + rest == [13] + ([10] + rest);
    FeedCons(q, 10, rest);
  }

  /** `: ` in `HeaderName` adds the gathered name with an empty value, or
      throws when the name is already present. */
  lemma NameEnd(p: Parser, rest: seq<byte>)
    requires p.state == HeaderName
    ensures Feed(Some(p), [58, 32] + rest) ==
      if p.buffer in p.request.headers then None
      else Feed(Some(p.(state := HeaderValue, headerName := p.buffer, buffer := "", last := ' ',
                         request := p.request.(headers := p.request.headers[p.buffer := ""]))), rest)
  {
    assert (58 as byte) as char == ':' && (32 as byte) as char == ' ';
    var q := p.(last := ':');
    assert Step(p, 58) == Some(q);
    FeedCons(p, 58, [32] + rest);
    assert [58, 32] + rest == [58] + ([32] + rest);
    FeedCons(q, 32, rest);
  }

  /** A CRLF in `HeaderValue` stores the value under the most recent name. */
  lemma ValueEnd(p: Parser, rest: seq<byte>)
    requires p.state == HeaderValue
    ensures Feed(Some(p), [13, 10] + rest) ==
      Feed(Some(p.(state := HeaderName, buffer := "", last := '\n',
                   request := p.request.(headers := p.request.headers[p.headerName := p.buffer]))), rest)
  {
    assert (13 as byte) as char == '\r' && (10 as byte) as char == '\n';
    var q := p.(last := '\r');
    assert Step(p, 13) == Some(q);
    FeedCons(p, 13, [10] + rest);
    assert [13, 10] + rest == [13] + ([10] + rest);
    FeedCons(q, 10, rest);
  }

  // ---------------------------------------------------------------------
  // Runs of bytes that only accumulate.

  /** The bytes that end accumulation in each state. */
  function Triggers(s: ReceiveState): set<byte>
  {
    match s
    case Method => {32}
    case Path => {32}
    case Version => {10}
    case HeaderName => {32, 10}
    case HeaderValue => {10}
    case _ => {}
  }

  /** The bytes each state discards: CR, and `:` in a header name. */
  function Dropped(s: ReceiveState): set<byte>
  {
    match s
    case Version => {13}
    case HeaderName => {58, 13}
    case HeaderValue => {13}
    case _ => {}
  }

  predicate Accumulating(s: ReceiveState)
  {
    s == Method || s == Path || s == Version || s == HeaderName || s == HeaderValue
  }

  function Kept(s: ReceiveState, b: byte): seq<byte>
  {
    if b in Dropped(s) then [] else [b]
  }

  lemma StepAccumulates(p: Parser, b: byte)
    requires Accumulating(p.state) && b !in Triggers(p.state)
    ensures Step(p, b) == Some(p.(buffer := p.buffer + AsChars(Kept(p.state, b)), last := b as char))
  {
    var c := b as char;
    assert c as int == b;
    assert c == ' ' <==> b == 32;
    assert c == '\n' <==> b == 10;
    assert c == '\r' <==> b == 13;
    assert c == ':' <==> b == 58;
    if b !in Dropped(p.state) {
      assert AsChars([b]) == [c];
    } else {
      assert AsChars([]) == [];
      assert p.buffer + [] == p.buffer;
    }
  }

  lemma FeedFirst(p: Parser, seg: seq<byte>)
    requires p.state != Invalid && seg != []
    ensures Feed(Some(p), seg) == Feed(Step(p, seg[0]), seg[1..])
  {
  }

  lemma WithoutFirst(seg: seq<byte>, s: ReceiveState)
    requires seg != []
    ensures Without(seg, Dropped(s)) == Kept(s, seg[0]) + Without(seg[1..], Dropped(s))
  {
  }

  lemma {:induction false} BufferJoin(buffer: string, kept: seq<byte>, w: seq<byte>)
    ensures buffer + AsChars(kept) + AsChars(w) == buffer + AsChars(kept + w)
  {
    AsCharsAppend(kept, w);
  }

  /** A run of bytes without the state's trigger is added to the buffer
      verbatim, less the state's discarded bytes, and nothing else changes
      but `last`. */
  lemma {:induction false} Accumulate(p: Parser, seg: seq<byte>)
    requires Accumulating(p.state)
    requires forall i :: 0 <= i < |seg| ==> seg[i] !in Triggers(p.state)
    ensures Feed(Some(p), seg) ==
      Some(p.(buffer := p.buffer + AsChars(Without(seg, Dropped(p.state))), last := LastChar(p.last, seg)))
    decreases |seg|
  {
    if seg != [] {
      var b := seg[0];
      var kept := Kept(p.state, b);
      var q := p.(buffer := p.buffer + AsChars(kept), last := b as char);
      StepAccumulates(p, b);
      FeedFirst(p, seg);
      Accumulate(q, seg[1..]);
      WithoutFirst(seg, p.state);
      BufferJoin(p.buffer, kept, Without(seg[1..], Dropped(p.state)));
      assert LastChar(b as char, seg[1..]) == LastChar(p.last, seg);
    } else {
      assert p.buffer + AsChars([]) == p.buffer;
    }
  }

  lemma {:induction false} WithoutNothing(s: seq<byte>, drop: set<byte>)
    requires forall i :: 0 <= i < |s| ==> s[i] !in drop
    ensures Without(s, drop) == s
  {
    if s != [] {
      WithoutNothing(s[1..], drop);
      assert [s[0]] + s[1..] == s;
    }
  }

  /** A run that neither ends nor loses a byte, read into an empty buffer,
      becomes the buffer; the rest of the input is read from there. */
  lemma AccumulateThen(p: Parser, seg: seq<byte>, tail: seq<byte>)
    requires Accumulating(p.state) && p.buffer == ""
    requires forall i :: 0 <= i < |seg| ==> seg[i] !in Triggers(p.state) && seg[i] !in Dropped(p.state)
    ensures Feed(Some(p), seg + tail) == Feed(Some(p.(buffer := AsChars(seg), last := LastChar(p.last, seg))), tail)
  {
    WithoutNothing(seg, Dropped(p.state));
    Accumulate(p, seg);
    assert "" + AsChars(seg) == AsChars(seg);
    FeedAppend(Some(p), seg, tail);
  }

  /** Once in `Content`, every byte is appended to the data verbatim and in
      order, and no byte is interpreted. */
  lemma {:induction false} ContentVerbatim(p: Parser, body: seq<byte>)
    requires p.state == Content
    ensures Feed(Some(p), body) == Some(p.(request := p.request.(data := p.request.data + body), last := LastChar(p.last, body)))
    decreases |body|
  {
    if body != [] {
      var b := body[0];
      var q := p.(request := p.request.(data := p.request.data + [b]), last := b as char);
      assert Step(p, b) == Some(q);
      assert body == [b] + body[1..];
      FeedCons(p, b, body[1..]);
      ContentVerbatim(q, body[1..]);
      assert q.request.data + body[1..] == p.request.data + body;
      assert LastChar(b as char, body[1..]) == LastChar(p.last, body);
    } else {
      assert p.request.data + body == p.request.data;
    }
  }

  /** In `HeaderName` a CRLF moves to `Content`, whether or not name bytes
      were gathered; the body then follows verbatim. */
  lemma {:induction false} EndOfHeaders(p: Parser, body: seq<byte>)
    requires p.state == HeaderName
    ensures Feed(Some(p), [13, 10] + body) ==
      Some(p.(state := Content, request := p.request.(data := p.request.data + body), last := LastChar('\n', body)))
  {
    assert (13 as byte) as char == '\r' && (10 as byte) as char == '\n';
    var q := p.(last := '\r');
    assert Step(p, 13) == Some(q);
    var r := q.(state := Content, last := '\n');
    assert Step(q, 10) == Some(r);
    FeedCons(p, 13, [10] + body);
    assert [13, 10] + body == [13] + ([10] + body);
    FeedCons(q, 10, body);
    ContentVerbatim(r, body);
  }

  // ---------------------------------------------------------------------
  // The request line.

  /** The method token is upper-cased and must then be `GET` or `POST`: it is
      accepted as GET exactly when it spells `get` in any mix of case ... */
  lemma {:induction false} GetToken(t: string)
    ensures ParseMethod(Ascii.ToUpper(t)) == Some(GET) <==>
      |t| == 3 && Ascii.SameIgnoringCase(t[0], 'G') && Ascii.SameIgnoringCase(t[1], 'E') && Ascii.SameIgnoringCase(t[2], 'T')
  {
    var u := Ascii.ToUpper(t);
    Ascii.ToUpperSpec(t);
    if |t| == 3 && Ascii.SameIgnoringCase(t[0], 'G') && Ascii.SameIgnoringCase(t[1], 'E') && Ascii.SameIgnoringCase(t[2], 'T') {
      assert u[0] == 'G' && u[1] == 'E' && u[2] == 'T';
      assert u == "GET";
    }
  }

  /** ... and as POST exactly when it spells `post` in any mix of case. */
  lemma {:induction false} PostToken(t: string)
    ensures ParseMethod(Ascii.ToUpper(t)) == Some(POST) <==>
      |t| == 4 && Ascii.SameIgnoringCase(t[0], 'P') && Ascii.SameIgnoringCase(t[1], 'O') &&
      Ascii.SameIgnoringCase(t[2], 'S') && Ascii.SameIgnoringCase(t[3], 'T')
  {
    var u := Ascii.ToUpper(t);
    Ascii.ToUpperSpec(t);
    if |t| == 4 && Ascii.SameIgnoringCase(t[0], 'P') && Ascii.SameIgnoringCase(t[1], 'O') &&
       Ascii.SameIgnoringCase(t[2], 'S') && Ascii.SameIgnoringCase(t[3], 'T') {
      assert u[0] == 'P' && u[1] == 'O' && u[2] == 'S' && u[3] == 'T';
      assert u == "POST";
    }
  }

  /** The bytes before the first space are the method token. An unknown
      token makes the state `Invalid` at that space and nothing after it is
      read; a known one is recorded and the path follows. */
  lemma {:induction false} MethodLine(p: Parser, token: seq<byte>, rest: seq<byte>)
    requires p.state == Method && p.buffer == ""
    requires 32 !in token
    ensures var r := Feed(Some(p), token + ([32] + rest));
      match ParseMethod(Ascii.ToUpper(AsChars(token)))
      case None =>
        r == Some(p.(state := Invalid, buffer := AsChars(token), last := LastChar(p.last, token)))
      case Some(m) =>
        r == Feed(Some(p.(state := Path, request := p.request.(verb := m), last := ' ')), rest)
  {
    AccumulateThen(p, token, [32] + rest);
    var p1 := p.(buffer := AsChars(token), last := LastChar(p.last, token));
    FeedCons(p1, 32, rest);
    MethodSpace(p1);
    match ParseMethod(Ascii.ToUpper(AsChars(token)))
    case None =>
      FeedInvalid(p1.(state := Invalid), rest);
    case Some(m) =>
  }

  /** The path runs to the next space and is stored lower-cased. */
  lemma {:induction false} PathPart(p: Parser, path: seq<byte>, rest: seq<byte>)
    requires p.state == Path && p.buffer == "" && 32 !in path
    ensures Feed(Some(p), path + ([32] + rest)) ==
      Feed(Some(p.(state := Version, last := ' ', request := p.request.(path := Ascii.ToLower(AsChars(path))))), rest)
  {
    AccumulateThen(p, path, [32] + rest);
    var p1 := p.(buffer := AsChars(path), last := LastChar(p.last, path));
    FeedCons(p1, 32, rest);
    PathSpace(p1);
  }

  /** The version runs to the CRLF and is stored upper-cased. */
  lemma {:induction false} VersionPart(p: Parser, version: seq<byte>, rest: seq<byte>)
    requires p.state == Version && p.buffer == "" && 13 !in version && 10 !in version
    ensures Feed(Some(p), version + ([13, 10] + rest)) ==
      Feed(Some(p.(state := HeaderName, last := '\n', request := p.request.(version := Ascii.ToUpper(AsChars(version))))), rest)
  {
    AccumulateThen(p, version, [13, 10] + rest);
    var p1 := p.(buffer := AsChars(version), last := LastChar(p.last, version));
    VersionEnd(p1, rest);
  }

  /** A lone LF in the version, one not preceded by CR, does not end it:
      unlike CR it is kept, and ends up in the stored version. */
  lemma {:induction false} VersionLoneLineFeed(p: Parser, version: seq<byte>, rest: seq<byte>)
    requires p.state == Version && p.buffer == "" && p.last != '\r' && 13 !in version && 10 !in version
    ensures Feed(Some(p), version + ([10] + ([13, 10] + rest))) ==
      Feed(Some(p.(state := HeaderName, last := '\n',
                   request := p.request.(version := Ascii.ToUpper(AsChars(version) + "\n")))), rest)
  {
    AccumulateThen(p, version, [10] + ([13, 10] + rest));
    var p1 := p.(buffer := AsChars(version), last := LastChar(p.last, version));
    assert p1.last != '\r';
    FeedCons(p1, 10, [13, 10] + rest);
    var p2 := p1.(buffer := AsChars(version) + "\n", last := '\n');
    assert (10 as byte) as char == '\n';
    assert Step(p1, 10) == Some(p2);
    VersionEnd(p2, rest);
  }

  // ---------------------------------------------------------------------
  // Header lines.

  datatype Header = Header(name: seq<byte>, value: seq<byte>)

  /** A name without space, `:`, CR or LF, and a value without CR or LF. */
  predicate HeaderOk(h: Header)
  {
    && (forall j :: 0 <= j < |h.name| ==> h.name[j] != 32 && h.name[j] != 58 && h.name[j] != 13 && h.name[j] != 10)
    && 13 !in h.value && 10 !in h.value
  }

  /** `Name: value` CRLF for each header. */
  function HeaderLines(hs: seq<Header>): seq<byte>
    decreases |hs|
  {
    if hs == [] then [] else hs[0].name + [58, 32] + hs[0].value + [13, 10] + HeaderLines(hs[1..])
  }

  /** The headers added one after the other, as long as no name repeats. */
  function AddHeaders(m: map<string, string>, hs: seq<Header>): Option<map<string, string>>
    decreases |hs|
  {
    if hs == [] then Some(m)
    else if AsChars(hs[0].name) in m then None
    else AddHeaders(m[AsChars(hs[0].name) := AsChars(hs[0].value)], hs[1..])
  }

  /** The parser after the header lines `hs`, read from `HeaderName`. */
  function AfterHeaders(p: Parser, hs: seq<Header>): Parser
    decreases |hs|
  {
    if hs == [] then p
    else
      var name := AsChars(hs[0].name);
      AfterHeaders(p.(last := '\n', headerName := name,
                      request := p.request.(headers := p.request.headers[name := AsChars(hs[0].value)])), hs[1..])
  }

  /** A header name ended by `: `: a name seen before makes `Headers.Add`
      throw; a new one is added with an empty value. */
  lemma {:induction false} NamePart(p: Parser, name: seq<byte>, rest: seq<byte>)
    requires p.state == HeaderName && p.buffer == ""
    requires forall j :: 0 <= j < |name| ==> name[j] != 32 && name[j] != 58 && name[j] != 13 && name[j] != 10
    ensures Feed(Some(p), name + ([58, 32] + rest)) ==
      if AsChars(name) in p.request.headers then None
      else Feed(Some(p.(state := HeaderValue, headerName := AsChars(name), last := ' ',
                        request := p.request.(headers := p.request.headers[AsChars(name) := ""]))), rest)
  {
    AccumulateThen(p, name, [58, 32] + rest);
    var p1 := p.(buffer := AsChars(name), last := LastChar(p.last, name));
    NameEnd(p1, rest);
    if AsChars(name) in p.request.headers {
      FeedNone(rest);
    }
  }

  /** A header value ended by CRLF replaces the placeholder under the most
      recent name. */
  lemma {:induction false} ValuePart(p: Parser, value: seq<byte>, rest: seq<byte>)
    requires p.state == HeaderValue && p.buffer == "" && 13 !in value && 10 !in value
    ensures Feed(Some(p), value + ([13, 10] + rest)) ==
      Feed(Some(p.(state := HeaderName, last := '\n',
                   request := p.request.(headers := p.request.headers[p.headerName := AsChars(value)]))), rest)
  {
    AccumulateThen(p, value, [13, 10] + rest);
    var p1 := p.(buffer := AsChars(value), last := LastChar(p.last, value));
    ValueEnd(p1, rest);
  }

  /** One header line: a name seen before makes `Headers.Add` throw; a new
      one is added with its value. */
  lemma {:induction false} HeaderLine(p: Parser, h: Header, rest: seq<byte>)
    requires p.state == HeaderName && p.buffer == "" && HeaderOk(h)
    ensures Feed(Some(p), h.name + [58, 32] + h.value + [13, 10] + rest) ==
      if AsChars(h.name) in p.request.headers then None
      else Feed(Some(p.(last := '\n', headerName := AsChars(h.name),
                        request := p.request.(headers := p.request.headers[AsChars(h.name) := AsChars(h.value)]))), rest)
  {
    var name := AsChars(h.name);
    var tail := h.value + ([13, 10] + rest);
    assert h.name + [58, 32] + h.value + [13, 10] + rest == h.name + ([58, 32] + tail);
    NamePart(p, h.name, tail);
    if name !in p.request.headers {
      var p1 := p.(state := HeaderValue, headerName := name, last := ' ',
                   request := p.request.(headers := p.request.headers[name := ""]));
      ValuePart(p1, h.value, rest);
      assert p.request.headers[name := ""][name := AsChars(h.value)] == p.request.headers[name := AsChars(h.value)];
    }
  }

  lemma {:induction false} HeaderLinesFeed(p: Parser, hs: seq<Header>, rest: seq<byte>)
    requires p.state == HeaderName && p.buffer == ""
    requires forall i :: 0 <= i < |hs| ==> HeaderOk(hs[i])
    ensures Feed(Some(p), HeaderLines(hs) + rest) ==
      if AddHeaders(p.request.headers, hs).None? then None else Feed(Some(AfterHeaders(p, hs)), rest)
    ensures AfterHeaders(p, hs).state == HeaderName && AfterHeaders(p, hs).buffer == ""
    ensures AddHeaders(p.request.headers, hs).Some? ==>
      AfterHeaders(p, hs).request == p.request.(headers := AddHeaders(p.request.headers, hs).value)
    decreases |hs|
  {
    if hs == [] {
      assert HeaderLines(hs) + rest == rest;
    } else {
      var h := hs[0];
      var line := h.name + [58, 32] + h.value + [13, 10];
      assert HeaderLines(hs) + rest == line + (HeaderLines(hs[1..]) + rest);
      HeaderLine(p, h, HeaderLines(hs[1..]) + rest);
      var name := AsChars(h.name);
      var q := p.(last := '\n', headerName := name,
                  request := p.request.(headers := p.request.headers[name := AsChars(h.value)]));
      HeaderLinesFeed(q, hs[1..], rest);
    }
  }

  /** The header names as the dictionary keys them. */
  function Names(hs: seq<Header>): set<string>
  {
    set i | 0 <= i < |hs| :: AsChars(hs[i].name)
  }

  predicate DistinctNames(hs: seq<Header>)
  {
    forall i, j :: 0 <= i < j < |hs| ==> hs[i].name != hs[j].name
  }

  lemma {:induction false} AsCharsInjective(a: seq<byte>, b: seq<byte>)
    ensures AsChars(a) == AsChars(b) <==> a == b
  {
    if AsChars(a) == AsChars(b) {
      assert forall i :: 0 <= i < |a| ==> a[i] as char == b[i] as char;
    }
  }

  lemma {:induction false} NamesCons(hs: seq<Header>)
    requires hs != []
    ensures Names(hs) == {AsChars(hs[0].name)} + Names(hs[1..])
  {
    forall k | k in Names(hs) ensures k in {AsChars(hs[0].name)} + Names(hs[1..]) {
      var i :| 0 <= i < |hs| && k == AsChars(hs[i].name);
      if i > 0 { assert hs[i] == hs[1..][i - 1]; }
    }
    forall k | k in Names(hs[1..]) ensures k in Names(hs) {
      var i :| 0 <= i < |hs[1..]| && k == AsChars(hs[1..][i].name);
      assert hs[1..][i] == hs[i + 1];
    }
  }

  lemma {:induction false} DistinctCons(hs: seq<Header>)
    requires hs != []
    ensures DistinctNames(hs) <==>
      DistinctNames(hs[1..]) && forall i :: 1 <= i < |hs| ==> hs[0].name != hs[i].name
  {
    if DistinctNames(hs[1..]) && forall i :: 1 <= i < |hs| ==> hs[0].name != hs[i].name {
      forall i, j | 0 <= i < j < |hs| ensures hs[i].name != hs[j].name {
        if i > 0 { assert hs[i] == hs[1..][i - 1] && hs[j] == hs[1..][j - 1]; }
      }
    }
    if DistinctNames(hs) {
      forall i, j | 0 <= i < j < |hs[1..]| ensures hs[1..][i].name != hs[1..][j].name {
        assert hs[1..][i] == hs[i + 1] && hs[1..][j] == hs[j + 1];
      }
    }
  }

  /** Adding headers one after the other succeeds exactly when their names
      are distinct and new. */
  lemma {:induction false} AddHeadersSucceeds(m: map<string, string>, hs: seq<Header>)
    ensures AddHeaders(m, hs).Some? <==>
      DistinctNames(hs) && forall i :: 0 <= i < |hs| ==> AsChars(hs[i].name) !in m
    decreases |hs|
  {
    if hs != [] {
      var name := AsChars(hs[0].name);
      var m' := m[name := AsChars(hs[0].value)];
      AddHeadersSucceeds(m', hs[1..]);
      DistinctCons(hs);
      forall i | 1 <= i < |hs| ensures AsChars(hs[i].name) !in m' <==> AsChars(hs[i].name) !in m && hs[0].name != hs[i].name {
        AsCharsInjective(hs[0].name, hs[i].name);
      }
      assert (forall i :: 0 <= i < |hs[1..]| ==> AsChars(hs[1..][i].name) !in m') <==>
             (forall i :: 1 <= i < |hs| ==> AsChars(hs[i].name) !in m') by {
        forall i | 1 <= i < |hs| ensures hs[i] == hs[1..][i - 1] { }
      }
    }
  }

  /** A successful addition adds exactly the names and keeps the earlier
      entries. */
  lemma {:induction false} AddHeadersKeeps(m: map<string, string>, hs: seq<Header>)
    requires AddHeaders(m, hs).Some?
    ensures var r := AddHeaders(m, hs).value;
      r.Keys == m.Keys + Names(hs) && forall k :: k in m ==> r[k] == m[k]
    decreases |hs|
  {
    if hs != [] {
      var m' := m[AsChars(hs[0].name) := AsChars(hs[0].value)];
      AddHeadersKeeps(m', hs[1..]);
      NamesCons(hs);
    }
  }

  /** A successful addition maps every name to its value. */
  lemma {:induction false} AddHeadersContents(m: map<string, string>, hs: seq<Header>)
    requires AddHeaders(m, hs).Some?
    ensures var r := AddHeaders(m, hs).value;
      forall i :: 0 <= i < |hs| ==> AsChars(hs[i].name) in r && r[AsChars(hs[i].name)] == AsChars(hs[i].value)
    decreases |hs|
  {
    if hs != [] {
      var m' := m[AsChars(hs[0].name) := AsChars(hs[0].value)];
      AddHeadersContents(m', hs[1..]);
      AddHeadersKeeps(m', hs[1..]);
      assert forall i :: 1 <= i < |hs| ==> hs[i] == hs[1..][i - 1];
    }
  }

  // ---------------------------------------------------------------------
  // A whole request.

  /** The bytes of a request: request line, header lines, empty line, body. */
  function Wire(token: seq<byte>, path: seq<byte>, version: seq<byte>, hs: seq<Header>, body: seq<byte>): seq<byte>
  {
    token + [32] + path + [32] + version + [13, 10] + HeaderLines(hs) + [13, 10] + body
  }

  predicate WireOk(token: seq<byte>, path: seq<byte>, version: seq<byte>, hs: seq<Header>)
  {
    && 32 !in token && 32 !in path && 13 !in version && 10 !in version
    && forall i :: 0 <= i < |hs| ==> HeaderOk(hs[i])
  }

  /** Parsing a well-formed request. With an unknown method the state is
      `Invalid`. Otherwise the parse survives exactly when the header names
      are distinct, and then it ends in `Content` with the method, the path
      lower-cased, the version upper-cased, every header under its name and
      the body as the data. */
  lemma {:induction false} WireRequest(token: seq<byte>, path: seq<byte>, version: seq<byte>, hs: seq<Header>, body: seq<byte>)
    requires WireOk(token, path, version, hs)
    ensures var r := Feed(Some(Start), Wire(token, path, version, hs, body));
      match ParseMethod(Ascii.ToUpper(AsChars(token)))
      case None => r.Some? && r.value.state == Invalid
      case Some(m) =>
        && (r.Some? <==> DistinctNames(hs))
        && (r.Some? ==>
              var q := r.value.request;
              && r.value.state == Content
              && q.verb == m
              && q.path == Ascii.ToLower(AsChars(path))
              && q.version == Ascii.ToUpper(AsChars(version))
              && q.headers.Keys == Names(hs)
              && (forall i :: 0 <= i < |hs| ==> q.headers[AsChars(hs[i].name)] == AsChars(hs[i].value))
              && q.data == body)
  {
    var afterLine := HeaderLines(hs) + ([13, 10] + body);
    var afterPath := version + ([13, 10] + afterLine);
    var afterMethod := path + ([32] + afterPath);
    assert Wire(token, path, version, hs, body) == token + ([32] + afterMethod);
    MethodLine(Start, token, afterMethod);
    match ParseMethod(Ascii.ToUpper(AsChars(token)))
    case None =>
    case Some(m) =>
      var p := Start.(state := Path, request := Defaults.(verb := m), last := ' ');
      PathPart(p, path, afterPath);
      var p1 := p.(state := Version, last := ' ', request := p.request.(path := Ascii.ToLower(AsChars(path))));
      VersionPart(p1, version, afterLine);
      var p2 := p1.(state := HeaderName, last := '\n', request := p1.request.(version := Ascii.ToUpper(AsChars(version))));
      HeaderLinesFeed(p2, hs, [13, 10] + body);
      AddHeadersSucceeds(map[], hs);
      if AddHeaders(map[], hs).Some? {
        AddHeadersKeeps(map[], hs);
        AddHeadersContents(map[], hs);
        var p3 := AfterHeaders(p2, hs);
        EndOfHeaders(p3, body);
        assert [] + body == body;
      }
  }

  /** An input that ends, or runs out of time, before the request line is
      complete leaves the path empty; no input at all leaves the defaults. */
  lemma CutShort(input: seq<byte>, budget: nat)
    ensures Received([], budget) == Some(Start)
    ensures var r := Received(input, budget);
      r.Some? && (r.value.state == Method || r.value.state == Path) ==>
        r.value.request.path == "" && r.value.request.headers == map[] && r.value.request.data == []
  {
    ReceivedNormal(input, budget);
  }
}
