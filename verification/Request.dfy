/** Parsing a request head: section 3 and 5 of RFC 9112, strictly. */
module Request {
  import opened Octets
  import opened Errors
  import opened Framing

  const MAX_HEAD_LEN: nat := 0x1_0000
  const MAX_HEADERS: nat := 128

  datatype Version = Http10 | Http11

  datatype RequestHead = RequestHead(
    verb: string, target: string, version: Version, headers: seq<Header>, framing: BodyFraming)

  // ----- where a head ends -----

  predicate HeadEndAt(s: bytes, i: int) {
    CrlfAt(s, i) && CrlfAt(s, i + 2)
  }

  function FirstHeadEnd(s: bytes, from: nat): (r: Option<nat>)
    requires from <= |s|
    ensures r.Some? ==> from <= r.value && HeadEndAt(s, r.value)
    ensures r.Some? ==> forall j :: from <= j < r.value ==> !HeadEndAt(s, j)
    ensures r.None? ==> forall j :: from <= j ==> !HeadEndAt(s, j)
    decreases |s| - from
  {
    if HeadEndAt(s, from) then Some(from)
    else if from == |s| then None
    else FirstHeadEnd(s, from + 1)
  }

  /** The offset just past the first CRLFCRLF. */
  function FindHeadEnd(s: bytes): (r: Option<nat>)
    ensures r.Some? ==> 4 <= r.value <= |s|
  {
    match FirstHeadEnd(s, 0)
    case None => None
    case Some(i) => Some(i + 4)
  }

  // ----- lines -----

  /** The lines between CRLFs, without their terminators. */
  function Lines(buf: bytes): seq<bytes> {
    if buf == [] then []
    else
      match FirstCrlf(buf, 0)
      case None => [buf]
      case Some(i) => [buf[..i]] + Lines(buf[i + 2..])
  }

  /** One step of the line iterator. */
  method NextLine(rest: bytes) returns (line: bytes, after: bytes)
    requires rest != []
    ensures Lines(rest) == [line] + Lines(after) && |after| < |rest|
  {
    var found := FirstCrlf(rest, 0);
    if found.Some? {
      line := rest[..found.value];
      after := rest[found.value + 2..];
    } else {
      line := rest;
      after := [];
    }
  }

  // ----- the request line -----

  function VersionText(v: Version): bytes {
    if v == Http11 then "HTTP/1.1" else "HTTP/1.0"
  }

  function ParseRequestLine(line: bytes): Result<(string, string, Version), HttpError> {
    match FirstOf(line, ' ')
    case None => Err(BadRequestLine)
    case Some(i) =>
      var rest := line[i + 1..];
      match FirstOf(rest, ' ')
      case None => Err(BadRequestLine)
      case Some(j) =>
        var (name, target, version) := (line[..i], rest[..j], rest[j + 1..]);
        if name == [] || target == [] || ' ' in version then Err(BadRequestLine)
        else if !AllOf(name, IsTokenByte) || !AllOf(target, IsPrintable) then Err(BadRequestLine)
        else if version == "HTTP/1.1" then Ok((name, target, Http11))
        else if version == "HTTP/1.0" then Ok((name, target, Http10))
        else Err(BadVersion)
  }

  // ----- header lines -----

  method TrimOws(s: bytes) returns (v: bytes)
    ensures v == TrimBy(s, IsOws)
  {
    v := s;
    while v != [] && IsOws(v[0])
      invariant TrimStart(v, IsOws) == TrimStart(s, IsOws)
      decreases |v|
    {
      v := v[1..];
    }
    while v != [] && IsOws(v[|v| - 1])
      invariant TrimEnd(v, IsOws) == TrimBy(s, IsOws)
      decreases |v|
    {
      v := v[..|v| - 1];
    }
  }

  function ParseHeaderLine(line: bytes): Result<Header, HttpError> {
    match FirstOf(line, ':')
    case None => Err(BadHeader)
    case Some(colon) =>
      var (name, value) := (line[..colon], TrimBy(line[colon + 1..], IsOws));
      if name == [] || !AllOf(name, IsTokenByte) then Err(BadHeader)
      else if !AllOf(value, IsFieldByte) then Err(BadHeader)
      else Ok((name, value))
  }

  method ReadHeaderLine(line: bytes) returns (r: Result<Header, HttpError>)
    ensures r == ParseHeaderLine(line)
  {
    var colon := FirstOf(line, ':');
    if colon.None? {
      return Err(BadHeader);
    }
    var name := line[..colon.value];
    if name == [] || !AllOf(name, IsTokenByte) {
      return Err(BadHeader);
    }
    var value := TrimOws(line[colon.value + 1..]);
    if !AllOf(value, IsFieldByte) {
      return Err(BadHeader);
    }
    return Ok((name, value));
  }

  predicate IsFolded(line: bytes) {
    line != [] && IsOws(line[0])
  }

  /** Header lines up to the first empty one. */
  function ParseHeaders(lines: seq<bytes>, sofar: seq<Header>): Result<seq<Header>, HttpError> {
    if lines == [] || lines[0] == [] then Ok(sofar)
    else if |sofar| >= MAX_HEADERS then Err(TooManyHeaders)
    else if IsFolded(lines[0]) then Err(ObsFold)
    else
      match ParseHeaderLine(lines[0])
      case Err(e) => Err(e)
      case Ok(h) => ParseHeaders(lines[1..], sofar + [h])
  }

  /** Case-insensitive lookup of the first header of that name. */
  function FindHeader(headers: seq<Header>, name: string): Option<string> {
    if headers == [] then None
    else if EqIgnoreCase(headers[0].0, name) then Some(headers[0].1)
    else FindHeader(headers[1..], name)
  }

  lemma {:induction false} FindHeaderIsExact(headers: seq<Header>, name: string)
    ensures FindHeader(headers, name).None?
            <==> forall i :: 0 <= i < |headers| ==> !EqIgnoreCase(headers[i].0, name)
  {
    if headers != [] {
      FindHeaderIsExact(headers[1..], name);
      assert headers == [headers[0]] + headers[1..];
    }
  }

  const UPGRADE := "upgrade"

  /** What `RequestHead::parse` returns. */
  function Parse(buf: bytes): Result<RequestHead, HttpError> {
    if |buf| > MAX_HEAD_LEN then Err(HeadTooLarge)
    else
      var lines := Lines(buf);
      if lines == [] || lines[0] == [] then Err(BadRequestLine)
      else
        match ParseRequestLine(lines[0])
        case Err(e) => Err(e)
        case Ok((name, target, version)) =>
          match ParseHeaders(lines[1..], [])
          case Err(e) => Err(e)
          case Ok(headers) =>
            match FramingOf(headers)
            case Err(e) => Err(e)
            case Ok(framing) =>
              if FindHeader(headers, UPGRADE).Some? then Err(Upgrade)
              else Ok(RequestHead(name, target, version, headers, framing))
  }

  method ParseHead(buf: bytes) returns (r: Result<RequestHead, HttpError>)
    ensures r == Parse(buf)
  {
    if |buf| > MAX_HEAD_LEN {
      return Err(HeadTooLarge);
    }
    if buf == [] {
      return Err(BadRequestLine);
    }
    var requestLine, rest := NextLine(buf);
    if requestLine == [] {
      return Err(BadRequestLine);
    }
    var start := ParseRequestLine(requestLine);
    if start.Err? {
      return Err(start.error);
    }
    var (name, target, version) := start.value;
    assert Lines(buf)[1..] == Lines(rest);
    var headers: seq<Header> := [];
    var done := false;
    while rest != [] && !done
      invariant done ==> Ok(headers) == ParseHeaders(Lines(buf)[1..], [])
      invariant !done ==> ParseHeaders(Lines(rest), headers) == ParseHeaders(Lines(buf)[1..], [])
      decreases !done, |rest|
    {
      ghost var pending := Lines(rest);
      var line, after := NextLine(rest);
      assert pending[0] == line && pending[1..] == Lines(after);
      if line == [] {
        done := true;
      } else {
        if |headers| >= MAX_HEADERS {
          return Err(TooManyHeaders);
        }
        if line[0] == ' ' || line[0] == '\t' {
          return Err(ObsFold);
        }
        var parsed := ReadHeaderLine(line);
        if parsed.Err? {
          return Err(parsed.error);
        }
        headers := headers + [parsed.value];
        rest := after;
      }
    }
    assert Ok(headers) == ParseHeaders(Lines(buf)[1..], []);
    var framing := ComputeFraming(headers);
    if framing.Err? {
      return Err(framing.error);
    }
    if FindHeader(headers, UPGRADE).Some? {
      return Err(Upgrade);
    }
    return Ok(RequestHead(name, target, version, headers, framing.value));
  }
}
