/** Writing a response onto the descriptor and reading it back. */
module Response {
  import opened Octets
  import opened Errors
  import opened Framing
  import opened Request
  import opened RequestGrammar
  import opened Reading
  import opened Readers
  import Utf8

  datatype ResponseHead = ResponseHead(status: nat, reason: string, headers: seq<Header>)

  datatype ClientResponse = ClientResponse(
    status: nat, reason: string, headers: seq<Header>, body: bytes, refused: bool)

  // ----- writing -----

  function SanitizeReason(reason: string): string {
    Sanitize(reason, "Unknown")
  }

  function StatusLine(status: nat, reason: string): bytes {
    "HTTP/1.1 " + (Decimal(status) + (" " + SanitizeReason(reason)))
  }

  function HeaderLine(h: Header): bytes {
    h.0 + (": " + h.1)
  }

  function HeaderLines(headers: seq<Header>): (r: seq<bytes>)
    ensures |r| == |headers|
    ensures forall i :: 0 <= i < |headers| ==> r[i] == HeaderLine(headers[i])
  {
    seq(|headers|, i requires 0 <= i < |headers| => HeaderLine(headers[i]))
  }

  /** The framing the daemon always writes itself. */
  function OwnFraming(bodyLen: nat): seq<Header> {
    [("Content-Length", Decimal(bodyLen)), ("Connection", "close")]
  }

  function EncodedLines(head: ResponseHead, bodyLen: nat): seq<bytes> {
    [StatusLine(head.status, head.reason)] + HeaderLines(head.headers + OwnFraming(bodyLen))
  }

  /** What `ResponseHead::encode` writes. */
  function Encode(head: ResponseHead, bodyLen: nat): bytes {
    JoinLines(EncodedLines(head, bodyLen)) + CRLF
  }

  /** A whole response, as it is written. */
  function ResponseBytes(response: (ResponseHead, bytes)): bytes {
    Encode(response.0, |response.1|) + response.1
  }

  method EncodeHead(head: ResponseHead, bodyLen: nat) returns (out: bytes)
    ensures out == Encode(head, bodyLen)
  {
    hide StatusLine;
    hide JoinLines;
    hide Decimal;
    out := StatusLine(head.status, head.reason) + CRLF;
    ghost var lines := [StatusLine(head.status, head.reason)];
    JoinOne(StatusLine(head.status, head.reason));
    for i := 0 to |head.headers|
      invariant lines == [StatusLine(head.status, head.reason)] + HeaderLines(head.headers[..i])
      invariant out == JoinLines(lines)
    {
      out := AppendHeader(out, lines, head.headers[i]);
      lines := lines + [HeaderLine(head.headers[i])];
      assert HeaderLines(head.headers[..i + 1]) == HeaderLines(head.headers[..i]) + [HeaderLine(head.headers[i])];
    }
    assert head.headers[..|head.headers|] == head.headers;
    var own := OwnFraming(bodyLen);
    out := AppendHeader(out, lines, own[0]);
    out := AppendHeader(out, lines + [HeaderLine(own[0])], own[1]);
    assert lines + [HeaderLine(own[0])] + [HeaderLine(own[1])] == EncodedLines(head, bodyLen);
    out := out + CRLF;
  }

  method AppendHeader(out: bytes, ghost lines: seq<bytes>, h: Header) returns (more: bytes)
    requires out == JoinLines(lines)
    ensures more == JoinLines(lines + [HeaderLine(h)])
  {
    hide JoinLines;
    more := out + h.0;
    more := more + ": ";
    more := more + h.1;
    more := more + CRLF;
    JoinAppend(lines, [HeaderLine(h)]);
    JoinOne(HeaderLine(h));
    Assoc(out, HeaderLine(h), CRLF);
    Assoc(out, h.0, ": " + h.1);
    Assoc(out + h.0, ": ", h.1);
  }

  // ----- relaying -----

  const HOP_BY_HOP: seq<string> := [
    "connection", "content-length", "keep-alive", "proxy-authenticate", "proxy-authorization",
    "proxy-connection", "te", "trailer", "transfer-encoding", "upgrade"]

  predicate Nominates(connection: Option<string>, name: string) {
    connection.Some?
    && exists k :: 0 <= k < |SplitOn(connection.value, ',')|
                   && EqIgnoreCase(Trim(SplitOn(connection.value, ',')[k]), name)
  }

  predicate IsHopByHop(name: string, connection: Option<string>) {
    Lower(name) in HOP_BY_HOP || Nominates(connection, Lower(name))
  }

  /** A header value that is relayed: visible text only. */
  predicate IsRelayable(value: bytes) {
    AllOf(value, IsFieldByte)
  }

  predicate IsRelayed(h: Header, connection: Option<string>) {
    !IsHopByHop(h.0, connection) && IsRelayable(h.1)
  }

  function RelayedUnder(connection: Option<string>): Header -> bool {
    h => IsRelayed(h, connection)
  }

  function Relayed(headers: seq<Header>, connection: Option<string>): seq<Header> {
    Kept(headers, RelayedUnder(connection))
  }

  /** The first `Connection` header of the origin, if it is text. */
  function ConnectionOf(headers: seq<Header>): Option<string> {
    match FindHeader(headers, "connection")
    case None => None
    case Some(value) => if IsRelayable(value) then Some(value) else None
  }

  // ----- refusing -----

  function Refusal(status: nat, reason: string, detail: string): (ResponseHead, bytes) {
    (ResponseHead(status, reason, [("Content-Type", "text/plain; charset=utf-8"), ("X-Capcurl-Refused", "1")]),
     "capcurl: " + detail + "\n")
  }

  // ----- reading back -----

  /** Rust's `split` on CRLF. */
  function SplitCrlf(s: string): (r: seq<string>)
    ensures |r| > 0
    decreases |s|
  {
    match FirstCrlf(s, 0)
    case None => [s]
    case Some(i) => [s[..i]] + SplitCrlf(s[i + 2..])
  }

  function ParseStatusLine(line: string): Result<(nat, string), CoreError> {
    var first := FirstOf(line, ' ');
    var version := if first.Some? then line[..first.value] else line;
    if version != "HTTP/1.1" && version != "HTTP/1.0" then Err(Http(BadVersion))
    else if first.None? then Err(Http(BadHeader))
    else
      var rest := line[first.value + 1..];
      var second := FirstOf(rest, ' ');
      var text := if second.Some? then rest[..second.value] else rest;
      match ParseUnsigned(text, MAX_U16)
      case None => Err(Http(BadHeader))
      case Some(status) => Ok((status, if second.Some? then rest[second.value + 1..] else ""))
  }

  function ParseField(line: string): Option<Header> {
    match FirstOf(line, ':')
    case None => None
    case Some(i) => Some((Trim(line[..i]), Trim(line[i + 1..])))
  }

  function ParseFields(lines: seq<string>, sofar: seq<Header>): Result<seq<Header>, CoreError>
    decreases |lines|
  {
    if lines == [] || lines[0] == [] then Ok(sofar)
    else match ParseField(lines[0])
         case None => Err(Http(BadHeader))
         case Some(h) => ParseFields(lines[1..], sofar + [h])
  }

  function ParseStatusAndHeaders(head: bytes): Result<ResponseHead, CoreError> {
    match Utf8.Decode(head)
    case None => Err(Http(BadHeader))
    case Some(text) =>
      var lines := SplitCrlf(text);
      match ParseStatusLine(lines[0])
      case Err(e) => Err(e)
      case Ok((status, reason)) =>
        match ParseFields(lines[1..], [])
        case Err(e) => Err(e)
        case Ok(headers) => Ok(ResponseHead(status, reason, headers))
  }

  lemma ParseFieldsFrom(lines: seq<string>, i: nat, sofar: seq<Header>)
    requires i <= |lines|
    ensures ParseFields(lines[i..], sofar)
            == if i == |lines| || lines[i] == [] then Ok(sofar)
               else match ParseField(lines[i])
                    case None => Err(Http(BadHeader))
                    case Some(h) => ParseFields(lines[i + 1..], sofar + [h])
  {
    hide ParseField;
    if i < |lines| {
      assert lines[i..][1..] == lines[i + 1..];
    }
  }

  method ReadStatusAndHeaders(head: bytes) returns (r: Result<ResponseHead, CoreError>)
    ensures r == ParseStatusAndHeaders(head)
  {
    hide ParseStatusLine;
    hide ParseField;
    hide ParseFields;
    hide SplitCrlf;
    hide Utf8.Decode;
    var text := Utf8.Decode(head);
    if text.None? {
      return Err(Http(BadHeader));
    }
    var lines := SplitCrlf(text.value);
    var start := ParseStatusLine(lines[0]);
    if start.Err? {
      return Err(start.error);
    }
    var headers: seq<Header> := [];
    var i := 1;
    while i < |lines| && lines[i] != []
      invariant 1 <= i <= |lines|
      invariant ParseFields(lines[i..], headers) == ParseFields(lines[1..], [])
    {
      ParseFieldsFrom(lines, i, headers);
      var h := ParseField(lines[i]);
      if h.None? {
        return Err(Http(BadHeader));
      }
      headers := headers + [h.value];
      i := i + 1;
    }
    ParseFieldsFrom(lines, i, headers);
    return Ok(ResponseHead(start.value.0, start.value.1, headers));
  }

  const X_REFUSED := "x-capcurl-refused"

  /** The length the head declares for the body. */
  function DeclaredLength(headers: seq<Header>): Result<nat, CoreError> {
    match FindHeader(headers, CONTENT_LENGTH)
    case None => Err(Handshake(NoContentLength))
    case Some(value) =>
      match ParseUnsigned(Trim(value), MAX_U64)
      case None => Err(Http(BadContentLength))
      case Some(n) => Ok(n)
  }

  function BodyAfterHead(head: ResponseHead, len: nat, p: Progress): Result<ClientResponse, CoreError> {
    if p.verdict == Finished && len <= |p.buf| then
      Ok(ClientResponse(head.status, head.reason, head.headers, p.buf[..len],
                        FindHeader(head.headers, X_REFUSED).Some?))
    else Err(Handshake(ClosedInBody(|p.buf|, len)))
  }

  /** What `read_response` returns on a socket that delivers these pieces, and then its end or
      a failure. */
  function ResponseResult(segs: seq<bytes>, broken: bool): Result<ClientResponse, CoreError> {
    var p := Accumulate(WholeHead, [], segs);
    if p.verdict == Overgrown then Err(Http(HeadTooLarge))
    else if p.verdict == Ended || FindHeadEnd(p.buf).None? then
      Interrupted(broken, p, Err(Handshake(ClosedBeforeHead)))
    else
      var end := FindHeadEnd(p.buf).value;
      match ParseStatusAndHeaders(p.buf[..end])
      case Err(e) => Err(e)
      case Ok(head) =>
        match DeclaredLength(head.headers)
        case Err(e) => Err(e)
        case Ok(len) =>
          var q := Accumulate(Bytes(len), p.buf[end..], p.rest);
          Interrupted(broken, q, BodyAfterHead(head, len, q))
  }

  method ReadResponse(socket: Socket) returns (r: Result<ClientResponse, CoreError>)
    requires socket.Valid()
    modifies socket`segments
    ensures socket.Valid()
    ensures r == ResponseResult(old(socket.segments), socket.broken)
  {
    hide ParseStatusAndHeaders;
    hide DeclaredLength;
    var buf: bytes := [];
    var found := FindHeadEnd(buf);
    while found.None?
      invariant socket.Valid() && found == FindHeadEnd(buf)
      invariant Accumulate(WholeHead, buf, socket.segments) == Accumulate(WholeHead, [], old(socket.segments))
      decreases |socket.segments|, found.None?
    {
      if |buf| > MAX_HEAD_LEN {
        return Err(Http(HeadTooLarge));
      }
      ghost var segs := socket.segments;
      var chunk := socket.Read();
      if chunk.None? {
        return Err(IoFailed);
      }
      if chunk.value == [] {
        return Err(Handshake(ClosedBeforeHead));
      }
      assert segs[0] == chunk.value && segs[1..] == socket.segments;
      buf := buf + chunk.value;
      found := FindHeadEnd(buf);
    }
    var end := found.value;
    assert Accumulate(WholeHead, [], old(socket.segments)) == Progress(Finished, buf, socket.segments);
    var parsed := ReadStatusAndHeaders(buf[..end]);
    if parsed.Err? {
      return Err(parsed.error);
    }
    var head := parsed.value;
    var declared := DeclaredLength(head.headers);
    if declared.Err? {
      return Err(declared.error);
    }
    var length := declared.value;
    var body := buf[end..];
    ghost var rest := socket.segments;
    while |body| < length
      invariant socket.Valid()
      invariant Accumulate(Bytes(length), body, socket.segments) == Accumulate(Bytes(length), buf[end..], rest)
      decreases |socket.segments|
    {
      ghost var segs := socket.segments;
      var chunk := socket.Read();
      if chunk.None? {
        return Err(IoFailed);
      }
      if chunk.value == [] {
        return Err(Handshake(ClosedInBody(|body|, length)));
      }
      assert segs[0] == chunk.value && segs[1..] == socket.segments;
      body := body + chunk.value;
    }
    return Ok(ClientResponse(head.status, head.reason, head.headers, body[..length],
                             FindHeader(head.headers, X_REFUSED).Some?));
  }
}
