/** The request that the client writes, and what the daemon makes of it. */
module Exchange {
  import opened Octets
  import opened Errors
  import opened Framing
  import opened Request
  import opened RequestGrammar
  import opened Reading
  import opened Readers
  import opened Response

  // ----- writing -----

  const HOST: Header := ("Host", "capability.invalid")

  /** The headers the client sends: a placeholder host, its own, and the body length. */
  function SentHeaders(headers: seq<Header>, bodyLen: nat): seq<Header> {
    [HOST] + headers + [("Content-Length", Decimal(bodyLen))]
  }

  function SentLines(verb: string, target: string, headers: seq<Header>, bodyLen: nat): seq<bytes> {
    [RequestLine(verb, target, Http11)] + HeaderLines(SentHeaders(headers, bodyLen))
  }

  function SentHead(verb: string, target: string, headers: seq<Header>, bodyLen: nat): bytes {
    JoinLines(SentLines(verb, target, headers, bodyLen)) + CRLF
  }

  method ComposeHead(verb: string, target: string, headers: seq<Header>, bodyLen: nat) returns (head: bytes)
    ensures head == SentHead(verb, target, headers, bodyLen)
  {
    hide JoinLines;
    hide Decimal;
    head := verb + " ";
    head := head + target;
    head := head + " HTTP/1.1\r\n";
    ghost var lines := [RequestLine(verb, target, Http11)];
    JoinOne(lines[0]);
    assert head == lines[0] + CRLF;
    head := AppendHeader(head, lines, HOST);
    lines := lines + [HeaderLine(HOST)];
    assert HeaderLines([HOST] + headers[..0]) == [HeaderLine(HOST)];
    for i := 0 to |headers|
      invariant lines == [RequestLine(verb, target, Http11)] + HeaderLines([HOST] + headers[..i])
      invariant head == JoinLines(lines)
    {
      head := AppendHeader(head, lines, headers[i]);
      lines := lines + [HeaderLine(headers[i])];
      assert [HOST] + headers[..i + 1] == [HOST] + headers[..i] + [headers[i]];
    }
    assert headers[..|headers|] == headers;
    var length := ("Content-Length", Decimal(bodyLen));
    head := AppendHeader(head, lines, length);
    assert lines + [HeaderLine(length)] == SentLines(verb, target, headers, bodyLen);
    head := head + CRLF;
  }

  /** Write head and body, until a write fails. */
  method WriteRequest(socket: Socket, verb: string, target: string, headers: seq<Header>, body: bytes)
    returns (ok: bool)
    modifies socket`written, socket`fates
    ensures var w := WriteTwo(old(socket.fates), SentHead(verb, target, headers, |body|), body);
            ok == w.ok && socket.written == old(socket.written) + w.landed && socket.fates == w.fates
  {
    hide SentHead;
    var head := ComposeHead(verb, target, headers, |body|);
    ok := socket.WriteAll(head);
    if ok {
      Assoc(old(socket.written), head, WriteOne(socket.fates, body).landed);
      ok := socket.WriteAll(body);
    }
  }

  /** Perform the one request a minted descriptor is good for. */
  method RequestOverDescriptor(socket: Socket, verb: string, target: string, headers: seq<Header>, body: bytes)
    returns (r: Result<ClientResponse, CoreError>)
    requires socket.Valid()
    modifies socket
    ensures var w := WriteTwo(old(socket.fates), SentHead(verb, target, headers, |body|), body);
            && socket.written == old(socket.written) + w.landed
            && r == if w.ok then ResponseResult(old(socket.segments), socket.broken) else Err(IoFailed)
  {
    var ok := WriteRequest(socket, verb, target, headers, body);
    if !ok {
      return Err(IoFailed);
    }
    r := ReadResponse(socket);
  }

  // ----- requests that can be sent -----

  ghost predicate IsSendableHeader(h: Header) {
    IsToken(h.0) && All(h.1, IsFieldByte) && IsTrimmed(h.1, IsOws)
    && IsUnrelated(h) && !EqIgnoreCase(h.0, UPGRADE)
  }

  /** A request a well-behaved client may send: at most 126 trimmed, well-formed headers that
      leave framing alone, and a head within the limit. */
  ghost predicate IsSendable(verb: string, target: string, headers: seq<Header>, bodyLen: nat) {
    && IsToken(verb) && IsTarget(target) && |headers| + 2 <= MAX_HEADERS
    && (forall i :: 0 <= i < |headers| ==> IsSendableHeader(headers[i]))
    && |SentHead(verb, target, headers, bodyLen)| <= MAX_HEAD_LEN
  }

  function SentField(h: Header): Field {
    Field(h.0, " ", h.1, "")
  }

  function SentFields(hs: seq<Header>): (r: seq<Field>)
    ensures |r| == |hs| && forall i :: 0 <= i < |hs| ==> r[i] == SentField(hs[i])
  {
    seq(|hs|, i requires 0 <= i < |hs| => SentField(hs[i]))
  }

  lemma FieldLineIsHeaderLine(h: Header)
    ensures FieldLine(SentField(h)) == HeaderLine(h)
  {
    assert h.0 + ":" + (" " + h.1 + "") == h.0 + (": " + h.1);
  }

  lemma SentFieldLines(hs: seq<Header>)
    ensures FieldLines(SentFields(hs)) == HeaderLines(hs) && Pairs(SentFields(hs)) == hs
  {
    hide FieldLine;
    hide HeaderLine;
    forall i | 0 <= i < |hs| ensures FieldLine(SentField(hs[i])) == HeaderLine(hs[i]) {
      FieldLineIsHeaderLine(hs[i]);
    }
  }

  lemma OwnHeadersAreFields(n: nat)
    ensures IsField(SentField(HOST)) && IsField(SentField(("Content-Length", Decimal(n))))
  {
    assert All("Host", IsTokenByte) && All("capability.invalid", IsFieldByte);
    ContentLengthIsToken();
    DecimalIsPlain(n);
    assert forall i :: 0 <= i < |Decimal(n)| ==> IsPrintable(Decimal(n)[i]);
  }

  lemma ContentLengthIsToken()
    ensures IsToken("Content-Length")
  {
    assert "!#$%&'*+-.^_`|~"[8] == '-';
    assert forall i :: 0 <= i < 14 ==> IsAlphanumeric("Content-Length"[i]) || "Content-Length"[i] == '-';
  }

  lemma SentAreFields(headers: seq<Header>, n: nat)
    requires forall i :: 0 <= i < |headers| ==> IsSendableHeader(headers[i])
    ensures AreFields(SentFields(SentHeaders(headers, n)))
  {
    OwnHeadersAreFields(n);
    var hs := SentHeaders(headers, n);
    hide IsUnrelated;
    hide IsTrimmed;
    hide EqIgnoreCase;
    forall i | 0 <= i < |hs| ensures IsField(SentField(hs[i])) {
      if 1 <= i <= |headers| {
        assert hs[i] == headers[i - 1];
        assert IsSendableHeader(headers[i - 1]);
      }
    }
  }

  function SentFraming(n: nat): BodyFraming {
    if n == 0 then NoBody else Length(n)
  }

  lemma OwnLengthFrames(n: nat)
    requires n <= MAX_U64
    ensures FramingOf([("Content-Length", Decimal(n))]) == Ok(SentFraming(n))
  {
    var h := ("Content-Length", Decimal(n));
    ContentLengthFolds();
    DecimalIsPlain(n);
    DecimalRoundTrip(n);
    TrimOfTrimmed(Decimal(n), IsWhite);
    ScanAppend([], h);
    assert [] + [h] == [h];
  }

  lemma ContentLengthFolds()
    ensures EqIgnoreCase("Content-Length", CONTENT_LENGTH) && !EqIgnoreCase("Content-Length", UPGRADE)
  {
    assert |CONTENT_LENGTH| == 14 && |UPGRADE| == 7;
  }

  lemma HostIsUnrelated()
    ensures IsUnrelated(HOST) && !EqIgnoreCase(HOST.0, UPGRADE)
  {
    assert |HOST.0| == 4 && |CONTENT_LENGTH| == 14 && |TRANSFER_ENCODING| == 17 && |UPGRADE| == 7;
  }

  lemma SentHeadersFrame(headers: seq<Header>, n: nat)
    requires n <= MAX_U64 && forall i :: 0 <= i < |headers| ==> IsSendableHeader(headers[i])
    ensures FramingOf(SentHeaders(headers, n)) == Ok(SentFraming(n))
    ensures FindHeader(SentHeaders(headers, n), UPGRADE).None?
  {
    hide EqIgnoreCase;
    hide IsUnrelated;
    hide IsToken;
    hide FramingOf;
    var own, others, hs := [("Content-Length", Decimal(n))], [HOST] + headers, SentHeaders(headers, n);
    HostIsUnrelated();
    ContentLengthFolds();
    forall i | 0 <= i < |others| ensures IsUnrelated(others[i]) {
      if i > 0 {
        assert IsSendableHeader(headers[i - 1]);
      }
    }
    FramingIgnoresUnrelated([], others, own);
    assert [] + others + own == hs && [] + own == own;
    OwnLengthFrames(n);
    forall i | 0 <= i < |hs| ensures !EqIgnoreCase(hs[i].0, UPGRADE) {
      if 1 <= i <= |headers| {
        assert hs[i] == headers[i - 1];
        assert IsSendableHeader(headers[i - 1]);
      }
    }
    FindHeaderIsExact(hs, UPGRADE);
  }

  // ----- the round trip -----

  function SentRequest(verb: string, target: string, headers: seq<Header>, n: nat): RequestHead {
    RequestHead(verb, target, Http11, SentHeaders(headers, n), SentFraming(n))
  }

  /** The head the client writes spells exactly the request it means. */
  lemma SentHeadSpells(verb: string, target: string, headers: seq<Header>, n: nat)
    requires n <= MAX_U64 && IsSendable(verb, target, headers, n)
    ensures Spells(SentHead(verb, target, headers, n), SentRequest(verb, target, headers, n),
                   SentFields(SentHeaders(headers, n)))
  {
    hide RequestLine;
    hide JoinLines;
    hide FramingOf;
    hide IsSendableHeader;
    hide IsField;
    SentFieldLines(SentHeaders(headers, n));
    SentAreFields(headers, n);
    SentHeadersFrame(headers, n);
  }

  /** The daemon reads back method, target, headers and body from the bytes the client wrote,
      whatever follows them. */
  lemma RequestsRoundTrip(verb: string, target: string, headers: seq<Header>, body: bytes, tail: bytes, limit: nat)
    requires IsSendable(verb, target, headers, |body|) && |body| <= limit <= MAX_U64
    ensures FindHeadEnd(SentHead(verb, target, headers, |body|) + (body + tail))
            == Some(|SentHead(verb, target, headers, |body|)|)
    ensures RequestOf(SentHead(verb, target, headers, |body|) + (body + tail), limit)
            == Ok((SentRequest(verb, target, headers, |body|), body))
  {
    hide IsSendable;
    hide Spells;
    hide SentFields;
    hide SentHead;
    hide Parse;
    hide FindHeadEnd;
    var head, h := SentHead(verb, target, headers, |body|), SentRequest(verb, target, headers, |body|);
    var stream := head + (body + tail);
    SentHeadSpells(verb, target, headers, |body|);
    SpelledHeadParses(head, h, SentFields(SentHeaders(headers, |body|)));
    HeadEndIsStable(head, stream);
    assert stream[..|head|] == head && stream[|head|..] == body + tail;
    assert (body + tail)[..|body|] == body;
  }

  /** And under every segmentation: the incremental readers return the same request. */
  lemma RequestsArrive(verb: string, target: string, headers: seq<Header>, body: bytes, tail: bytes,
                       limit: nat, segs: seq<bytes>)
    requires IsSendable(verb, target, headers, |body|) && |body| <= limit <= MAX_U64
    requires Segments(segs) && Flatten(segs) == SentHead(verb, target, headers, |body|) + (body + tail)
    ensures var p := Accumulate(WholeHead, [], segs);
            && HeadResult(p).Ok? && HeadResult(p).value.0 == SentRequest(verb, target, headers, |body|)
            && BodyResult(SentFraming(|body|), limit,
                          BodyProgress(SentFraming(|body|), limit, HeadResult(p).value.1, p.rest)) == Ok(body)
  {
    hide IsSendable;
    hide SentHead;
    hide Accumulate;
    hide HeadResult;
    hide HeadOf;
    hide BodyResult;
    hide BodyProgress;
    RequestsRoundTrip(verb, target, headers, body, tail, limit);
    HeadIsOneShot(segs);
    AccumulateKeepsBytes(WholeHead, [], segs);
    var p := Accumulate(WholeHead, [], segs);
    BodyIsOneShot(SentFraming(|body|), limit, HeadResult(p).value.1, p.rest);
  }
}
