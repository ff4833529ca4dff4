/** Whole requests as text: what a request looks like on the wire, and how it is read. */
module RequestText {
  import opened Octets
  import opened Errors
  import opened Framing
  import opened FramingRules
  import opened Request
  import opened RequestGrammar
  import opened RequestRules
  import opened Response
  import opened ResponseRules
  import opened ChunkedText
  import opened ChunkedMachine
  import opened ChunkedWords
  import opened Readers
  import opened WholeRequests
  import opened Exchange

  // ----- a request head as text -----

  function FieldText(fs: seq<Field>): bytes {
    if fs == [] then []
    else fs[0].name + ":" + (fs[0].pre + fs[0].value + fs[0].post) + "\r\n" + FieldText(fs[1..])
  }

  function VersionName(version: Version): bytes {
    match version
    case Http10 => "HTTP/1.0"
    case Http11 => "HTTP/1.1"
  }

  /** The request line, the header lines, an empty line. */
  function HeadText(h: RequestHead, fs: seq<Field>): bytes {
    h.verb + " " + (h.target + " " + VersionName(h.version)) + "\r\n" + FieldText(fs) + "\r\n"
  }

  lemma {:induction false} FieldLinesAreText(fs: seq<Field>)
    ensures JoinLines(FieldLines(fs)) == FieldText(fs)
  {
    hide FieldLine;
    if fs != [] {
      FirstField(fs);
      FieldLinesAreText(fs[1..]);
      RequestGrammar.JoinFirst(FieldLine(fs[0]), FieldLines(fs[1..]));
      LineOfField(fs[0]);
    }
  }

  lemma LineOfField(f: Field)
    ensures FieldLine(f) == f.name + ":" + (f.pre + f.value + f.post)
  {
  }

  lemma HeadIsText(h: RequestHead, fs: seq<Field>)
    ensures HeadBytes(h.verb, h.target, h.version, fs) == HeadText(h, fs)
  {
    hide JoinLines;
    hide FieldText;
    FieldLinesAreText(fs);
    RequestGrammar.JoinFirst(RequestLine(h.verb, h.target, h.version), FieldLines(fs));
  }

  // ----- which requests are read -----

  /** A request head: a token, a printable target, at most 128 fields that declare the framing and ask
      for no upgrade, all in at most 65536 bytes. */
  ghost predicate IsHead(h: RequestHead, fs: seq<Field>) {
    && IsToken(h.verb) && IsTarget(h.target) && AreFields(fs) && |fs| <= 128 && h.headers == Pairs(fs)
    && Declares(h.headers, h.framing) && !AsksForUpgrade(h.headers) && |HeadText(h, fs)| <= 65536
  }

  lemma HeadByRule(buf: bytes, h: RequestHead, fs: seq<Field>)
    ensures Spells(buf, h, fs) <==> IsHead(h, fs) && buf == HeadText(h, fs)
  {
    hide IsToken;
    hide IsTarget;
    hide AreFields;
    hide FramingOf;
    hide Declares;
    hide FindHeader;
    hide AsksForUpgrade;
    hide HeadBytes;
    hide HeadText;
    HeadIsText(h, fs);
    FramingFollowsTheRules(h.headers, h.framing);
    UpgradeByName(h.headers);
  }

  ghost predicate IsRequestText(stream: bytes, limit: nat, h: RequestHead, body: bytes, fs: seq<Field>, wire: bytes) {
    IsHead(h, fs) && Carries(h.framing, limit, wire, body) && HeadText(h, fs) + wire <= stream
  }

  /** A stream is read as a request exactly when it begins with the text of one. */
  lemma RequestsAreRead(stream: bytes, limit: nat, h: RequestHead, body: bytes)
    ensures RequestOf(stream, limit) == Ok((h, body))
            <==> exists fs, wire :: IsRequestText(stream, limit, h, body, fs, wire)
  {
    hide Spells;
    hide IsHead;
    hide Carries;
    hide RequestOf;
    hide HeadText;
    RequestIsExact(stream, limit, h, body);
    if RequestOf(stream, limit) == Ok((h, body)) {
      var buf, fs, wire :| SpellsRequest(stream, limit, h, body, buf, fs, wire);
      HeadByRule(buf, h, fs);
      assert IsRequestText(stream, limit, h, body, fs, wire);
    }
    if fs, wire :| IsRequestText(stream, limit, h, body, fs, wire) {
      HeadByRule(HeadText(h, fs), h, fs);
      assert SpellsRequest(stream, limit, h, body, HeadText(h, fs), fs, wire);
    }
  }

  // ----- head and body by themselves -----

  /** A head is read exactly where a stream begins with the text of one. */
  lemma HeadsAreRead(stream: bytes, h: RequestHead, rest: bytes)
    ensures HeadOf(stream) == Ok((h, rest)) <==> exists fs :: IsHead(h, fs) && stream == HeadText(h, fs) + rest
  {
    hide Spells;
    hide IsHead;
    hide HeadOf;
    hide HeadText;
    if HeadOf(stream) == Ok((h, rest)) {
      var buf, fs := ReadHeadIsSpelled(stream);
      HeadByRule(buf, h, fs);
      assert stream == HeadText(h, fs) + rest;
    }
    if fs :| IsHead(h, fs) && stream == HeadText(h, fs) + rest {
      HeadByRule(HeadText(h, fs), h, fs);
      SpelledHeadIsRead(stream, HeadText(h, fs), h, fs);
      assert stream[|HeadText(h, fs)|..] == rest;
    }
  }

  /** A line ends here, and an empty one follows. */
  ghost predicate ClosesAt(stream: bytes, i: nat) {
    i + 4 <= |stream| && stream[i..i + 4] == "\r\n\r\n"
  }

  /** The head of the stream ends after its first empty line. */
  ghost predicate EndsAt(stream: bytes, end: nat) {
    4 <= end && ClosesAt(stream, end - 4) && forall i: nat :: i < end - 4 ==> !ClosesAt(stream, i)
  }

  lemma ClosingIsHeadEnd(stream: bytes, i: nat)
    ensures ClosesAt(stream, i) <==> HeadEndAt(stream, i)
  {
    if i + 4 <= |stream| {
      var part := stream[i..i + 4];
      assert part[0] == stream[i] && part[1] == stream[i + 1] && part[2] == stream[i + 2] && part[3] == stream[i + 3];
      assert HeadEndAt(stream, i) ==> part == ['\r', '\n', '\r', '\n'];
    }
  }

  lemma EndIsFound(stream: bytes, end: nat)
    ensures FindHeadEnd(stream) == Some(end) <==> EndsAt(stream, end)
  {
    forall i: nat ensures ClosesAt(stream, i) <==> HeadEndAt(stream, i) {
      ClosingIsHeadEnd(stream, i);
    }
    hide ClosesAt;
    hide HeadEndAt;
    if EndsAt(stream, end) {
      assert HeadEndAt(stream, end - 4);
    }
  }

  /** Why no head is read: its end does not come in time, or ever; or what is cut off there is
      refused. */
  ghost predicate IsHeadRefusal(stream: bytes, broken: bool, e: CoreError) {
    if exists end :: EndsAt(stream, end) then
      exists end: nat, x :: EndsAt(stream, end) && IsRefusedFor(stream, end, x) && e == Http(x)
    else if |stream| > 65536 then e == Http(HeadTooLarge)
    else e == if broken then IoFailed else Handshake(ClosedBeforeHead)
  }

  ghost predicate IsRefusedFor(stream: bytes, end: nat, x: HttpError) {
    end <= |stream| && IsReason(stream[..end], x)
  }

  lemma HeadRefusals(stream: bytes, broken: bool, e: CoreError)
    ensures IsHeadRefusal(stream, broken, e)
            <==> HeadOf(stream).Err?
                 && e == if broken && HeadIsMissing(stream) then IoFailed else HeadOf(stream).error
  {
    hide FindHeadEnd;
    hide Parse;
    hide IsReason;
    hide EndsAt;
    var found := FindHeadEnd(stream);
    if found.Some? {
      var n := found.value;
      EndIsFound(stream, n);
      forall end: nat | EndsAt(stream, end) ensures end == n {
        EndIsFound(stream, end);
      }
      forall x ensures IsRefusedFor(stream, n, x) <==> Parse(stream[..n]) == Err(x) {
        HeadErrors(stream[..n], x);
      }
    } else {
      forall end: nat ensures !EndsAt(stream, end) {
        EndIsFound(stream, end);
      }
    }
  }

  /** Why no body is read: a length beyond the limit, or beyond the stream; chunks that the decoder
      refuses, cannot finish, or stops at. */
  ghost predicate IsBodyRefusal(framing: BodyFraming, limit: nat, rest: bytes, broken: bool, e: CoreError) {
    match framing
    case NoBody => false
    case Length(n) =>
      if n > limit then e == Denial(Denied.TooLarge(RequestLeg, limit))
      else |rest| < n && e == if broken then IoFailed else Handshake(ClosedInBody(|rest|, n))
    case ChunkedBody => IsChunkedRefusal(MachineDecode(rest, limit), limit, |rest|, broken, e)
  }

  ghost predicate IsChunkedRefusal(o: MachineOutcome, limit: nat, n: nat, broken: bool, e: CoreError) {
    match o
    case Panicked => e == Stopped
    case Answer(Complete(_, _)) => false
    case Answer(Rejected(x)) => e == Http(x)
    case Answer(NeedMore) =>
      if n > 2 * limit + 4096 || n > 0xFFFF_FFFF_FFFF_FFFF then e == Denial(Denied.TooLarge(RequestLeg, limit))
      else e == if broken then IoFailed else Http(BadChunk)
  }

  lemma BodyRefusals(framing: BodyFraming, limit: nat, rest: bytes, broken: bool, e: CoreError)
    ensures IsBodyRefusal(framing, limit, rest, broken, e)
            <==> BodyOf(framing, limit, rest).Err?
                 && e == if broken && BodyIsMissing(framing, limit, rest) then IoFailed
                         else BodyOf(framing, limit, rest).error
  {
    hide MachineDecode;
  }

  /** A body is read exactly where the stream goes on with one. */
  lemma BodiesAreRead(framing: BodyFraming, limit: nat, rest: bytes, body: bytes)
    ensures BodyOf(framing, limit, rest) == Ok(body)
            <==> exists wire :: Carries(framing, limit, wire, body) && wire <= rest
  {
    hide Carries;
    hide BodyOf;
    if BodyOf(framing, limit, rest) == Ok(body) {
      var wire := ReadBodyIsCarried(framing, limit, rest);
    }
    if wire :| Carries(framing, limit, wire, body) && wire <= rest {
      CarriedBodyIsRead(framing, limit, wire, body, rest);
    }
  }

  /** Any data, cut into any chunks, after a head whose only framing header is a chunked coding, is
      read back whole as the body, whatever follows. */
  lemma ChunkedRequestsAreRead(stream: bytes, limit: nat, h: RequestHead, fs: seq<Field>, pieces: seq<bytes>,
                               upper: bool)
    requires IsHead(h, fs) && NoLength(h.headers) && OneChunkedCoding(h.headers)
    requires ArePieces(pieces) && |Concatenated(pieces)| <= limit && |ChunkedBytes(pieces, upper)| < WORD
    requires HeadText(h, fs) + (ChunkedBytes(pieces, upper) + "0\r\n\r\n") <= stream
    ensures h.framing == ChunkedBody
    ensures RequestOf(stream, limit) == Ok((h, Concatenated(pieces)))
  {
    var wire := ChunkedBytes(pieces, upper) + "0\r\n\r\n";
    DataRoundTrip(pieces, upper, [], limit);
    FramingFollowsTheRules(h.headers, h.framing);
    FramingFollowsTheRules(h.headers, ChunkedBody);
    hide IsHead;
    hide RequestOf;
    hide HeadText;
    hide EncodesInWords;
    hide FramingOf;
    hide NoLength;
    hide OneChunkedCoding;
    RequestsAreRead(stream, limit, h, Concatenated(pieces));
    assert IsRequestText(stream, limit, h, Concatenated(pieces), fs, wire);
  }

  // ----- the client's own request -----

  /** The head that the client writes: its placeholder host, its headers, the length of its body. */
  lemma SentByText(verb: string, target: string, headers: seq<Header>, n: nat)
    ensures SentHead(verb, target, headers, n)
            == verb + " " + target + " HTTP/1.1\r\n" + "Host: capability.invalid\r\n" + HeaderText(headers)
               + "Content-Length: " + Decimal(n) + "\r\n" + "\r\n"
  {
    hide Decimal;
    hide HeaderText;
    hide JoinLines;
    hide RequestLine;
    var hs, own := SentHeaders(headers, n), [("Content-Length", Decimal(n))];
    var start := RequestLine(verb, target, Http11);
    HeaderLinesAreText(hs);
    HeaderTextConcat([HOST] + headers, own);
    HeaderTextConcat([HOST], headers);
    OneHeaderText(HOST);
    OneHeaderText(own[0]);
    RequestGrammar.JoinFirst(start, HeaderLines(hs));
    StartText(verb, target);
    var a, c := start + CRLF, HeaderText(headers);
    var b, d := "Host: capability.invalid\r\n", "Content-Length: " + Decimal(n) + "\r\n";
    assert HeaderText([HOST]) == b;
    assert HeaderText(own) == d;
    Assoc(a, b + c, d);
    Assoc(a, b, c);
    Assoc(a + b + c, "Content-Length: " + Decimal(n), "\r\n");
    Assoc(a + b + c, "Content-Length: ", Decimal(n));
  }

  lemma StartText(verb: string, target: string)
    ensures RequestLine(verb, target, Http11) + CRLF == verb + " " + target + " HTTP/1.1\r\n"
  {
    Assoc(verb + " ", target, " " + "HTTP/1.1");
    assert target + " " + "HTTP/1.1" == target + (" " + "HTTP/1.1");
    assert " " + "HTTP/1.1" + "\r\n" == " HTTP/1.1\r\n";
    Assoc(verb + " " + target, " " + "HTTP/1.1", "\r\n");
  }

  lemma OneHeaderText(h: Header)
    ensures HeaderText([h]) == h.0 + ": " + h.1 + "\r\n"
  {
    assert [h][1..] == [];
  }
}
