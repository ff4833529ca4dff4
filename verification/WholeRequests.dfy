/** Whole requests, head and body: exactly the byte strings that are read as one. */
module WholeRequests {
  import opened Octets
  import opened Framing
  import opened Request
  import opened RequestGrammar
  import opened ChunkedMachine
  import opened ChunkedWords
  import opened Reading
  import opened Readers

  /** `wire` carries `body` under a framing, within the limit. */
  ghost predicate Carries(framing: BodyFraming, limit: nat, wire: bytes, body: bytes) {
    match framing
    case NoBody => wire == [] && body == []
    case Length(len) => wire == body && |body| == len <= limit
    case ChunkedBody => EncodesInWords(wire, body) && |body| <= limit
  }

  /** The stream is a head that spells `h`, a body, and anything after them. */
  ghost predicate SpellsRequest(stream: bytes, limit: nat, h: RequestHead, body: bytes,
                                buf: bytes, fs: seq<Field>, wire: bytes) {
    Spells(buf, h, fs) && Carries(h.framing, limit, wire, body) && buf + wire <= stream
  }

  lemma CarriedBodyIsRead(framing: BodyFraming, limit: nat, wire: bytes, body: bytes, stream: bytes)
    requires Carries(framing, limit, wire, body) && wire <= stream
    ensures BodyOf(framing, limit, stream) == Ok(body)
  {
    hide MachineDecode;
    assert stream[..|wire|] == wire;
    if framing.ChunkedBody? {
      MachineAcceptsExactly(stream, limit, body, |wire|);
    }
  }

  lemma ReadBodyIsCarried(framing: BodyFraming, limit: nat, stream: bytes) returns (wire: bytes)
    requires BodyOf(framing, limit, stream).Ok?
    ensures wire <= stream && Carries(framing, limit, wire, BodyOf(framing, limit, stream).value)
  {
    hide MachineDecode;
    match framing
    case NoBody => wire := [];
    case Length(len) => wire := stream[..len];
    case ChunkedBody =>
      var d := MachineDecode(stream, limit).outcome;
      MachineAcceptsExactly(stream, limit, d.body, d.consumed);
      wire := stream[..d.consumed];
  }

  lemma SpelledHeadIsRead(stream: bytes, buf: bytes, h: RequestHead, fs: seq<Field>)
    requires Spells(buf, h, fs) && buf <= stream
    ensures HeadOf(stream) == Ok((h, stream[|buf|..]))
  {
    hide Spells;
    hide Parse;
    hide FindHeadEnd;
    SpelledHeadParses(buf, h, fs);
    HeadEndIsStable(buf, stream);
    assert stream[..|buf|] == buf;
  }

  lemma ReadHeadIsSpelled(stream: bytes) returns (buf: bytes, fs: seq<Field>)
    requires HeadOf(stream).Ok?
    ensures buf <= stream && Spells(buf, HeadOf(stream).value.0, fs) && HeadOf(stream).value.1 == stream[|buf|..]
  {
    hide Spells;
    hide Parse;
    hide FindHeadEnd;
    var end := FindHeadEnd(stream).value;
    buf := stream[..end];
    HeadEndWithin(stream, buf);
    HeadEndIsStable(buf, stream);
    fs := ParsedHeadIsSpelled(buf, HeadOf(stream).value.0);
  }

  /** A stream is read as a request exactly when it begins with one, in any spelling: any
      version, case, whitespace and order of headers, and any framing of the body. */
  lemma RequestIsExact(stream: bytes, limit: nat, h: RequestHead, body: bytes)
    ensures RequestOf(stream, limit) == Ok((h, body))
            <==> exists buf, fs, wire :: SpellsRequest(stream, limit, h, body, buf, fs, wire)
  {
    hide Spells;
    hide Carries;
    hide HeadOf;
    hide BodyOf;
    if RequestOf(stream, limit) == Ok((h, body)) {
      var buf, fs := ReadHeadIsSpelled(stream);
      var rest := stream[|buf|..];
      var wire := ReadBodyIsCarried(h.framing, limit, rest);
      assert stream == buf + rest && rest == wire + rest[|wire|..];
      Assoc(buf, wire, rest[|wire|..]);
      assert SpellsRequest(stream, limit, h, body, buf, fs, wire);
    }
    if buf, fs, wire :| SpellsRequest(stream, limit, h, body, buf, fs, wire) {
      SpelledHeadIsRead(stream, buf, h, fs);
      assert stream == buf + wire + stream[|buf + wire|..];
      assert wire <= stream[|buf|..];
      CarriedBodyIsRead(h.framing, limit, wire, body, stream[|buf|..]);
    }
  }

  /** A request is settled when it is not chunked, or its chunked body ends at most one byte past
      the guard. */
  lemma SpelledRequestIsSettled(stream: bytes, limit: nat, h: RequestHead, body: bytes,
                                buf: bytes, fs: seq<Field>, wire: bytes)
    requires SpellsRequest(stream, limit, h, body, buf, fs, wire)
    ensures SettledRequest(limit, stream) <==> (h.framing.ChunkedBody? ==> |wire| <= ChunkedGuard(limit) + 1)
  {
    hide Spells;
    hide HeadOf;
    hide Deciding;
    hide MachineDecode;
    SpelledHeadIsRead(stream, buf, h, fs);
    if h.framing.ChunkedBody? {
      var rest := stream[|buf|..];
      assert stream == buf + wire + stream[|buf + wire|..];
      assert rest[..|wire|] == wire;
      MachineAcceptsExactly(rest, limit, body, |wire|);
      CompleteIsDecidedByItself(rest, limit, body, |wire|);
    }
  }
}
