/** The daemon's readers over a socket, and the one-shot functions of the whole stream that
    they compute however the socket cuts the stream. */
module Readers {
  import opened Octets
  import opened Errors
  import opened Framing
  import opened Request
  import opened Chunked
  import opened ChunkedMachine
  import opened ChunkedWords
  import opened Reading

  /** What one or more writes come to: the bytes that got out, whether all went well, and the
      fates of the writes still to come. */
  datatype Write = Write(landed: bytes, ok: bool, fates: seq<Option<nat>>)

  /** A write goes well, or fails after some bytes. */
  function WriteOne(fates: seq<Option<nat>>, data: bytes): Write {
    if fates == [] then Write(data, true, [])
    else match fates[0]
         case None => Write(data, true, fates[1..])
         case Some(n) => Write(if n < |data| then data[..n] else data, false, fates[1..])
  }

  /** A head and a body, written one after the other until a write fails. */
  function WriteTwo(fates: seq<Option<nat>>, head: bytes, body: bytes): (w: Write)
    ensures w.ok ==> w.landed == head + body
    ensures fates == [] ==> w.ok && w.fates == []
  {
    var first := WriteOne(fates, head);
    if !first.ok then first
    else
      var second := WriteOne(first.fates, body);
      Write(first.landed + second.landed, second.ok, second.fates)
  }

  function Smaller(a: nat, b: nat): nat {
    if a < b then a else b
  }

  /** Both go well unless one is fated to fail, and then that one gets out as far as it is fated to. */
  lemma WritesByFate(fates: seq<Option<nat>>, head: bytes, body: bytes)
    ensures var w := WriteTwo(fates, head, body);
            if |fates| > 0 && fates[0].Some? then !w.ok && w.landed == head[..Smaller(fates[0].value, |head|)]
            else if |fates| > 1 && fates[1].Some? then
              !w.ok && w.landed == head + body[..Smaller(fates[1].value, |body|)]
            else w.ok && w.landed == head + body
  {
    assert head[..|head|] == head && body[..|body|] == body;
  }

  /** One end of a stream socket: the pieces that successive reads will return, then the end
      of the stream or a failure; and what has been written, and the fates of coming writes.
      Every segmentation of every stream is a value of `segments`. */
  class Socket {
    var segments: seq<bytes>
    const broken: bool
    var written: bytes
    var fates: seq<Option<nat>>

    constructor (segments: seq<bytes>, broken: bool, fates: seq<Option<nat>>)
      requires Segments(segments)
      ensures this.segments == segments && this.broken == broken && this.fates == fates
      ensures written == [] && Valid()
    {
      this.segments := segments;
      this.broken := broken;
      this.fates := fates;
      written := [];
    }

    ghost predicate Valid()
      reads this
    {
      Segments(segments)
    }

    /** An empty result is the end of the stream, and none is a failure. */
    method Read() returns (chunk: Option<bytes>)
      requires Valid()
      modifies this`segments
      ensures Valid() && (chunk.Some? ==> |chunk.value| <= READ_SIZE)
      ensures old(segments) == [] ==> chunk == (if broken then None else Some([])) && segments == []
      ensures old(segments) != [] ==> chunk.Some? && chunk.value != [] && [chunk.value] + segments == old(segments)
    {
      if segments == [] {
        chunk := if broken then None else Some([]);
      } else {
        chunk := Some(segments[0]);
        segments := segments[1..];
      }
    }

    method WriteAll(data: bytes) returns (ok: bool)
      modifies this`written, this`fates
      ensures var w := WriteOne(old(fates), data);
              ok == w.ok && written == old(written) + w.landed && fates == w.fates
    {
      var w := WriteOne(fates, data);
      written := written + w.landed;
      fates := w.fates;
      ok := w.ok;
    }
  }

  /** A failing read interrupts a reader that would otherwise have met the end of the stream. */
  function Interrupted<T>(broken: bool, p: Progress, r: Result<T, CoreError>): Result<T, CoreError> {
    if broken && p.verdict == Ended then Err(IoFailed) else r
  }

  // ----- reading a request head -----

  function HeadResult(p: Progress): Result<(RequestHead, bytes), CoreError> {
    match p.verdict
    case Finished =>
      (match FindHeadEnd(p.buf)
       case None => Err(Malformed)
       case Some(end) =>
         match Parse(p.buf[..end])
         case Err(e) => Err(Http(e))
         case Ok(head) => Ok((head, p.buf[end..])))
    case Overgrown => Err(Http(HeadTooLarge))
    case Ended => Err(Handshake(ClosedBeforeHead))
  }

  method ReadHead(socket: Socket) returns (r: Result<(RequestHead, bytes), CoreError>)
    requires socket.Valid()
    modifies socket`segments
    ensures socket.Valid()
    ensures var p := Accumulate(WholeHead, [], old(socket.segments));
            socket.segments == p.rest && r == Interrupted(socket.broken, p, HeadResult(p))
  {
    var buf: bytes := [];
    while true
      invariant socket.Valid()
      invariant Accumulate(WholeHead, buf, socket.segments) == Accumulate(WholeHead, [], old(socket.segments))
      decreases |socket.segments|
    {
      var found := FindHeadEnd(buf);
      if found.Some? {
        var head := ParseHead(buf[..found.value]);
        if head.Err? {
          return Err(Http(head.error));
        }
        return Ok((head.value, buf[found.value..]));
      }
      if |buf| > MAX_HEAD_LEN {
        return Err(Http(HeadTooLarge));
      }
      ghost var segs := socket.segments;
      var chunk := socket.Read();
      if chunk.None? {
        return Err(IoFailed);
      }
      if chunk.value == [] {
        return Err(Handshake(ClosedBeforeHead));
      }
      assert segs[0] == chunk.value && segs[1..] == socket.segments;
      buf := buf + chunk.value;
    }
  }

  /** The head at the front of a whole stream, and what follows it. */
  function HeadOf(stream: bytes): Result<(RequestHead, bytes), CoreError> {
    match FindHeadEnd(stream)
    case Some(end) =>
      (match Parse(stream[..end])
       case Err(e) => Err(Http(e))
       case Ok(head) => Ok((head, stream[end..])))
    case None =>
      if |stream| > MAX_HEAD_LEN then Err(Http(HeadTooLarge)) else Err(Handshake(ClosedBeforeHead))
  }

  /** The stream ends before its head does. */
  predicate HeadIsMissing(stream: bytes) {
    FindHeadEnd(stream).None? && |stream| <= MAX_HEAD_LEN
  }

  lemma HeadEndReached(s: bytes)
    ensures Deciding(WholeHead, s).Some? <==> FindHeadEnd(s).Some?
  {
    hide Deciding;
    hide FindHeadEnd;
    ReachedFromDeciding(WholeHead, s, |s|);
    assert s[..|s|] == s;
  }

  /** Reading the head is one function of the stream: the same error, or the same head with
      the leftover and the unread bytes together being exactly the remainder. */
  lemma HeadIsOneShot(segs: seq<bytes>)
    requires Segments(segs)
    ensures var p, whole := Accumulate(WholeHead, [], segs), HeadOf(Flatten(segs));
            && HeadResult(p).Ok? == whole.Ok?
            && (whole.Err? ==> HeadResult(p).error == whole.error)
            && (whole.Ok? ==> HeadResult(p).value.0 == whole.value.0
                              && HeadResult(p).value.1 + Flatten(p.rest) == whole.value.1)
            && (p.verdict == Ended <==> HeadIsMissing(Flatten(segs)))
  {
    hide Parse;
    hide Deciding;
    hide Accumulate;
    hide HeadOf;
    var p := Accumulate(WholeHead, [], segs);
    AccumulateKeepsBytes(WholeHead, [], segs);
    VerdictOfStream(WholeHead, [], segs);
    assert [] + Flatten(segs) == Flatten(segs);
    HeadEndReached(Flatten(segs));
    if p.verdict == Finished {
      FinishedHead(p.buf, Flatten(p.rest));
    } else {
      UnfinishedHead(p.buf, Flatten(p.rest));
    }
  }

  lemma FinishedHead(buf: bytes, more: bytes)
    requires FindHeadEnd(buf).Some?
    ensures var end := FindHeadEnd(buf).value;
            HeadOf(buf + more) == match Parse(buf[..end])
                                  case Err(e) => Err(Http(e))
                                  case Ok(head) => Ok((head, buf[end..] + more))
  {
    hide Parse;
    hide FindHeadEnd;
    var s, end := buf + more, FindHeadEnd(buf).value;
    HeadEndIsStable(buf, s);
    assert s[..end] == buf[..end];
    assert s[end..] == buf[end..] + more;
  }

  /** A stream whose head ends past the limit is refused as too large either way. */
  lemma UnfinishedHead(buf: bytes, more: bytes)
    requires FindHeadEnd(buf).None?
    ensures |buf| > MAX_HEAD_LEN ==> HeadOf(buf + more) == Err(Http(HeadTooLarge))
    ensures |buf| <= MAX_HEAD_LEN && more == [] ==> HeadOf(buf + more) == Err(Handshake(ClosedBeforeHead))
  {
    hide FindHeadEnd;
    var s := buf + more;
    if more == [] {
      assert s == buf;
    }
    if FindHeadEnd(s).Some? && FindHeadEnd(s).value <= |buf| {
      HeadEndWithin(s, buf);
    }
  }

  lemma HeadEndWithin(s: bytes, buf: bytes)
    requires buf <= s && FindHeadEnd(s).Some? && FindHeadEnd(s).value <= |buf|
    ensures FindHeadEnd(buf).Some?
  {
    var i := FirstHeadEnd(s, 0).value;
    assert HeadEndAt(buf, i);
  }

  // ----- reading a request body -----

  function BodyGoal(framing: BodyFraming, limit: nat): Goal {
    match framing
    case NoBody => Bytes(0)
    case Length(len) => Bytes(len)
    case ChunkedBody => WholeChunked(limit)
  }

  function TooLargeRequest(limit: nat): CoreError {
    Denial(Denied.TooLarge(RequestLeg, limit))
  }

  function BodyResult(framing: BodyFraming, limit: nat, p: Progress): Result<bytes, CoreError> {
    match framing
    case NoBody => Ok([])
    case Length(len) =>
      if len > limit then Err(TooLargeRequest(limit))
      else if p.verdict == Finished && len <= |p.buf| then Ok(p.buf[..len])
      else Err(Handshake(ClosedInBody(|p.buf|, len)))
    case ChunkedBody =>
      match p.verdict
      case Finished => ChunkedResult(MachineDecode(p.buf, limit))
      case Overgrown => Err(TooLargeRequest(limit))
      case Ended => Err(Http(BadChunk))
  }

  function ChunkedResult(o: MachineOutcome): Result<bytes, CoreError> {
    match o
    case Panicked => Err(Stopped)
    case Answer(Complete(body, _)) => Ok(body)
    case Answer(Rejected(e)) => Err(Http(e))
    case Answer(NeedMore) => Err(Http(BadChunk))
  }

  /** Whether the framing lets the reader touch the socket at all. */
  predicate ReadsBody(framing: BodyFraming, limit: nat) {
    match framing
    case NoBody => false
    case Length(len) => len <= limit
    case ChunkedBody => true
  }

  function BodyProgress(framing: BodyFraming, limit: nat, leftover: bytes, segs: seq<bytes>): Progress {
    if ReadsBody(framing, limit) then Accumulate(BodyGoal(framing, limit), leftover, segs)
    else Progress(Finished, leftover, segs)
  }

  method ReadBody(socket: Socket, framing: BodyFraming, leftover: bytes, limit: nat)
    returns (r: Result<bytes, CoreError>)
    requires socket.Valid()
    modifies socket`segments
    ensures socket.Valid()
    ensures var p := BodyProgress(framing, limit, leftover, old(socket.segments));
            socket.segments == p.rest && r == Interrupted(socket.broken, p, BodyResult(framing, limit, p))
  {
    match framing {
      case NoBody =>
        return Ok([]);
      case Length(len) =>
        if len > limit {
          return Err(TooLargeRequest(limit));
        }
        r := ReadLength(socket, leftover, len);
      case ChunkedBody =>
        r := ReadChunked(socket, leftover, limit);
    }
  }

  method ReadLength(socket: Socket, leftover: bytes, len: nat) returns (r: Result<bytes, CoreError>)
    requires socket.Valid()
    modifies socket`segments
    ensures socket.Valid()
    ensures var p := Accumulate(Bytes(len), leftover, old(socket.segments));
            socket.segments == p.rest
            && r == Interrupted(socket.broken, p,
                                if p.verdict == Finished && len <= |p.buf| then Ok(p.buf[..len])
                                else Err(Handshake(ClosedInBody(|p.buf|, len))))
  {
    var buf := leftover;
    while |buf| < len
      invariant socket.Valid()
      invariant Accumulate(Bytes(len), buf, socket.segments) == Accumulate(Bytes(len), leftover, old(socket.segments))
      decreases |socket.segments|
    {
      ghost var segs := socket.segments;
      var chunk := socket.Read();
      if chunk.None? {
        return Err(IoFailed);
      }
      if chunk.value == [] {
        return Err(Handshake(ClosedInBody(|buf|, len)));
      }
      assert segs[0] == chunk.value && segs[1..] == socket.segments;
      buf := buf + chunk.value;
    }
    return Ok(buf[..len]);
  }

  method ReadChunked(socket: Socket, leftover: bytes, limit: nat) returns (r: Result<bytes, CoreError>)
    requires socket.Valid()
    modifies socket`segments
    ensures socket.Valid()
    ensures var p := Accumulate(WholeChunked(limit), leftover, old(socket.segments));
            socket.segments == p.rest && r == Interrupted(socket.broken, p, BodyResult(ChunkedBody, limit, p))
  {
    hide MachineDecode;
    var buf := leftover;
    while true
      invariant socket.Valid()
      invariant Accumulate(WholeChunked(limit), buf, socket.segments)
                == Accumulate(WholeChunked(limit), leftover, old(socket.segments))
      decreases |socket.segments|
    {
      var outcome := DecodeChunked(buf, limit);
      match outcome {
        case Panicked => return Err(Stopped);
        case Answer(Complete(body, _)) => return Ok(body);
        case Answer(Rejected(e)) => return Err(Http(e));
        case Answer(NeedMore) =>
      }
      if |buf| > ChunkedGuard(limit) {
        return Err(TooLargeRequest(limit));
      }
      ghost var segs := socket.segments;
      var chunk := socket.Read();
      if chunk.None? {
        return Err(IoFailed);
      }
      if chunk.value == [] {
        return Err(Http(BadChunk));
      }
      assert segs[0] == chunk.value && segs[1..] == socket.segments;
      buf := buf + chunk.value;
    }
  }

  /** The body at the front of the whole stream after the head. */
  function BodyOf(framing: BodyFraming, limit: nat, stream: bytes): Result<bytes, CoreError> {
    match framing
    case NoBody => Ok([])
    case Length(len) =>
      if len > limit then Err(TooLargeRequest(limit))
      else if len <= |stream| then Ok(stream[..len])
      else Err(Handshake(ClosedInBody(|stream|, len)))
    case ChunkedBody =>
      if MachineDecode(stream, limit) == Answer(NeedMore) && |stream| > ChunkedGuard(limit) then
        Err(TooLargeRequest(limit))
      else ChunkedResult(MachineDecode(stream, limit))
  }

  /** The stream ends before the body does. */
  predicate BodyIsMissing(framing: BodyFraming, limit: nat, stream: bytes) {
    match framing
    case NoBody => false
    case Length(len) => |stream| < len <= limit
    case ChunkedBody => MachineDecode(stream, limit) == Answer(NeedMore) && |stream| <= ChunkedGuard(limit)
  }

  /** Reading the body is one function of the stream: always for length framing, and for
      chunked framing when the stream is settled. */
  lemma BodyIsOneShot(framing: BodyFraming, limit: nat, leftover: bytes, segs: seq<bytes>)
    requires Segments(segs)
    requires framing.ChunkedBody? ==> Settled(WholeChunked(limit), leftover + Flatten(segs))
    ensures BodyResult(framing, limit, BodyProgress(framing, limit, leftover, segs))
            == BodyOf(framing, limit, leftover + Flatten(segs))
    ensures BodyProgress(framing, limit, leftover, segs).verdict == Ended
            <==> BodyIsMissing(framing, limit, leftover + Flatten(segs))
  {
    hide Accumulate;
    hide Deciding;
    if ReadsBody(framing, limit) {
      var g, s := BodyGoal(framing, limit), leftover + Flatten(segs);
      var p := Accumulate(g, leftover, segs);
      AccumulateKeepsBytes(g, leftover, segs);
      SettledIsIndependent(g, leftover, segs);
      VerdictOfStream(g, leftover, segs);
      assert s[..|s|] == s;
      ReachedFromDeciding(g, s, |s|);
      if framing.ChunkedBody? {
        if p.verdict == Finished {
          MachineIsStable(p.buf, s, limit);
        }
      } else {
        var len := framing.len;
        assert p.verdict != Overgrown;
        if p.verdict == Finished {
          assert s[..len] == p.buf[..len];
        } else {
          assert p.buf + Flatten(p.rest) == p.buf;
        }
      }
    }
  }

  /** A chunked body that is not settled is read as on the settled stream, or refused for
      its length: nothing else can come of an unlucky segmentation. */
  lemma UnsettledBody(limit: nat, leftover: bytes, segs: seq<bytes>)
    requires Segments(segs)
    ensures var r := BodyResult(ChunkedBody, limit, Accumulate(WholeChunked(limit), leftover, segs));
            r == BodyOf(ChunkedBody, limit, leftover + Flatten(segs)) || r == Err(TooLargeRequest(limit))
  {
    hide Accumulate;
    hide Deciding;
    var g, s := WholeChunked(limit), leftover + Flatten(segs);
    var p := Accumulate(g, leftover, segs);
    AccumulateKeepsBytes(g, leftover, segs);
    VerdictOfStream(g, leftover, segs);
    if p.verdict == Finished {
      MachineIsStable(p.buf, s, limit);
    } else if p.verdict == Ended {
      assert s == p.buf;
    }
  }

  lemma AcceptedBodyFits(buf: bytes, limit: nat)
    ensures ChunkedResult(MachineDecode(buf, limit)).Ok? ==> |ChunkedResult(MachineDecode(buf, limit)).value| <= limit
  {
    match MachineDecode(buf, limit)
    case Answer(Complete(body, consumed)) =>
      hide MachineDecode;
      MachineAcceptsExactly(buf, limit, body, consumed);
    case _ =>
  }

  /** Whatever is returned as a request body fits the limit. */
  lemma BodyFitsLimit(framing: BodyFraming, limit: nat, p: Progress)
    ensures BodyResult(framing, limit, p).Ok? ==> |BodyResult(framing, limit, p).value| <= limit
  {
    hide MachineDecode;
    AcceptedBodyFits(p.buf, limit);
  }

  /** The daemon's reading of a whole request: head, then body. */
  function RequestOf(stream: bytes, limit: nat): Result<(RequestHead, bytes), CoreError> {
    match HeadOf(stream)
    case Err(e) => Err(e)
    case Ok((head, rest)) =>
      match BodyOf(head.framing, limit, rest)
      case Err(e) => Err(e)
      case Ok(body) => Ok((head, body))
  }

  /** The same when the stream ends in a failure: a request that is cut short is not read. */
  function RequestFrom(stream: bytes, limit: nat, broken: bool): Result<(RequestHead, bytes), CoreError> {
    match HeadOf(stream)
    case Err(e) => Err(if broken && HeadIsMissing(stream) then IoFailed else e)
    case Ok((head, rest)) =>
      match BodyOf(head.framing, limit, rest)
      case Err(e) => Err(if broken && BodyIsMissing(head.framing, limit, rest) then IoFailed else e)
      case Ok(body) => Ok((head, body))
  }

  /** What the two readers, one after the other, make of a socket. */
  function ReadRequest(limit: nat, segs: seq<bytes>, broken: bool): Result<(RequestHead, bytes), CoreError> {
    var p := Accumulate(WholeHead, [], segs);
    match Interrupted<(RequestHead, bytes)>(broken, p, HeadResult(p))
    case Err(e) => Err(e)
    case Ok((head, leftover)) =>
      var q := BodyProgress(head.framing, limit, leftover, p.rest);
      match Interrupted<bytes>(broken, q, BodyResult(head.framing, limit, q))
      case Err(e) => Err(e)
      case Ok(body) => Ok((head, body))
  }

  /** A chunked body, if there is one, is decided before the length guard can interfere. */
  ghost predicate SettledRequest(limit: nat, stream: bytes) {
    match HeadOf(stream)
    case Err(_) => true
    case Ok((head, rest)) => head.framing.ChunkedBody? ==> Settled(WholeChunked(limit), rest)
  }

  /** Reading a request, head and then body, is one function of the whole stream. */
  lemma RequestIsOneShot(limit: nat, segs: seq<bytes>, broken: bool)
    requires Segments(segs) && SettledRequest(limit, Flatten(segs))
    ensures ReadRequest(limit, segs, broken) == RequestFrom(Flatten(segs), limit, broken)
    ensures RequestFrom(Flatten(segs), limit, false) == RequestOf(Flatten(segs), limit)
  {
    hide Accumulate;
    hide HeadOf;
    hide HeadResult;
    hide HeadIsMissing;
    hide BodyOf;
    hide BodyResult;
    hide BodyProgress;
    hide BodyIsMissing;
    hide Settled;
    var p := Accumulate(WholeHead, [], segs);
    HeadIsOneShot(segs);
    AccumulateKeepsBytes(WholeHead, [], segs);
    if HeadResult(p).Ok? {
      AcceptedHeadIsFinished(p);
      var (head, leftover) := HeadResult(p).value;
      BodyIsOneShot(head.framing, limit, leftover, p.rest);
      MissingBodyIsRefused(head.framing, limit, leftover + Flatten(p.rest));
    }
  }

  lemma AcceptedHeadIsFinished(p: Progress)
    requires HeadResult(p).Ok?
    ensures p.verdict == Finished
  {
    hide Parse;
    hide FindHeadEnd;
  }

  lemma MissingBodyIsRefused(framing: BodyFraming, limit: nat, stream: bytes)
    ensures BodyIsMissing(framing, limit, stream) ==> BodyOf(framing, limit, stream).Err?
  {
  }

  /** Buffers stay bounded on every run, whatever arrives and however it is cut. */
  lemma BuffersAreBounded(framing: BodyFraming, limit: nat, leftover: bytes, segs: seq<bytes>)
    requires Segments(segs)
    ensures |Accumulate(WholeHead, [], segs).buf| <= MAX_HEAD_LEN + READ_SIZE
    ensures var held := |BodyProgress(framing, limit, leftover, segs).buf|;
            match framing
            case NoBody => held == |leftover|
            case Length(_) => held <= Larger(|leftover|, limit + READ_SIZE - 1)
            case ChunkedBody => held <= Larger(|leftover|, 2 * limit + 4096 + READ_SIZE)
  {
    hide Accumulate;
    AccumulateKeepsBytes(WholeHead, [], segs);
    AccumulateKeepsBytes(BodyGoal(framing, limit), leftover, segs);
  }

  // ----- a legal body that some segmentations refuse -----

  function TinyChunks(n: nat): seq<Chunk> {
    if n == 0 then [] else [Chunk("1", "x")] + TinyChunks(n - 1)
  }

  lemma {:induction false} TinyChunksSize(n: nat)
    ensures AreChunks(TinyChunks(n)) && |ChunksBytes(TinyChunks(n))| == 6 * n && |Payload(TinyChunks(n))| == n
  {
    if n > 0 {
      TinyChunksSize(n - 1);
      var cs := TinyChunks(n);
      assert cs[1..] == TinyChunks(n - 1);
      assert HexValue("1") == 1 by {
        assert "1"[..0] == "";
      }
    }
  }

  /** 1024 chunks of one byte fill a limit of 1024 bytes exactly, and whether they are
      accepted depends on how the socket cuts them. */
  lemma TinyChunksDependOnCutting()
    ensures var s := Wire(TinyChunks(1024), "0");
            MachineDecode(s, 1024) == Answer(Complete(Payload(TinyChunks(1024)), |s|))
            && !CuttingIsIrrelevant(WholeChunked(1024), s)
  {
    hide TinyChunks;
    hide MachineDecode;
    hide Deciding;
    TinyChunksSize(1024);
    var cs, s := TinyChunks(1024), Wire(TinyChunks(1024), "0");
    assert HexValue("0") == 0 by {
      assert "0"[..0] == "";
    }
    MachineAcceptsWords(s, 1024, cs, "0");
    CompleteIsDecidedByItself(s, 1024, Payload(cs), |s|);
    CuttingMattersExactly(WholeChunked(1024), s);
  }
}
