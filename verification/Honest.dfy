/** Honest sessions complete: what the daemon reports through the mint, the client can send,
    the daemon accepts, the origin receives, and the client reads back. */
module Honest {
  import opened Octets
  import opened Framing
  import opened Request
  import opened RequestGrammar
  import opened ChunkedMachine
  import opened Reading
  import opened Readers
  import opened Response
  import opened ResponseRoundTrip
  import opened Exchange
  import opened Target
  import opened Methods
  import opened Grants
  import opened Mint
  import opened Upstream
  import opened Session
  import opened HeaderRules
  import opened Relay
  import opened Safety

  // ----- the reported binding is a request line -----

  /** Whatever resolves, the method and target reported through the mint, pinned or not, form
      a request line, and a request made of them matches the binding. */
  lemma BindingIsARequestLine(g: Grant, verb: string, target: string, version: Version)
    requires Resolve(g, verb, target).Ok?
    ensures var (boundVerb, boundTarget) := (Resolve(g, verb, target).value.0, BoundTarget(g, target));
            && IsToken(boundVerb) && IsTarget(boundTarget) && IsCanonical(boundVerb)
            && ParseRequestLine(RequestLine(boundVerb, boundTarget, version)) == Ok((boundVerb, boundTarget, version))
            && (forall headers, framing ::
                  Matches(RequestHead(boundVerb, boundTarget, version, headers, framing), boundVerb, boundTarget))
  {
    ResolvedMethod(g, verb, target);
    ResolvedTarget(g, verb, target);
    hide Resolve;
    hide IsCanonical;
    RequestLineParses(Resolve(g, verb, target).value.0, BoundTarget(g, target), version);
  }

  lemma ResolvedTarget(g: Grant, verb: string, target: string)
    requires Resolve(g, verb, target).Ok?
    ensures IsTarget(BoundTarget(g, target))
  {
    hide Join;
    hide Normalize;
    NormalizeIsExact(Asked(g, verb, target).1, g.allowEncodedSeparators);
  }

  /** Whatever resolves can be used: a request made of the binding, without headers of the
      client's own and with a body of any length, is one that a client may send, and no policy
      refuses it. */
  lemma EveryMintCanBeUsed(g: Grant, verb: string, target: string, bodyLen: nat)
    requires Resolve(g, verb, target).Ok? && bodyLen <= MAX_U64
    ensures IsSendable(Resolve(g, verb, target).value.0, BoundTarget(g, target), [], bodyLen)
    ensures Applied(g, WithoutLeg([])) == Ok(g.injections)
  {
    ResolvedMethod(g, verb, target);
    ResolvedTarget(g, verb, target);
    ResolvedTargetFits(g, verb, target);
    hide Resolve;
    hide BoundTarget;
    BareHeadFits(Resolve(g, verb, target).value.0, BoundTarget(g, target), bodyLen);
    assert [] + g.injections == g.injections;
  }

  lemma ResolvedTargetFits(g: Grant, verb: string, target: string)
    requires Resolve(g, verb, target).Ok?
    ensures |BoundTarget(g, target)| <= MAX_TARGET_LEN
  {
    hide Join;
    hide Normalize;
    NormalizeIsExact(Asked(g, verb, target).1, g.allowEncodedSeparators);
  }

  lemma BareHeadFits(verb: string, target: string, bodyLen: nat)
    requires |verb| <= 32 && |target| <= MAX_TARGET_LEN && bodyLen <= MAX_U64
    ensures |SentHead(verb, target, [], bodyLen)| <= MAX_HEAD_LEN
  {
    hide Decimal;
    DecimalFits(bodyLen);
    var lines, own := SentLines(verb, target, [], bodyLen), ("Content-Length", Decimal(bodyLen));
    assert SentHeaders([], bodyLen) == [HOST, own];
    assert lines == [RequestLine(verb, target, Http11), HeaderLine(HOST), HeaderLine(own)];
    JoinOfThree(lines[0], lines[1], lines[2]);
  }

  lemma JoinOfThree(a: bytes, b: bytes, c: bytes)
    ensures |JoinLines([a, b, c])| == |a| + |b| + |c| + 6
  {
    assert [a, b, c][1..] == [b, c] && [b, c][1..] == [c] && [c][1..] == [];
    assert JoinLines([]) == [];
    assert JoinLines([c]) == c + CRLF + [];
    assert JoinLines([b, c]) == b + CRLF + JoinLines([c]);
    assert JoinLines([a, b, c]) == a + CRLF + JoinLines([b, c]);
  }

  // ----- the mint -----

  function MintEvents(verb: string, target: string): seq<Event> {
    [Received(Arg(verb)), Received(Arg(target)), Received(End), SocketsMade, Sent, Sent, Sent, StreamReady]
  }

  /** A connection that waits for the head of a request. */
  function Waiting(verb: string, target: string, g: Grant): Conn {
    FRESH.(phase := AwaitHead([]), asked := Some((verb, target)), sent := Offer(g, Some((verb, target))))
  }

  lemma RunTwo(cfg: Config, c: Conn, a: Event, b: Event, rest: seq<Event>)
    ensures RunOne(cfg, c, [a, b] + rest) == RunOne(cfg, Step(cfg, Step(cfg, c, a), b), rest)
  {
    hide Step;
    var all := [a, b] + rest;
    assert all[0] == a && all[1..][0] == b && all[1..][1..] == rest;
    assert RunOne(cfg, c, all) == RunOne(cfg, Step(cfg, c, a), all[1..]);
    assert RunOne(cfg, Step(cfg, c, a), all[1..]) == RunOne(cfg, Step(cfg, Step(cfg, c, a), b), rest);
  }

  lemma MintRuns(cfg: Config, verb: string, target: string)
    requires Resolve(cfg.grant, verb, target).Ok?
    ensures RunOne(cfg, FRESH, MintEvents(verb, target)) == Waiting(verb, target, cfg.grant)
  {
    hide RunOne;
    hide Resolve;
    var c2 := FRESH.(phase := AwaitMint([verb, target]));
    var c4 := FRESH.(phase := AwaitVerbSent, asked := Some((verb, target)));
    var events := MintEvents(verb, target);
    var from2: seq<Event> := [Received(End), SocketsMade, Sent, Sent, Sent, StreamReady];
    var from4: seq<Event> := [Sent, Sent, Sent, StreamReady];
    var from6: seq<Event> := [Sent, StreamReady];
    RunTwo(cfg, FRESH, Received(Arg(verb)), Received(Arg(target)), from2);
    assert events == [Received(Arg(verb)), Received(Arg(target))] + from2;
    assert [] + [verb] == [verb] && [verb] + [target] == [verb, target];
    assert Step(cfg, Step(cfg, FRESH, Received(Arg(verb))), Received(Arg(target))) == c2;
    RunTwo(cfg, c2, Received(End), SocketsMade, from4);
    assert from2 == [Received(End), SocketsMade] + from4;
    assert Step(cfg, Step(cfg, c2, Received(End)), SocketsMade) == c4;
    OfferRuns(cfg, c4);
  }

  lemma OfferRuns(cfg: Config, c: Conn)
    requires c.phase == AwaitVerbSent && c.sent == [] && c.input == []
    ensures RunOne(cfg, c, [Sent, Sent, Sent, StreamReady])
            == c.(phase := AwaitHead([]), sent := Offer(cfg.grant, c.asked))
  {
    hide RunOne;
    hide Binding;
    hide BoundArgs;
    hide FirstHeadEnd;
    var offer := Offer(cfg.grant, c.asked);
    RunTwo(cfg, c, Sent, Sent, [Sent, StreamReady]);
    assert [Sent, Sent] + [Sent, StreamReady] == [Sent, Sent, Sent, StreamReady];
    var mid := c.(phase := AwaitFdSent, sent := [offer[0], offer[1]]);
    assert Step(cfg, Step(cfg, c, Sent), Sent) == mid;
    RunTwo(cfg, mid, Sent, StreamReady, []);
    assert [Sent, StreamReady] + [] == [Sent, StreamReady];
    NoHeadInNothing();
    var end := mid.(phase := AwaitStream, sent := offer);
    assert Step(cfg, mid, Sent) == end;
    RunNothing(cfg, Step(cfg, end, StreamReady));
  }

  lemma NoHeadInNothing()
    ensures FindHeadEnd([]).None?
  {
  }

  lemma RunNothing(cfg: Config, c: Conn)
    ensures RunOne(cfg, c, []) == c
  {
  }

  /** The client learns exactly the binding. */
  lemma ClientLearnsBinding(g: Grant, broken: bool, asked: (string, string))
    ensures ReadReply(Offer(g, Some(asked)), broken, asked.0, asked.1, 0)
            == Minted(BoundArgs(g, Some(asked)).0, BoundArgs(g, Some(asked)).1)
  {
    hide BoundArgs;
    var offer := Offer(g, Some(asked));
    var (verb, target) := BoundArgs(g, Some(asked));
    assert offer[1..] == [Arg(target), Fd(1)] && offer[1..][1..] == [Fd(1)];
    assert ReadReply(offer, broken, asked.0, asked.1, 0) == ReadReply(offer[1..], broken, verb, asked.1, 1);
    assert ReadReply(offer[1..], broken, verb, asked.1, 1) == ReadReply([Fd(1)], broken, verb, target, 2);
  }

  // ----- the request arrives in pieces -----

  function Pieces(segs: seq<bytes>): seq<Event> {
    if segs == [] then [] else [Piece(segs[0])] + Pieces(segs[1..])
  }

  lemma RunFirst(cfg: Config, c: Conn, segs: seq<bytes>)
    requires segs != []
    ensures RunOne(cfg, c, Pieces(segs)) == RunOne(cfg, Step(cfg, c, Piece(segs[0])), Pieces(segs[1..]))
  {
    hide Step;
    assert Pieces(segs)[1..] == Pieces(segs[1..]);
  }

  /** What is done with the bytes at hand does not depend on the phase they arrived in. */
  lemma PhaseIsForgotten(cfg: Config, c: Conn, phase: Phase, head: RequestHead, buf: bytes)
    ensures OnBodyBytes(cfg, c.(phase := phase), head, buf) == OnBodyBytes(cfg, c, head, buf)
    ensures OnHeadBytes(cfg, c.(phase := phase), buf) == OnHeadBytes(cfg, c, buf)
  {
    hide Binding;
    hide BodyState;
    hide BodyResult;
    hide Applied;
    hide RefusalFor;
    hide FindHeadEnd;
    hide Parse;
  }

  /** The machine reads a head as the reader does, piece by piece. */
  lemma {:induction false} HeadPieces(cfg: Config, c: Conn, buf: bytes, segs: seq<bytes>)
    requires buf == c.input
    ensures var p := Accumulate(WholeHead, buf, segs);
            RunOne(cfg, OnHeadBytes(cfg, c, buf), Pieces(segs))
            == RunOne(cfg, OnHeadBytes(cfg, c.(input := p.buf), p.buf), Pieces(p.rest))
    decreases |segs|
  {
    hide RunOne;
    hide FindHeadEnd;
    hide OnHead;
    hide Refuse;
    hide Parse;
    if FindHeadEnd(buf).None? && |buf| <= MAX_HEAD_LEN && segs != [] {
      var more := buf + segs[0];
      var waiting := c.(phase := AwaitHead(buf));
      assert OnHeadBytes(cfg, c, buf) == waiting;
      RunFirst(cfg, waiting, segs);
      var next := waiting.(input := more);
      assert Step(cfg, waiting, Piece(segs[0])) == OnHeadBytes(cfg, next, more);
      hide Step;
      hide OnHeadBytes;
      HeadPieces(cfg, next, more, segs[1..]);
      var p := Accumulate(WholeHead, more, segs[1..]);
      PhaseIsForgotten(cfg, c.(input := p.buf), AwaitHead(buf), NoHead(), p.buf);
    } else {
      assert c.(input := buf) == c;
    }
  }

  function NoHead(): RequestHead {
    RequestHead("", "", Http11, [], NoBody)
  }

  /** And a body. */
  lemma {:induction false} BodyPieces(cfg: Config, c: Conn, head: RequestHead, buf: bytes, segs: seq<bytes>)
      returns (input: bytes)
    ensures var p := BodyProgress(head.framing, cfg.grant.maxRequestBody, buf, segs);
            RunOne(cfg, OnBodyBytes(cfg, c, head, buf), Pieces(segs))
            == RunOne(cfg, OnBodyBytes(cfg, c.(input := input), head, p.buf), Pieces(p.rest))
    decreases |segs|
  {
    hide RunOne;
    hide Reached;
    hide BodyResult;
    hide OnBodyVerdict;
    var limit := cfg.grant.maxRequestBody;
    if BodyState(head.framing, limit, buf) == None && segs != [] {
      var more := buf + segs[0];
      var waiting := c.(phase := AwaitBody(head, buf));
      assert OnBodyBytes(cfg, c, head, buf) == waiting;
      RunFirst(cfg, waiting, segs);
      var next := waiting.(input := c.input + segs[0]);
      assert Step(cfg, waiting, Piece(segs[0])) == OnBodyBytes(cfg, next, head, more);
      assert BodyProgress(head.framing, limit, buf, segs) == BodyProgress(head.framing, limit, more, segs[1..]);
      hide Step;
      hide OnBodyBytes;
      hide BodyProgress;
      hide BodyState;
      input := BodyPieces(cfg, next, head, more, segs[1..]);
      var p := BodyProgress(head.framing, limit, more, segs[1..]);
      PhaseIsForgotten(cfg, c.(input := input), AwaitBody(head, buf), head, p.buf);
    } else {
      input := c.input;
      assert c.(input := input) == c;
    }
  }

  lemma {:induction false} PiecesAreIgnored(cfg: Config, c: Conn, segs: seq<bytes>)
    requires c.phase.AwaitAnswer? || c.phase.AwaitWrite? || c.phase.Over?
    ensures RunOne(cfg, c, Pieces(segs)) == c
  {
    if segs != [] {
      hide RunOne;
      RunFirst(cfg, c, segs);
      assert Step(cfg, c, Piece(segs[0])) == c;
      PiecesAreIgnored(cfg, c, segs[1..]);
    }
  }

  // ----- the whole request is served -----

  lemma LegOfSent(headers: seq<Header>, n: nat)
    ensures WithoutLeg(SentHeaders(headers, n)) == WithoutLeg(headers)
  {
    hide IsLegHeader;
    OwnHeadersAreLeg(n);
    var own: Header := ("Content-Length", Decimal(n));
    KeptConcat([HOST] + headers, [own], IsOwnHeader);
    KeptConcat([HOST], headers, IsOwnHeader);
    WithoutLegOne(HOST);
    WithoutLegOne(own);
    assert [] + WithoutLeg(headers) + [] == WithoutLeg(headers);
  }

  lemma OwnHeadersAreLeg(n: nat)
    ensures IsLegHeader(HOST) && IsLegHeader(("Content-Length", Decimal(n)))
  {
    assert Lower("Host") == "host" && Lower("Content-Length") == "content-length";
    assert DESCRIPTOR_LEG_HEADERS[3] == "host" && DESCRIPTOR_LEG_HEADERS[1] == "content-length";
  }

  lemma WithoutLegOne(h: Header)
    requires IsLegHeader(h)
    ensures WithoutLeg([h]) == []
  {
    hide IsLegHeader;
    assert !IsOwnHeader(h);
    assert [h][1..] == [] && Kept([h][1..], IsOwnHeader) == [];
  }

  /** A connection whose fetch is under way. */
  ghost predicate Fetching(cfg: Config, c: Conn, asked: (string, string), f: Fetch) {
    c.phase == AwaitAnswer && c.asked == Some(asked) && c.sent == Offer(cfg.grant, Some(asked))
    && c.fetches == [f] && c.answer == None && c.responses == [] && !c.troubled
  }

  lemma HeadIsAccepted(cfg: Config, c: Conn, p: Progress, head: RequestHead)
    requires p.verdict == Finished && HeadResult(p).Ok? && HeadResult(p).value.0 == head
    requires Bound(cfg, c) && Matches(head, BoundArgs(cfg.grant, c.asked).0, BoundArgs(cfg.grant, c.asked).1)
    ensures OnHeadBytes(cfg, c, p.buf) == OnBodyBytes(cfg, c, head, HeadResult(p).value.1)
  {
    hide OnBodyBytes;
    hide Parse;
    hide Matches;
    hide Resolve;
    hide FirstHeadEnd;
  }

  lemma BodyIsAccepted(cfg: Config, c: Conn, head: RequestHead, p: Progress, body: bytes, headers: seq<Header>)
    requires p.verdict == Finished && BodyResult(head.framing, cfg.grant.maxRequestBody, p) == Ok(body)
    requires BodyState(head.framing, cfg.grant.maxRequestBody, p.buf) == Some(Finished)
    requires Applied(cfg.grant, WithoutLeg(head.headers)) == Ok(headers) && Bound(cfg, c)
    ensures var b := Binding(cfg.grant, c.asked).value;
            OnBodyBytes(cfg, c, head, p.buf)
            == c.(phase := AwaitAnswer, fetches := c.fetches + [Fetch(b.0, b.2, headers, body)])
  {
    hide Binding;
    hide BodyState;
    hide Applied;
    hide WithoutLeg;
    hide MachineDecode;
  }

  lemma FinishedBodyState(framing: BodyFraming, limit: nat, buf: bytes, segs: seq<bytes>)
    requires Segments(segs) && BodyProgress(framing, limit, buf, segs).verdict == Finished
    ensures BodyState(framing, limit, BodyProgress(framing, limit, buf, segs).buf) == Some(Finished)
  {
    hide Accumulate;
    hide Reached;
    hide ExpectedVerdict;
    if ReadsBody(framing, limit) {
      VerdictOfStream(BodyGoal(framing, limit), buf, segs);
    }
  }

  lemma ServedBodyFinishes(framing: BodyFraming, limit: nat, p: Progress)
    requires BodyResult(framing, limit, p).Ok? && (framing.NoBody? ==> p.verdict == Finished)
    ensures p.verdict == Finished
  {
    hide MachineDecode;
  }

  /** Each header is of the descriptor leg or one that the grant lets the client set. */
  ghost predicate MayAllBeSent(g: Grant, headers: seq<Header>) {
    forall i :: 0 <= i < |headers| ==> IsOfTheLeg(headers[i].0) || MayBeSet(g, headers[i])
  }

  /** Every request for the reported target, by the reported method in any case, in whatever spelling,
      leads to exactly the fetch it asks for, however its bytes are cut and whatever follows them. */
  lemma MatchingRequestsAreFetched(cfg: Config, verb: string, target: string, head: RequestHead,
                                   body: bytes, segs: seq<bytes>)
    requires Resolve(cfg.grant, verb, target).Ok? && Segments(segs)
    requires EqIgnoreCase(head.verb, Resolve(cfg.grant, verb, target).value.0)
    requires head.target == BoundTarget(cfg.grant, target)
    requires RequestOf(Flatten(segs), cfg.grant.maxRequestBody) == Ok((head, body))
    requires SettledRequest(cfg.grant.maxRequestBody, Flatten(segs))
    requires MayAllBeSent(cfg.grant, head.headers)
    ensures Applied(cfg.grant, WithoutLeg(head.headers)).Ok?
    ensures Forwards(cfg.grant, head.headers, Applied(cfg.grant, WithoutLeg(head.headers)).value)
    ensures var (boundVerb, url) := Resolve(cfg.grant, verb, target).value;
            Fetching(cfg, RunOne(cfg, FRESH, MintEvents(verb, target) + Pieces(segs)), (verb, target),
                     Fetch(boundVerb, url, Applied(cfg.grant, WithoutLeg(head.headers)).value, body))
  {
    hide RunOne;
    hide Resolve;
    hide Accumulate;
    hide OnHeadBytes;
    hide OnBodyBytes;
    hide HeadResult;
    hide HeadOf;
    hide BodyOf;
    hide BodyResult;
    hide BodyProgress;
    hide BodyState;
    hide FindHeadEnd;
    hide WithoutLeg;
    hide Applied;
    hide EqIgnoreCase;
    hide Forwards;
    hide MintEvents;
    hide Pieces;
    hide Settled;
    RequestsForwardByRule(cfg.grant, head.headers);
    hide IsOfTheLeg;
    hide MayBeSet;
    var limit := cfg.grant.maxRequestBody;
    var c0 := Waiting(verb, target, cfg.grant);
    RunConcat(cfg, FRESH, MintEvents(verb, target), Pieces(segs));
    MintRuns(cfg, verb, target);
    WaitingForHead(cfg, c0);
    HeadIsOneShot(segs);
    var p := Accumulate(WholeHead, [], segs);
    AcceptedHeadIsFinished(p);
    HeadPieces(cfg, c0, [], segs);
    var c1 := c0.(input := p.buf);
    HeadIsAccepted(cfg, c1, p, head);
    var left := HeadResult(p).value.1;
    AccumulateKeepsBytes(WholeHead, [], segs);
    BodyIsOneShot(head.framing, limit, left, p.rest);
    var q := BodyProgress(head.framing, limit, left, p.rest);
    UnreadBodyIsFinished(head.framing, limit, left, p.rest);
    ServedBodyFinishes(head.framing, limit, q);
    var input := BodyPieces(cfg, c1, head, left, p.rest);
    FinishedBodyState(head.framing, limit, left, p.rest);
    BodyIsAccepted(cfg, c1.(input := input), head, q, body, Applied(cfg.grant, WithoutLeg(head.headers)).value);
    PiecesAreIgnored(cfg, OnBodyBytes(cfg, c1.(input := input), head, q.buf), q.rest);
  }

  /** The client's own two headers are of the descriptor leg. */
  lemma SentHeadersMayBeSent(g: Grant, headers: seq<Header>, n: nat)
    requires MayAllBeSent(g, headers)
    ensures MayAllBeSent(g, SentHeaders(headers, n))
    ensures Applied(g, WithoutLeg(headers)) == Ok(WithoutLeg(headers) + g.injections)
    ensures Applied(g, WithoutLeg(SentHeaders(headers, n))) == Ok(WithoutLeg(headers) + g.injections)
  {
    hide WithoutLeg;
    hide SentHeaders;
    LegOfSent(headers, n);
    RequestsForwardByRule(g, headers);
    RequestsForwardByRule(g, SentHeaders(headers, n));
    hide IsOfTheLeg;
    hide MayBeSet;
    hide Forwards;
  }

  /** For one, every request that the client writes. */
  lemma HonestRequestsAreFetched(cfg: Config, verb: string, target: string, headers: seq<Header>,
                                 body: bytes, tail: bytes, segs: seq<bytes>)
    requires Resolve(cfg.grant, verb, target).Ok?
    requires var (boundVerb, url) := Resolve(cfg.grant, verb, target).value;
             IsSendable(boundVerb, BoundTarget(cfg.grant, target), headers, |body|)
             && Flatten(segs) == SentHead(boundVerb, BoundTarget(cfg.grant, target), headers, |body|) + (body + tail)
    requires Segments(segs) && |body| <= cfg.grant.maxRequestBody <= MAX_U64
    requires MayAllBeSent(cfg.grant, headers)
    ensures var (boundVerb, url) := Resolve(cfg.grant, verb, target).value;
            Fetching(cfg, RunOne(cfg, FRESH, MintEvents(verb, target) + Pieces(segs)), (verb, target),
                     Fetch(boundVerb, url, WithoutLeg(headers) + cfg.grant.injections, body))
  {
    hide RunOne;
    hide Resolve;
    hide IsSendable;
    hide SentHead;
    hide HeadOf;
    hide BodyOf;
    hide WithoutLeg;
    hide MintEvents;
    hide Pieces;
    hide SentHeaders;
    hide MayAllBeSent;
    hide Applied;
    hide Forwards;
    hide Fetching;
    hide EqIgnoreCase;
    var boundVerb, boundTarget := Resolve(cfg.grant, verb, target).value.0, BoundTarget(cfg.grant, target);
    var head := SentRequest(boundVerb, boundTarget, headers, |body|);
    RequestsRoundTrip(boundVerb, boundTarget, headers, body, tail, cfg.grant.maxRequestBody);
    SentHeadersMayBeSent(cfg.grant, headers, |body|);
    MethodIsItself(boundVerb);
    MatchingRequestsAreFetched(cfg, verb, target, head, body, segs);
  }

  lemma MethodIsItself(verb: string)
    ensures EqIgnoreCase(verb, verb)
  {
  }

  lemma WaitingForHead(cfg: Config, c: Conn)
    requires c.phase == AwaitHead([])
    ensures OnHeadBytes(cfg, c, []) == c
  {
    NoHeadInNothing();
    hide FindHeadEnd;
  }

  lemma UnreadBodyIsFinished(framing: BodyFraming, limit: nat, buf: bytes, segs: seq<bytes>)
    ensures framing.NoBody? ==> BodyProgress(framing, limit, buf, segs).verdict == Finished
  {
  }

  // ----- and answered -----

  lemma AnswersAreRelayed(cfg: Config, c: Conn, asked: (string, string), f: Fetch, reply: OriginReply)
    requires Fetching(cfg, c, asked, f) && FetchOutcome(reply, cfg.grant.maxResponseBody).Ok?
    ensures var u := FetchOutcome(reply, cfg.grant.maxResponseBody).value;
            RunOne(cfg, c, [Answered(reply), Wrote])
            == c.(phase := Over(Ok(())), answer := Some(reply), responses := [(RelayHead(u), u.body)])
  {
    hide RunOne;
    hide FetchOutcome;
    hide RelayHead;
    hide Offer;
    hide Refuse;
    RunTwo(cfg, c, Answered(reply), Wrote, []);
    assert [Answered(reply), Wrote] + [] == [Answered(reply), Wrote];
    RunNothing(cfg, Step(cfg, Step(cfg, c, Answered(reply)), Wrote));
  }

  /** Read back in any way, the response is seen as this answer, as long as its head is not too long. */
  ghost predicate ReadsAs(response: (ResponseHead, bytes), reply: OriginReply) {
    |Encode(response.0, |response.1|)| <= MAX_HEAD_LEN + 1
    ==> forall segs, broken :: Segments(segs) && Flatten(segs) == ResponseBytes(response)
          ==> ResponseResult(segs, broken).Ok? && IsAnswerSeenAs(reply, ResponseResult(segs, broken).value)
  }

  lemma RelayedReadsAs(reply: OriginReply, limit: nat)
    requires FetchOutcome(reply, limit).Ok? && limit <= MAX_U64 && SpeaksHttp(reply)
    ensures var u := FetchOutcome(reply, limit).value; ReadsAs((RelayHead(u), u.body), reply)
  {
    hide IsAnswerSeenAs;
    hide Encode;
    hide ResponseResult;
    hide Relayed;
    hide Delivered;
    FetchedBodyIsExact(reply, limit);
    AcceptedReplyIsSeen(reply, limit);
    hide CappedFrom;
    var u := FetchOutcome(reply, limit).value;
    RelayedIsWritable(u.headers, ConnectionOf(u.headers));
    var response := (RelayHead(u), u.body);
    if |Encode(response.0, |response.1|)| <= MAX_HEAD_LEN + 1 {
      forall segs, broken | Segments(segs) && Flatten(segs) == ResponseBytes(response)
        ensures ResponseResult(segs, broken) == Ok(Delivered(RelayHead(u), u.body))
      {
        ResponsesRoundTrip(RelayHead(u), u.body, segs, broken);
      }
    }
  }

  /** A session that went well: the client learns the binding; the origin is asked exactly once, by the
      bound method, at the bound URL, with the body and the headers that are to be forwarded; and
      the one response, read back, is seen as the origin's answer. */
  ghost predicate WentWell(cfg: Config, c: Conn, verb: string, target: string, sent: seq<Header>, body: bytes,
                           reply: OriginReply, broken: bool) {
    && Resolve(cfg.grant, verb, target).Ok?
    && var (boundVerb, url) := Resolve(cfg.grant, verb, target).value;
       && ReadReply(c.sent, broken, verb, target, 0) == Minted(boundVerb, BoundTarget(cfg.grant, target))
       && |c.fetches| == 1 && c.fetches[0] == Fetch(boundVerb, url, c.fetches[0].headers, body)
       && Forwards(cfg.grant, sent, c.fetches[0].headers)
       && c.phase == Over(Ok(())) && |c.responses| == 1 && ReadsAs(c.responses[0], reply)
  }

  /** The whole session, in any interleaving with any other connections: the client learns
      the binding, any request for it is sent in any spelling, the origin is asked exactly that
      request, and the client reads back exactly what the origin answered, however either stream is
      cut. */
  lemma SessionsComplete(
      cfg: Config, trace: seq<(nat, Event)>, id: nat, verb: string, target: string, head: RequestHead,
      body: bytes, sentSegs: seq<bytes>, reply: OriginReply, broken: bool)
    requires Resolve(cfg.grant, verb, target).Ok? && Segments(sentSegs)
    requires EqIgnoreCase(head.verb, Resolve(cfg.grant, verb, target).value.0)
    requires head.target == BoundTarget(cfg.grant, target)
    requires RequestOf(Flatten(sentSegs), cfg.grant.maxRequestBody) == Ok((head, body))
    requires SettledRequest(cfg.grant.maxRequestBody, Flatten(sentSegs))
    requires MayAllBeSent(cfg.grant, head.headers)
    requires FetchOutcome(reply, cfg.grant.maxResponseBody).Ok? && cfg.grant.maxResponseBody <= MAX_U64
    requires SpeaksHttp(reply)
    requires EventsOf(trace, id) == MintEvents(verb, target) + Pieces(sentSegs) + [Answered(reply), Wrote]
    ensures WentWell(cfg, ConnOf(RunAll(cfg, map[], trace), id), verb, target, head.headers, body, reply, broken)
  {
    hide RunOne;
    hide RunAll;
    hide Resolve;
    hide RequestOf;
    hide SettledRequest;
    hide WithoutLeg;
    hide EqIgnoreCase;
    hide Applied;
    hide MayAllBeSent;
    hide Forwards;
    hide ReadsAs;
    hide MintEvents;
    hide FetchOutcome;
    hide RelayHead;
    hide SpeaksHttp;
    var u := FetchOutcome(reply, cfg.grant.maxResponseBody).value;
    var (boundVerb, url) := Resolve(cfg.grant, verb, target).value;
    ConnectionsAreIndependent(cfg, map[], trace, id);
    RunConcat(cfg, FRESH, MintEvents(verb, target) + Pieces(sentSegs), [Answered(reply), Wrote]);
    MatchingRequestsAreFetched(cfg, verb, target, head, body, sentSegs);
    var f := Fetch(boundVerb, url, Applied(cfg.grant, WithoutLeg(head.headers)).value, body);
    AnswersAreRelayed(cfg, RunOne(cfg, FRESH, MintEvents(verb, target) + Pieces(sentSegs)), (verb, target), f, reply);
    ClientLearnsBinding(cfg.grant, broken, (verb, target));
    RelayedReadsAs(reply, cfg.grant.maxResponseBody);
  }

  /** For one, every session of the client itself. */
  lemma HonestSessionsComplete(
      cfg: Config, trace: seq<(nat, Event)>, id: nat, verb: string, target: string, headers: seq<Header>,
      body: bytes, sentSegs: seq<bytes>, reply: OriginReply, broken: bool)
    requires Resolve(cfg.grant, verb, target).Ok?
    requires var (boundVerb, url) := Resolve(cfg.grant, verb, target).value;
             IsSendable(boundVerb, BoundTarget(cfg.grant, target), headers, |body|)
             && Flatten(sentSegs) == SentHead(boundVerb, BoundTarget(cfg.grant, target), headers, |body|) + body
    requires Segments(sentSegs) && |body| <= cfg.grant.maxRequestBody <= MAX_U64
    requires MayAllBeSent(cfg.grant, headers)
    requires FetchOutcome(reply, cfg.grant.maxResponseBody).Ok? && cfg.grant.maxResponseBody <= MAX_U64
    requires SpeaksHttp(reply)
    requires EventsOf(trace, id) == MintEvents(verb, target) + Pieces(sentSegs) + [Answered(reply), Wrote]
    ensures WentWell(cfg, ConnOf(RunAll(cfg, map[], trace), id), verb, target, SentHeaders(headers, |body|), body,
                     reply, broken)
  {
    hide RunAll;
    hide Resolve;
    hide HeadOf;
    hide BodyOf;
    hide SentHead;
    hide IsSendable;
    hide SentHeaders;
    hide MintEvents;
    hide FetchOutcome;
    hide MayAllBeSent;
    hide WentWell;
    hide SpeaksHttp;
    hide EqIgnoreCase;
    var (boundVerb, url) := Resolve(cfg.grant, verb, target).value;
    var head := SentRequest(boundVerb, BoundTarget(cfg.grant, target), headers, |body|);
    assert body + [] == body;
    RequestsRoundTrip(boundVerb, BoundTarget(cfg.grant, target), headers, body, [], cfg.grant.maxRequestBody);
    SentHeadersMayBeSent(cfg.grant, headers, |body|);
    MethodIsItself(boundVerb);
    SessionsComplete(cfg, trace, id, verb, target, head, body, sentSegs, reply, broken);
  }
}
