/** What every connection keeps in every run, whatever its holder, the origin and the other
    connections do. */
module Safety {
  import opened Octets
  import opened Errors
  import opened Framing
  import opened Request
  import opened ChunkedMachine
  import opened Reading
  import opened Readers
  import opened Response
  import opened Containment
  import opened Meaning
  import opened Climbing
  import opened Target
  import opened Grants
  import opened Methods
  import opened Mint
  import opened Upstream
  import opened Session
  import opened HeaderRules
  import opened Relay
  import opened ResponseRoundTrip

  /** The one fetch that the bytes written on a descriptor can cause: a function of the mint
      request and of those bytes, read as one request from the front. */
  function Intended(cfg: Config, asked: Option<(string, string)>, input: bytes): Option<Fetch> {
    match (Binding(cfg.grant, asked), RequestOf(input, cfg.grant.maxRequestBody))
    case (Some((verb, target, url)), Ok((head, body))) =>
      if !Matches(head, verb, target) then None
      else (match Applied(cfg.grant, WithoutLeg(head.headers))
            case Err(_) => None
            case Ok(headers) => Some(Fetch(verb, url, headers, body)))
    case _ => None
  }

  /** The messages that hand over a descriptor. */
  function Offer(g: Grant, asked: Option<(string, string)>): seq<Message> {
    [Arg(BoundArgs(g, asked).0), Arg(BoundArgs(g, asked).1), Fd(1)]
  }

  ghost predicate FetchesAreIntended(cfg: Config, c: Conn) {
    c.fetches == []
    || (Intended(cfg, c.asked, c.input).Some? && c.fetches == [Intended(cfg, c.asked, c.input).value])
  }

  /** Nothing has happened on the descriptor yet. */
  ghost predicate Untouched(c: Conn) {
    c.input == [] && c.fetches == [] && c.answer == None && c.responses == [] && !c.troubled
  }

  ghost predicate Bound(cfg: Config, c: Conn) {
    Binding(cfg.grant, c.asked).Some?
  }

  /** The descriptor is out, and no request has been accepted on it. */
  ghost predicate Listening(cfg: Config, c: Conn) {
    Bound(cfg, c) && c.sent == Offer(cfg.grant, c.asked)
    && c.fetches == [] && c.answer == None && c.responses == [] && !c.troubled
  }

  /** The response that belongs to an outcome. */
  ghost predicate Answers(cfg: Config, c: Conn, response: (ResponseHead, bytes), outcome: Result<(), CoreError>) {
    match outcome
    case Err(e) => response == RefusalFor(cfg, e)
    case Ok(_) =>
      c.fetches != [] && c.answer.Some?
      && FetchOutcome(c.answer.value, cfg.grant.maxResponseBody).Ok?
      && var u := FetchOutcome(c.answer.value, cfg.grant.maxResponseBody).value;
         response == (RelayHead(u), u.body)
  }

  ghost predicate NeverMinted(c: Conn) {
    Fd(1) !in c.sent && c.fetches == [] && c.responses == []
  }

  ghost predicate Served(cfg: Config, c: Conn, outcome: Result<(), CoreError>) {
    Bound(cfg, c) && c.sent == Offer(cfg.grant, c.asked) && FetchesAreIntended(cfg, c) && |c.responses| <= 1
    && (!c.troubled ==> |c.responses| == 1 && Answers(cfg, c, c.responses[0], outcome))
  }

  ghost predicate Inv(cfg: Config, c: Conn) {
    match c.phase
    case AwaitMint(args) => c.asked == None && c.sent == [] && Untouched(c)
    case AwaitErrorSent(_, _) => !Bound(cfg, c) && c.sent == [] && Untouched(c)
    case AwaitSockets => Bound(cfg, c) && c.sent == [] && Untouched(c)
    case AwaitVerbSent => Bound(cfg, c) && c.sent == [] && Untouched(c)
    case AwaitTargetSent => Bound(cfg, c) && c.sent == Offer(cfg.grant, c.asked)[..1] && Untouched(c)
    case AwaitFdSent => Bound(cfg, c) && c.sent == Offer(cfg.grant, c.asked)[..2] && Untouched(c)
    case AwaitStream => Listening(cfg, c) && c.input == []
    case AwaitHead(buf) => Listening(cfg, c) && buf == c.input && FindHeadEnd(buf).None? && |buf| <= MAX_HEAD_LEN
    case AwaitBody(head, buf) =>
      Listening(cfg, c) && HeadOf(c.input) == Ok((head, buf)) && HeadMatches(cfg, c, head)
      && BodyState(head.framing, cfg.grant.maxRequestBody, buf) == None
    case AwaitAnswer =>
      Bound(cfg, c) && c.sent == Offer(cfg.grant, c.asked) && c.fetches != [] && FetchesAreIntended(cfg, c)
      && c.answer == None && c.responses == [] && !c.troubled
    case AwaitWrite(response, body, outcome) =>
      Bound(cfg, c) && c.sent == Offer(cfg.grant, c.asked) && FetchesAreIntended(cfg, c) && c.responses == []
      && (c.troubled ==> outcome.Err?) && Answers(cfg, c, (response, body), outcome)
    case Over(outcome) => NeverMinted(c) || Served(cfg, c, outcome)
  }

  ghost predicate HeadMatches(cfg: Config, c: Conn, head: RequestHead) {
    Bound(cfg, c) && Matches(head, BoundArgs(cfg.grant, c.asked).0, BoundArgs(cfg.grant, c.asked).1)
  }

  // ----- the steps keep the invariant -----

  lemma FreshIsInv(cfg: Config)
    ensures Inv(cfg, FRESH)
  {
  }

  lemma RefuseKeepsInv(cfg: Config, c: Conn, e: CoreError)
    requires Bound(cfg, c) && c.sent == Offer(cfg.grant, c.asked) && FetchesAreIntended(cfg, c) && c.responses == []
    ensures Inv(cfg, Refuse(cfg, c, e))
  {
    hide Binding;
    hide Intended;
    hide RefusalFor;
    hide BoundArgs;
  }

  /** A body that is accepted is the body of the whole input so far. */
  lemma AcceptedBody(framing: BodyFraming, limit: nat, verdict: Verdict, buf: bytes)
    requires BodyResult(framing, limit, Progress(verdict, buf, [])).Ok?
    ensures BodyOf(framing, limit, buf) == BodyResult(framing, limit, Progress(verdict, buf, []))
  {
    hide MachineDecode;
  }

  lemma GiveUpKeepsInv(cfg: Config, c: Conn, e: CoreError)
    requires Listening(cfg, c)
    ensures Inv(cfg, GiveUp(cfg, c, e))
  {
    hide Binding;
    hide Intended;
    hide RefusalFor;
    hide BoundArgs;
  }

  lemma OnRequestKeepsInv(cfg: Config, c: Conn, head: RequestHead, body: bytes)
    requires Listening(cfg, c) && HeadMatches(cfg, c, head)
    requires RequestOf(c.input, cfg.grant.maxRequestBody) == Ok((head, body))
    ensures Inv(cfg, OnRequest(cfg, c, head, body))
  {
    hide Resolve;
    hide RequestOf;
    hide Applied;
    hide Matches;
    hide RefusalFor;
    if Applied(cfg.grant, WithoutLeg(head.headers)).Err? {
      RefuseKeepsInv(cfg, c, Denial(Applied(cfg.grant, WithoutLeg(head.headers)).error));
    }
  }

  lemma OnBodyVerdictKeepsInv(cfg: Config, c: Conn, head: RequestHead, buf: bytes, verdict: Verdict)
    requires Listening(cfg, c) && HeadMatches(cfg, c, head) && HeadOf(c.input) == Ok((head, buf))
    ensures Inv(cfg, OnBodyVerdict(cfg, c, head, buf, verdict))
  {
    hide OnRequest;
    hide Inv;
    hide HeadOf;
    hide BodyOf;
    hide BodyResult;
    hide GiveUp;
    hide HeadMatches;
    hide BoundArgs;
    hide Binding;
    var r := BodyResult(head.framing, cfg.grant.maxRequestBody, Progress(verdict, buf, []));
    match r
    case Err(e) => GiveUpKeepsInv(cfg, c, e);
    case Ok(body) =>
      AcceptedBody(head.framing, cfg.grant.maxRequestBody, verdict, buf);
      OnRequestKeepsInv(cfg, c, head, body);
  }

  lemma OnBodyBytesKeepsInv(cfg: Config, c: Conn, head: RequestHead, buf: bytes)
    requires Listening(cfg, c) && HeadMatches(cfg, c, head) && HeadOf(c.input) == Ok((head, buf))
    ensures Inv(cfg, OnBodyBytes(cfg, c, head, buf))
  {
    hide OnBodyVerdict;
    hide HeadOf;
    hide BoundArgs;
    hide Binding;
    hide Matches;
    match BodyState(head.framing, cfg.grant.maxRequestBody, buf)
    case None =>
    case Some(verdict) => OnBodyVerdictKeepsInv(cfg, c, head, buf, verdict);
  }

  lemma OnHeadKeepsInv(cfg: Config, c: Conn, head: RequestHead, leftover: bytes)
    requires Listening(cfg, c) && HeadOf(c.input) == Ok((head, leftover))
    ensures Inv(cfg, OnHead(cfg, c, head, leftover))
  {
    hide OnBodyBytes;
    hide Inv;
    hide HeadOf;
    hide Refuse;
    hide Resolve;
    hide Matches;
    var (verb, target) := BoundArgs(cfg.grant, c.asked);
    if Matches(head, verb, target) {
      OnBodyBytesKeepsInv(cfg, c, head, leftover);
    } else {
      RefuseKeepsInv(cfg, c, Denial(NotFixedRequest));
    }
  }

  lemma OnHeadBytesKeepsInv(cfg: Config, c: Conn)
    requires Listening(cfg, c)
    ensures Inv(cfg, OnHeadBytes(cfg, c, c.input))
  {
    hide OnHead;
    hide Refuse;
    hide Parse;
    hide Binding;
    hide BoundArgs;
    var buf := c.input;
    match FindHeadEnd(buf)
    case None =>
      if |buf| > MAX_HEAD_LEN {
        RefuseKeepsInv(cfg, c, Http(HeadTooLarge));
      }
    case Some(end) =>
      match Parse(buf[..end])
      case Err(e) => RefuseKeepsInv(cfg, c, Http(e));
      case Ok(head) => OnHeadKeepsInv(cfg, c, head, buf[end..]);
  }

  lemma MintStepKeepsInv(cfg: Config, c: Conn, ev: Event)
    requires Inv(cfg, c) && c.phase.AwaitMint?
    ensures Inv(cfg, Step(cfg, c, ev))
  {
    hide Resolve;
  }

  lemma OfferStepKeepsInv(cfg: Config, c: Conn, ev: Event)
    requires Inv(cfg, c)
    requires c.phase.AwaitErrorSent? || c.phase.AwaitSockets? || c.phase.AwaitVerbSent?
             || c.phase.AwaitTargetSent? || c.phase.AwaitFdSent?
    ensures Inv(cfg, Step(cfg, c, ev))
  {
    hide Resolve;
    hide Intended;
    hide Binding;
    hide BoundArgs;
  }

  lemma HeadOfMore(input: bytes, head: RequestHead, buf: bytes, data: bytes)
    requires HeadOf(input) == Ok((head, buf))
    ensures HeadOf(input + data) == Ok((head, buf + data))
  {
    hide Parse;
    hide FindHeadEnd;
    FinishedHead(input, data);
  }

  lemma ReadStepKeepsInv(cfg: Config, c: Conn, ev: Event)
    requires Inv(cfg, c) && (c.phase.AwaitStream? || c.phase.AwaitHead?)
    ensures Inv(cfg, Step(cfg, c, ev))
  {
    hide OnHeadBytes;
    hide Refuse;
    hide Binding;
    hide BoundArgs;
    hide FindHeadEnd;
    match ev
    case StreamReady => OnHeadBytesKeepsInv(cfg, c);
    case Piece(data) =>
      var more := c.(input := c.input + data);
      OnHeadBytesKeepsInv(cfg, more);
    case StreamEnded => RefuseKeepsInv(cfg, c, Handshake(ClosedBeforeHead));
    case ReadFailed => RefuseKeepsInv(cfg, c, IoFailed);
    case _ =>
  }

  lemma BodyStepKeepsInv(cfg: Config, c: Conn, ev: Event)
    requires Inv(cfg, c) && c.phase.AwaitBody?
    ensures Inv(cfg, Step(cfg, c, ev))
  {
    hide OnBodyBytes;
    hide OnBodyVerdict;
    hide Refuse;
    hide Binding;
    hide BoundArgs;
    hide HeadOf;
    hide Matches;
    hide BodyState;
    var head, buf := c.phase.head, c.phase.buf;
    match ev
    case Piece(data) =>
      var more := c.(input := c.input + data);
      HeadOfMore(c.input, head, buf, data);
      OnBodyBytesKeepsInv(cfg, more, head, buf + data);
    case StreamEnded => OnBodyVerdictKeepsInv(cfg, c, head, buf, Ended);
    case ReadFailed => RefuseKeepsInv(cfg, c, IoFailed);
    case _ =>
  }

  lemma AnswerStepKeepsInv(cfg: Config, c: Conn, ev: Event)
    requires Inv(cfg, c) && (c.phase.AwaitAnswer? || c.phase.AwaitWrite?)
    ensures Inv(cfg, Step(cfg, c, ev))
  {
    hide Refuse;
    hide Binding;
    hide BoundArgs;
    hide Intended;
    hide FetchOutcome;
    hide RefusalFor;
    match ev
    case Answered(reply) =>
      var heard := c.(answer := Some(reply));
      if c.phase.AwaitAnswer? {
        match FetchOutcome(reply, cfg.grant.maxResponseBody)
        case Err(e) => RefuseKeepsInv(cfg, heard, e);
        case Ok(_) =>
      }
    case Wrote =>
    case WriteFailed =>
      var hurt := c.(troubled := true);
      if c.phase.AwaitWrite? {
        if c.phase.outcome.Ok? {
          RefuseKeepsInv(cfg, hurt, IoFailed);
        }
      }
    case _ =>
  }

  lemma StepKeepsInv(cfg: Config, c: Conn, ev: Event)
    requires Inv(cfg, c)
    ensures Inv(cfg, Step(cfg, c, ev))
  {
    hide Inv;
    match c.phase
    case AwaitMint(_) => MintStepKeepsInv(cfg, c, ev);
    case AwaitErrorSent(_, _) => OfferStepKeepsInv(cfg, c, ev);
    case AwaitSockets => OfferStepKeepsInv(cfg, c, ev);
    case AwaitVerbSent => OfferStepKeepsInv(cfg, c, ev);
    case AwaitTargetSent => OfferStepKeepsInv(cfg, c, ev);
    case AwaitFdSent => OfferStepKeepsInv(cfg, c, ev);
    case AwaitStream => ReadStepKeepsInv(cfg, c, ev);
    case AwaitHead(_) => ReadStepKeepsInv(cfg, c, ev);
    case AwaitBody(_, _) => BodyStepKeepsInv(cfg, c, ev);
    case AwaitAnswer => AnswerStepKeepsInv(cfg, c, ev);
    case AwaitWrite(_, _, _) => AnswerStepKeepsInv(cfg, c, ev);
    case Over(_) =>
  }

  lemma {:induction false} RunKeepsInv(cfg: Config, c: Conn, events: seq<Event>)
    requires Inv(cfg, c)
    ensures Inv(cfg, RunOne(cfg, c, events))
    decreases |events|
  {
    hide Inv;
    hide Step;
    if events != [] {
      StepKeepsInv(cfg, c, events[0]);
      RunKeepsInv(cfg, Step(cfg, c, events[0]), events[1..]);
    }
  }

  // ----- what this means for every run -----

  /** In every interleaving of any number of connections, each connection keeps the invariant. */
  lemma EveryRunIsSafe(cfg: Config, trace: seq<(nat, Event)>, id: nat)
    ensures Inv(cfg, ConnOf(RunAll(cfg, map[], trace), id))
  {
    hide Inv;
    ConnectionsAreIndependent(cfg, map[], trace, id);
    FreshIsInv(cfg);
    RunKeepsInv(cfg, FRESH, EventsOf(trace, id));
  }

  lemma InvMeansIntended(cfg: Config, c: Conn)
    requires Inv(cfg, c)
    ensures FetchesAreIntended(cfg, c)
    ensures Fd(1) in c.sent ==> Bound(cfg, c)
  {
    hide Intended;
    hide Binding;
    hide BoundArgs;
  }

  /** At most one fetch is ever made; it uses exactly the method and URL that `resolve`
      returned for this connection's mint request; the holder's bytes spell one request whose
      request line matches the binding; and the fetch carries that request's body, within the
      limit, and its headers without those of the descriptor leg, followed by the injections. */
  lemma FetchesAreExact(cfg: Config, trace: seq<(nat, Event)>, id: nat)
    ensures var c := ConnOf(RunAll(cfg, map[], trace), id);
            && |c.fetches| <= 1
            && (forall f :: f in c.fetches ==>
                  && c.asked.Some?
                  && Resolve(cfg.grant, c.asked.value.0, c.asked.value.1) == Ok((f.verb, f.url))
                  && RequestOf(c.input, cfg.grant.maxRequestBody).Ok?
                  && var (head, body) := RequestOf(c.input, cfg.grant.maxRequestBody).value;
                     && EqIgnoreCase(head.verb, f.verb) && head.target == BoundTarget(cfg.grant, c.asked.value.1)
                     && f.body == body && |body| <= cfg.grant.maxRequestBody
                     && f.headers == WithoutLeg(head.headers) + cfg.grant.injections
                     && Forwards(cfg.grant, head.headers, f.headers))
  {
    hide Inv;
    hide Resolve;
    hide RequestOf;
    hide WithoutLeg;
    hide Forwards;
    var c := ConnOf(RunAll(cfg, map[], trace), id);
    EveryRunIsSafe(cfg, trace, id);
    InvMeansIntended(cfg, c);
    RequestBodyFits(c.input, cfg.grant.maxRequestBody);
    if c.fetches != [] {
      RequestsForwardByRule(cfg.grant, RequestOf(c.input, cfg.grant.maxRequestBody).value.0.headers);
    }
  }

  /** Of these headers, the injections are the last, and each one before them may be set: its name is
      none of the fourteen denied ones, none of the injected ones, and granted by the policy. */
  ghost predicate ObeysThePolicy(g: Grant, upstream: seq<Header>) {
    var n := |upstream| - |g.injections|;
    && n >= 0 && upstream[n..] == g.injections
    && (forall k :: 0 <= k < n ==> MayBeSet(g, upstream[k]))
    && (g.policy.NoHeaders? ==> n == 0)
  }

  lemma ForwardedObeysThePolicy(g: Grant, sent: seq<Header>, upstream: seq<Header>)
    requires Forwards(g, sent, upstream)
    ensures ObeysThePolicy(g, upstream)
  {
    hide MayBeSet;
    hide IsTheRest;
    if g.policy.NoHeaders? {
      NoHeadersMeansInjectionsOnly(g, sent, upstream);
    }
    var client, places :| upstream == client + g.injections && IsTheRest(sent, client, places) && MaySet(g, client);
    assert forall k :: 0 <= k < |client| ==> upstream[k] == client[k];
  }

  /** Every fetch on every run obeys the policy on headers. */
  lemma EveryFetchObeysThePolicy(cfg: Config, trace: seq<(nat, Event)>, id: nat, f: Fetch)
    requires f in ConnOf(RunAll(cfg, map[], trace), id).fetches
    ensures ObeysThePolicy(cfg.grant, f.headers)
  {
    hide Forwards;
    hide ObeysThePolicy;
    hide RunAll;
    hide Resolve;
    hide RequestOf;
    hide WithoutLeg;
    FetchesAreExact(cfg, trace, id);
    var head := RequestOf(ConnOf(RunAll(cfg, map[], trace), id).input, cfg.grant.maxRequestBody).value.0;
    ForwardedObeysThePolicy(cfg.grant, head.headers, f.headers);
  }

  lemma RequestBodyFits(input: bytes, limit: nat)
    ensures RequestOf(input, limit).Ok? ==> |RequestOf(input, limit).value.1| <= limit
  {
    hide HeadOf;
    hide MachineDecode;
    match HeadOf(input)
    case Err(_) =>
    case Ok((head, rest)) => AcceptedBodyFits(rest, limit);
  }

  /** A mint request that is refused causes no fetch and hands over no descriptor, and so does
      anything short of a whole mint request. */
  lemma RefusedMintsDoNothing(cfg: Config, trace: seq<(nat, Event)>, id: nat)
    ensures var c := ConnOf(RunAll(cfg, map[], trace), id);
            (c.asked.Some? ==> Resolve(cfg.grant, c.asked.value.0, c.asked.value.1).Err?)
            ==> c.fetches == [] && Fd(1) !in c.sent
  {
    hide Inv;
    hide Resolve;
    hide RequestOf;
    var c := ConnOf(RunAll(cfg, map[], trace), id);
    EveryRunIsSafe(cfg, trace, id);
    InvMeansIntended(cfg, c);
  }

  /** Bytes that do not spell a request matching the binding cause no fetch. */
  lemma MismatchedRequestsFetchNothing(cfg: Config, trace: seq<(nat, Event)>, id: nat)
    ensures var c := ConnOf(RunAll(cfg, map[], trace), id);
            Intended(cfg, c.asked, c.input).None? ==> c.fetches == []
  {
    hide Inv;
    hide Intended;
    var c := ConnOf(RunAll(cfg, map[], trace), id);
    EveryRunIsSafe(cfg, trace, id);
    InvMeansIntended(cfg, c);
  }

  /** What the client sees for an outcome: the origin's status, sanitized reason, body and passed-on
      headers; or the status of the error, marked as a refusal, with the error in words. */
  ghost predicate IsOutcomeSeenAs(cfg: Config, c: Conn, outcome: Result<(), CoreError>, seen: ClientResponse) {
    match outcome
    case Err(e) => IsRefusalSeenAs(cfg, e, seen)
    case Ok(_) => c.fetches != [] && c.answer.Some? && IsAnswerSeenAs(c.answer.value, seen)
  }

  lemma AnswersAreSeen(cfg: Config, c: Conn, response: (ResponseHead, bytes), outcome: Result<(), CoreError>)
    requires Answers(cfg, c, response, outcome)
    ensures IsOutcomeSeenAs(cfg, c, outcome, Delivered(response.0, response.1))
  {
    hide RefusalFor;
    hide RelayHead;
    hide Delivered;
    hide IsRefusalSeenAs;
    hide IsAnswerSeenAs;
    hide FetchOutcome;
    match outcome
    case Err(e) => RefusalIsSeenSo(cfg, e);
    case Ok(_) => AcceptedReplyIsSeen(c.answer.value, cfg.grant.maxResponseBody);
  }

  /** When serving a handed-over descriptor has finished and nothing failed on the way out,
      exactly one response was written: the origin's, or the refusal of the error; and read back, it
      is seen as just that. */
  lemma FinishedDescriptorsAreAnswered(cfg: Config, trace: seq<(nat, Event)>, id: nat)
    ensures var c := ConnOf(RunAll(cfg, map[], trace), id);
            c.phase.Over? && Fd(1) in c.sent && !c.troubled
            ==> |c.responses| == 1 && Answers(cfg, c, c.responses[0], c.phase.outcome)
                && IsOutcomeSeenAs(cfg, c, c.phase.outcome, Delivered(c.responses[0].0, c.responses[0].1))
    ensures |ConnOf(RunAll(cfg, map[], trace), id).responses| <= 1
  {
    hide Intended;
    hide Binding;
    hide Answers;
    hide BoundArgs;
    hide RunAll;
    hide IsOutcomeSeenAs;
    hide Delivered;
    EveryRunIsSafe(cfg, trace, id);
    var c := ConnOf(RunAll(cfg, map[], trace), id);
    if c.phase.Over? && Fd(1) in c.sent && !c.troubled {
      AnswersAreSeen(cfg, c, c.responses[0], c.phase.outcome);
    }
  }

  /** A failure that the daemon is waiting to hear of: the response cannot be written, or the
      stream not be opened; or the piece that makes the chunked decoder stop the program. */
  ghost predicate Fails(cfg: Config, c: Conn, ev: Event) {
    (c.phase.AwaitWrite? && ev.WriteFailed?) || (c.phase.AwaitStream? && ev.StreamFailed?) || PieceStops(cfg, c, ev)
  }

  /** The body at hand, with this piece, is one on which the 64-bit decoder panics. */
  ghost predicate PieceStops(cfg: Config, c: Conn, ev: Event) {
    ev.Piece?
    && match c.phase
       case AwaitBody(head, buf) => BodyStops(cfg, head.framing, buf + ev.data)
       case AwaitHead(buf) =>
         var r := ReadableHead(buf + ev.data);
         r.Some? && HeadMatches(cfg, c, r.value.0) && BodyStops(cfg, r.value.0.framing, r.value.1)
       case _ => false
  }

  predicate BodyStops(cfg: Config, framing: BodyFraming, buf: bytes) {
    framing.ChunkedBody? && MachineDecode(buf, cfg.grant.maxRequestBody) == Panicked
  }

  /** The head in a buffer, and what follows it. */
  function ReadableHead(buf: bytes): Option<(RequestHead, bytes)> {
    match HeadOf(buf)
    case Err(_) => None
    case Ok((head, rest)) => Some((head, rest))
  }

  ghost predicate FailsAt(cfg: Config, c: Conn, events: seq<Event>, i: nat) {
    i < |events| && Fails(cfg, RunOne(cfg, c, events[..i]), events[i])
  }

  lemma BodyTroubles(cfg: Config, c: Conn, head: RequestHead, buf: bytes)
    ensures OnBodyBytes(cfg, c, head, buf).troubled <==> c.troubled || BodyStops(cfg, head.framing, buf)
  {
    hide MachineDecode;
    hide Binding;
    hide Applied;
    hide RefusalFor;
  }

  lemma HeadTroubles(cfg: Config, c: Conn, buf: bytes)
    ensures OnHeadBytes(cfg, c, buf).troubled
            <==> c.troubled || (var r := ReadableHead(buf);
                                && r.Some? && HeadMatches(cfg, c, r.value.0)
                                && BodyStops(cfg, r.value.0.framing, r.value.1))
  {
    hide OnBodyBytes;
    hide BodyStops;
    hide Parse;
    hide Resolve;
    hide Matches;
    hide RefusalFor;
    hide FirstHeadEnd;
    var r := ReadableHead(buf);
    if r.Some? {
      BodyTroubles(cfg, c, r.value.0, r.value.1);
    }
  }

  lemma EndTroubles(cfg: Config, c: Conn, head: RequestHead, buf: bytes)
    ensures OnBodyVerdict(cfg, c, head, buf, Ended).troubled == c.troubled
  {
    hide MachineDecode;
    hide Binding;
    hide Applied;
    hide RefusalFor;
  }

  lemma NothingIsReadable()
    ensures ReadableHead([]) == None
  {
  }

  lemma OneStepTroubles(cfg: Config, c: Conn, ev: Event)
    ensures Step(cfg, c, ev).troubled <==> c.troubled || Fails(cfg, c, ev)
  {
    hide Binding;
    hide BoundArgs;
    hide FindHeadEnd;
    hide OnHeadBytes;
    hide OnBodyBytes;
    hide BodyStops;
    hide ReadableHead;
    hide Matches;
    hide OnBodyVerdict;
    hide FetchOutcome;
    hide RelayHead;
    hide RefusalFor;
    hide Resolve;
    NothingIsReadable();
    match c.phase
    case AwaitStream => HeadTroubles(cfg, c, []);
    case AwaitHead(buf) =>
      if ev.Piece? {
        HeadTroubles(cfg, c.(input := c.input + ev.data), buf + ev.data);
      }
    case AwaitBody(head, buf) =>
      if ev.Piece? {
        BodyTroubles(cfg, c.(input := c.input + ev.data), head, buf + ev.data);
      }
      EndTroubles(cfg, c, head, buf);
    case _ =>
  }

  /** A connection is troubled exactly when such a failure was met. */
  lemma {:induction false} TroubleIsFailure(cfg: Config, c: Conn, events: seq<Event>)
    ensures RunOne(cfg, c, events).troubled <==> c.troubled || exists i :: FailsAt(cfg, c, events, i)
    decreases |events|
  {
    if events != [] {
      hide Step;
      hide Fails;
      var next, rest := Step(cfg, c, events[0]), events[1..];
      OneStepTroubles(cfg, c, events[0]);
      TroubleIsFailure(cfg, next, rest);
      assert events[..0] == [] && RunOne(cfg, c, []) == c;
      assert Fails(cfg, c, events[0]) <==> FailsAt(cfg, c, events, 0);
      forall i: nat ensures FailsAt(cfg, next, rest, i) <==> FailsAt(cfg, c, events, i + 1) {
        if i < |rest| {
          assert events[..i + 1] == [events[0]] + rest[..i];
          assert events[..i + 1][1..] == rest[..i];
        }
      }
      if i: nat :| FailsAt(cfg, c, events, i) {
        if i > 0 {
          assert FailsAt(cfg, next, rest, i - 1);
        }
      }
    }
  }

  /** Under every grant: every URL fetched keeps the base's scheme and authority, and its
      path, free of dot segments in every spelling, starts with the base path; the method is
      granted; and under an injected name the origin sees the injected values only. */
  lemma EveryFetchIsWithinTheBase(cfg: Config, trace: seq<(nat, Event)>, id: nat, f: Fetch)
    requires IsGrant(cfg.grant) && f in ConnOf(RunAll(cfg, map[], trace), id).fetches
    ensures f.url.scheme == cfg.grant.base.scheme && f.url.authority == cfg.grant.base.authority
    ensures cfg.grant.base.path <= f.url.path && Urls.IsNormalPath(f.url.path)
    ensures f.verb in cfg.grant.methods
    ensures forall name :: IsInjected(cfg.grant, Lower(name)) ==>
              Values(f.headers, name) == Values(cfg.grant.injections, name)
  {
    hide Inv;
    hide RunAll;
    hide IsGrant;
    hide Resolve;
    hide Urls.IsNormalPath;
    var c, g := ConnOf(RunAll(cfg, map[], trace), id), cfg.grant;
    EveryRunIsSafe(cfg, trace, id);
    InvMeansIntended(cfg, c);
    var (verb, target) := c.asked.value;
    IntendedIsResolved(cfg, c.asked, c.input);
    ResolvedIsWithinTheBase(g, verb, target);
    ResolvedMethod(g, verb, target);
  }

  /** With encoded separators off, no run reaches beyond the capability whatever the origin
      does first, decoding or removing dot segments. */
  lemma EveryFetchIsContained(cfg: Config, trace: seq<(nat, Event)>, id: nat, f: Fetch)
    requires IsGrant(cfg.grant) && !cfg.grant.allowEncodedSeparators && CleanBase(cfg.grant.base.path)
    requires f in ConnOf(RunAll(cfg, map[], trace), id).fetches
    ensures f.url.scheme == cfg.grant.base.scheme && f.url.authority == cfg.grant.base.authority
    ensures f.verb in cfg.grant.methods
    ensures cfg.grant.scope == Exact ==> f.url.path == cfg.grant.base.path
    ensures cfg.grant.base.path <= f.url.path && WellEscaped(f.url.path)
    ensures RemoveDotSegments(f.url.path) == f.url.path
    ensures Decoded(RemoveDotSegments(f.url.path)) == RemoveDotSegments(Decoded(f.url.path)) == Decoded(f.url.path)
    ensures Decoded(cfg.grant.base.path) <= Decoded(f.url.path)
    ensures forall name :: IsInjected(cfg.grant, Lower(name)) ==>
              Values(f.headers, name) == Values(cfg.grant.injections, name)
  {
    hide Inv;
    hide RunAll;
    hide CleanBase;
    hide IsGrant;
    var c, g := ConnOf(RunAll(cfg, map[], trace), id), cfg.grant;
    EveryRunIsSafe(cfg, trace, id);
    InvMeansIntended(cfg, c);
    var (verb, target) := c.asked.value;
    IntendedIsResolved(cfg, c.asked, c.input);
    ResolvedIsBeneathTheBase(g, verb, target);
    ResolvedMeansTheSameToEveryOrigin(g, verb, target);
    ResolvedUrl(g, verb, target);
    ResolvedMethod(g, verb, target);
  }

  /** Under every setting, a fetch keeps one meaning for every origin, whether it decodes or removes
      dot segments first and whether or not it takes `\` for `/`, exactly when neither the base
      nor what goes beyond it hides a dot segment. */
  lemma FetchesKeepOneMeaningExactly(cfg: Config, trace: seq<(nat, Event)>, id: nat, f: Fetch)
    requires IsGrant(cfg.grant) && f in ConnOf(RunAll(cfg, map[], trace), id).fetches
    ensures MeansOneThingExactly(cfg.grant.base.path, f.url.path)
  {
    hide Inv;
    hide RunAll;
    hide IsGrant;
    hide Resolve;
    hide MeansOneThingExactly;
    var c, g := ConnOf(RunAll(cfg, map[], trace), id), cfg.grant;
    EveryRunIsSafe(cfg, trace, id);
    InvMeansIntended(cfg, c);
    var (verb, target) := c.asked.value;
    IntendedIsResolved(cfg, c.asked, c.input);
    ResolvedMeansOneThingExactly(g, verb, target);
  }

  /** Under every setting, no run reaches beyond the capability through an origin that decodes
      first, unless the decoded segments beyond the base climb. */
  lemma EveryFetchStaysUnlessItClimbs(cfg: Config, trace: seq<(nat, Event)>, id: nat, f: Fetch)
    requires IsGrant(cfg.grant) && CleanBase(cfg.grant.base.path)
    requires f in ConnOf(RunAll(cfg, map[], trace), id).fetches
    ensures StaysUnlessItClimbs(cfg.grant.base.path, f.url.path)
  {
    hide Inv;
    hide RunAll;
    hide CleanBase;
    hide IsGrant;
    hide Resolve;
    hide StaysUnlessItClimbs;
    var c, g := ConnOf(RunAll(cfg, map[], trace), id), cfg.grant;
    EveryRunIsSafe(cfg, trace, id);
    InvMeansIntended(cfg, c);
    var (verb, target) := c.asked.value;
    IntendedIsResolved(cfg, c.asked, c.input);
    ResolvedStaysUnlessItClimbs(g, verb, target);
  }

  lemma ResolvedMethod(g: Grant, verb: string, target: string)
    requires Resolve(g, verb, target).Ok?
    ensures Resolve(g, verb, target).value.0 in g.methods && IsToken(Resolve(g, verb, target).value.0)
    ensures IsCanonical(Resolve(g, verb, target).value.0)
  {
    hide Join;
    hide Normalize;
    hide Canonicalize;
    CanonicalizeIsIdempotent(Asked(g, verb, target).0);
  }

  lemma IntendedIsResolved(cfg: Config, asked: Option<(string, string)>, input: bytes)
    requires Intended(cfg, asked, input).Some?
    ensures var f := Intended(cfg, asked, input).value;
            && asked.Some? && Resolve(cfg.grant, asked.value.0, asked.value.1) == Ok((f.verb, f.url))
            && forall name :: IsInjected(cfg.grant, Lower(name)) ==>
                 Values(f.headers, name) == Values(cfg.grant.injections, name)
  {
    hide Resolve;
    hide RequestOf;
    hide WithoutLeg;
    hide Values;
    var (head, body) := RequestOf(input, cfg.grant.maxRequestBody).value;
    UpstreamHeadersAreExact(cfg.grant, head.headers);
  }
}
