/** The runs of the machine in which one connection is served from start to end, whatever
    fails on the way, and what they come to. */
module Scripts {
  import opened Octets
  import opened Errors
  import opened Framing
  import opened Request
  import opened Reading
  import opened Readers
  import opened Response
  import opened Grants
  import opened Mint
  import opened Upstream
  import opened Session
  import opened Safety
  import opened Honest

  /** What serving a descriptor comes to. */
  datatype Service = Service(fetches: seq<Fetch>, response: (ResponseHead, bytes), outcome: Result<(), CoreError>)

  function Declined(cfg: Config, fetches: seq<Fetch>, e: CoreError): Service {
    Service(fetches, RefusalFor(cfg, e), Err(e))
  }

  function ServiceOf(cfg: Config, verb: string, target: string, url: Url,
                     segs: seq<bytes>, broken: bool, reply: OriginReply): Service {
    var p := Accumulate(WholeHead, [], segs);
    match Interrupted<(RequestHead, bytes)>(broken, p, HeadResult(p))
    case Err(e) => Declined(cfg, [], e)
    case Ok((head, leftover)) =>
      if !Matches(head, verb, target) then Declined(cfg, [], Denial(NotFixedRequest))
      else
        var limit := cfg.grant.maxRequestBody;
        var q := BodyProgress(head.framing, limit, leftover, p.rest);
        match Interrupted<bytes>(broken, q, BodyResult(head.framing, limit, q))
        case Err(e) => Declined(cfg, [], e)
        case Ok(body) => Relaying(cfg, verb, url, head, body, reply)
  }

  function Relaying(cfg: Config, verb: string, url: Url, head: RequestHead, body: bytes, reply: OriginReply): Service {
    match Applied(cfg.grant, WithoutLeg(head.headers))
    case Err(denied) => Declined(cfg, [], Denial(denied))
    case Ok(headers) =>
      var f := Fetch(verb, url, headers, body);
      match FetchOutcome(reply, cfg.grant.maxResponseBody)
      case Err(e) => Declined(cfg, [f], e)
      case Ok(u) => Service([f], (RelayHead(u), u.body), Ok(()))
  }

  // ----- everything that happens to one connection -----

  /** The messages of the channel and its end, how the sends go, whether the sockets can be made
      and the stream be opened, the pieces on the descriptor and their end, and the origin. */
  datatype World = World(
    inbox: seq<Message>, channelBroken: bool, sends: seq<bool>, paired: bool, ready: bool,
    segs: seq<bytes>, broken: bool, reply: OriginReply)

  function Messages(inbox: seq<Message>): seq<Event> {
    if inbox == [] then [] else [Received(inbox[0])] + Messages(inbox[1..])
  }

  function EndOfMint(broken: bool): Event {
    if broken then ChannelFailed else ChannelClosed
  }

  function SendEvent(sends: seq<bool>, i: nat): Event {
    if SendGoesWell(sends, i) then Sent else SendFailed
  }

  function EndOfStream(broken: bool): Event {
    if broken then ReadFailed else StreamEnded
  }

  function WriteEvent(ok: bool): Event {
    if ok then Wrote else WriteFailed
  }

  function Opening(w: World): (events: seq<Event>)
    ensures |events| == 5
  {
    [if w.paired then SocketsMade else SocketsFailed, SendEvent(w.sends, 0), SendEvent(w.sends, 1),
     SendEvent(w.sends, 2), if w.ready then StreamReady else StreamFailed]
  }

  /** The request on the descriptor, the answer, and how the response and, should that fail,
      the refusal are written. */
  function Serving(w: World, first: bool, second: bool): seq<Event> {
    (Pieces(w.segs) + [EndOfStream(w.broken)]) + [Answered(w.reply), WriteEvent(first), WriteEvent(second)]
  }

  /** All of it, in order. What is not awaited is ignored. */
  function Script(w: World, first: bool, second: bool): seq<Event> {
    (Messages(w.inbox) + [EndOfMint(w.channelBroken)]) + (Opening(w) + Serving(w, first, second))
  }

  // ----- what it comes to -----

  datatype Summary = Summary(
    outcome: Result<(), CoreError>, sent: seq<Message>, fetches: seq<Fetch>,
    responses: seq<(ResponseHead, bytes)>, troubled: bool)

  predicate EndsAs(c: Conn, e: Summary) {
    c.phase == Over(e.outcome) && c.sent == e.sent && c.fetches == e.fetches
    && c.responses == e.responses && c.troubled == e.troubled
  }

  /** Nothing is written if the program has stopped. Else the response is written, or, if an
      answer cannot be relayed, a refusal in its place. */
  function Finish(cfg: Config, sent: seq<Message>, s: Service, first: bool, second: bool): Summary {
    if s.outcome == Err(Stopped) then Summary(s.outcome, sent, s.fetches, [], true)
    else if first then Summary(s.outcome, sent, s.fetches, [s.response], false)
    else if s.outcome.Err? then Summary(s.outcome, sent, s.fetches, [], true)
    else Summary(Err(IoFailed), sent, s.fetches, if second then [RefusalFor(cfg, IoFailed)] else [], true)
  }

  /** A resolved mint, from the making of the sockets on. */
  function ServedEnd(cfg: Config, w: World, verb: string, target: string, url: Url,
                     first: bool, second: bool): Summary {
    var sent := GetThrough(w.sends, Arg(verb), Arg(target), Fd(1));
    if !w.paired then Summary(Err(IoFailed), [], [], [], false)
    else if |sent| < 3 then Summary(Err(TransportFailed), sent, [], [], false)
    else if !w.ready then Summary(Err(IoFailed), sent, [], [], true)
    else Finish(cfg, sent, ServiceOf(cfg, verb, target, url, w.segs, w.broken, w.reply), first, second)
  }

  /** The service that the descriptor gets, if it gets that far. */
  function ServiceIn(cfg: Config, w: World): Option<Service> {
    match ReadArgs(w.inbox, [], w.channelBroken)
    case Err(_) => None
    case Ok((verb, target)) =>
      match Resolve(cfg.grant, verb, target)
      case Err(_) => None
      case Ok((boundVerb, url)) =>
        var boundTarget := BoundTarget(cfg.grant, target);
        if !w.paired || |GetThrough(w.sends, Arg(boundVerb), Arg(boundTarget), Fd(1))| < 3 || !w.ready then None
        else Some(ServiceOf(cfg, boundVerb, boundTarget, url, w.segs, w.broken, w.reply))
  }

  function EndOf(cfg: Config, w: World, first: bool, second: bool): Summary {
    var well := SendGoesWell(w.sends, 0);
    match ReadArgs(w.inbox, [], w.channelBroken)
    case Err(e) => Summary(Err(e), if well then [Failure(e)] else [], [], [], false)
    case Ok((verb, target)) =>
      match Resolve(cfg.grant, verb, target)
      case Err(denied) =>
        var e := Denial(denied);
        if well then Summary(Err(e), [Failure(e)], [], [], false) else Summary(Err(TransportFailed), [], [], [], false)
      case Ok((boundVerb, url)) =>
        ServedEnd(cfg, w, boundVerb, BoundTarget(cfg.grant, target), url, first, second)
  }

  // ----- the mint -----

  lemma RunStep(cfg: Config, c: Conn, ev: Event, rest: seq<Event>)
    ensures RunOne(cfg, c, [ev] + rest) == RunOne(cfg, Step(cfg, c, ev), rest)
  {
    hide Step;
    assert ([ev] + rest)[1..] == rest;
  }

  lemma {:induction false} MessagesAreIgnored(cfg: Config, c: Conn, inbox: seq<Message>)
    requires c.phase.AwaitErrorSent? || c.phase.AwaitSockets?
    ensures RunOne(cfg, c, Messages(inbox)) == c
  {
    hide RunOne;
    if inbox == [] {
      RunNothing(cfg, c);
    } else {
      RunStep(cfg, c, Received(inbox[0]), Messages(inbox[1..]));
      assert Step(cfg, c, Received(inbox[0])) == c;
      MessagesAreIgnored(cfg, c, inbox[1..]);
    }
  }

  function AfterMint(cfg: Config, c: Conn, inbox: seq<Message>, args: seq<string>, broken: bool): Conn {
    match ReadArgs(inbox, args, broken)
    case Err(e) => MintFails(c, e)
    case Ok((verb, target)) => OnMintRequest(cfg, c, verb, target)
  }

  lemma EndIsMet(cfg: Config, c: Conn, ev: Event)
    ensures RunOne(cfg, c, [ev]) == Step(cfg, c, ev)
  {
    hide RunOne;
    assert [ev] == [ev] + [];
    RunStep(cfg, c, ev, []);
    RunNothing(cfg, Step(cfg, c, ev));
  }

  /** The machine reads the mint request as the loop does. */
  lemma {:induction false} MintPhaseRuns(cfg: Config, inbox: seq<Message>, args: seq<string>, broken: bool)
    requires |args| <= 2
    ensures RunOne(cfg, FRESH.(phase := AwaitMint(args)), Messages(inbox) + [EndOfMint(broken)])
            == AfterMint(cfg, FRESH, inbox, args, broken)
    decreases |inbox|
  {
    hide RunOne;
    hide Resolve;
    var c, end := FRESH.(phase := AwaitMint(args)), EndOfMint(broken);
    if inbox == [] {
      assert Messages(inbox) + [end] == [end];
      EndIsMet(cfg, c, end);
    } else {
      var ev, rest := Received(inbox[0]), Messages(inbox[1..]);
      Assoc([ev], rest, [end]);
      RunStep(cfg, c, ev, rest + [end]);
      if inbox[0].Arg? && |args| < 2 {
        MintPhaseRuns(cfg, inbox[1..], args + [inbox[0].text], broken);
      } else {
        var next := Step(cfg, c, ev);
        assert next.phase.AwaitErrorSent? || next.phase.AwaitSockets?;
        RunConcat(cfg, next, rest, [end]);
        MessagesAreIgnored(cfg, next, inbox[1..]);
        EndIsMet(cfg, next, end);
      }
    }
  }

  lemma {:induction false} OverIsOver(cfg: Config, c: Conn, events: seq<Event>)
    requires c.phase.Over?
    ensures RunOne(cfg, c, events) == c
    decreases |events|
  {
    if events != [] {
      assert Step(cfg, c, events[0]) == c;
      OverIsOver(cfg, c, events[1..]);
    }
  }

  lemma ScriptAfterMint(cfg: Config, w: World, first: bool, second: bool)
    ensures RunOne(cfg, FRESH, Script(w, first, second))
            == RunOne(cfg, AfterMint(cfg, FRESH, w.inbox, [], w.channelBroken), Opening(w) + Serving(w, first, second))
  {
    hide RunOne;
    hide AfterMint;
    hide Opening;
    hide Serving;
    RunConcat(cfg, FRESH, Messages(w.inbox) + [EndOfMint(w.channelBroken)], Opening(w) + Serving(w, first, second));
    MintPhaseRuns(cfg, w.inbox, [], w.channelBroken);
  }

  /** A mint that failed tries to send its error, and is over. */
  lemma FailureIsSent(cfg: Config, c: Conn, w: World, events: seq<Event>)
    requires c.phase.AwaitErrorSent?
    ensures RunOne(cfg, c, Opening(w) + events)
            == if SendGoesWell(w.sends, 0)
               then c.(phase := Over(Err(c.phase.error)), sent := c.sent + [Failure(c.phase.error)])
               else c.(phase := Over(Err(c.phase.onFailure)))
  {
    hide RunOne;
    var opening := Opening(w);
    var rest := opening[2..] + events;
    assert opening + events == [opening[0], opening[1]] + rest;
    RunTwo(cfg, c, opening[0], opening[1], rest);
    OverIsOver(cfg, Step(cfg, Step(cfg, c, opening[0]), opening[1]), rest);
  }

  // ----- the offer -----

  /** The connection once the offer has been made, or not. */
  function Opened(cfg: Config, c: Conn, w: World): Conn {
    var offer := Offer(cfg.grant, c.asked);
    var sent := GetThrough(w.sends, offer[0], offer[1], offer[2]);
    if !w.paired then c.(phase := Over(Err(IoFailed)))
    else if |sent| < 3 then c.(sent := sent, phase := Over(Err(TransportFailed)))
    else if !w.ready then c.(sent := sent, phase := Over(Err(IoFailed)), troubled := true)
    else c.(sent := sent, phase := AwaitHead([]))
  }

  /** The connection after the sockets and the first send. */
  function HalfOpened(cfg: Config, c: Conn, w: World): Conn {
    if !w.paired then c.(phase := Over(Err(IoFailed)))
    else if !SendGoesWell(w.sends, 0) then c.(phase := Over(Err(TransportFailed)))
    else c.(phase := AwaitTargetSent, sent := [Offer(cfg.grant, c.asked)[0]])
  }

  lemma OpeningRuns(cfg: Config, c: Conn, w: World)
    requires c.phase == AwaitSockets && c.sent == [] && c.input == []
    ensures RunOne(cfg, c, Opening(w)) == Opened(cfg, c, w)
  {
    hide RunOne;
    hide Opened;
    hide HalfOpened;
    hide Step;
    var o := Opening(w);
    RunTwo(cfg, c, o[0], o[1], [o[2], o[3], o[4]]);
    assert o == [o[0], o[1]] + [o[2], o[3], o[4]];
    FirstSend(cfg, c, w);
    var c2 := HalfOpened(cfg, c, w);
    RunTwo(cfg, c2, o[2], o[3], [o[4]]);
    assert [o[2], o[3], o[4]] == [o[2], o[3]] + [o[4]];
    EndIsMet(cfg, Step(cfg, Step(cfg, c2, o[2]), o[3]), o[4]);
    OtherSends(cfg, c, w);
  }

  lemma FirstSend(cfg: Config, c: Conn, w: World)
    requires c.phase == AwaitSockets && c.sent == []
    ensures Step(cfg, Step(cfg, c, Opening(w)[0]), Opening(w)[1]) == HalfOpened(cfg, c, w)
  {
    hide BoundArgs;
    var offer := Offer(cfg.grant, c.asked);
    assert [] + [offer[0]] == [offer[0]];
  }

  lemma OverStays(cfg: Config, c: Conn, ev: Event)
    requires c.phase.Over?
    ensures Step(cfg, c, ev) == c
  {
  }

  lemma SecondSend(cfg: Config, c: Conn, w: World)
    requires c.phase == AwaitTargetSent
    ensures Step(cfg, c, Opening(w)[2])
            == if SendGoesWell(w.sends, 1)
               then c.(phase := AwaitFdSent, sent := c.sent + [Arg(BoundArgs(cfg.grant, c.asked).1)])
               else c.(phase := Over(Err(TransportFailed)))
  {
    hide BoundArgs;
  }

  lemma OtherSends(cfg: Config, c: Conn, w: World)
    requires c.phase == AwaitSockets && c.sent == [] && c.input == []
    ensures var o := Opening(w);
            Step(cfg, Step(cfg, Step(cfg, HalfOpened(cfg, c, w), o[2]), o[3]), o[4]) == Opened(cfg, c, w)
  {
    hide BoundArgs;
    hide Step;
    hide Opening;
    var o, offer, half := Opening(w), Offer(cfg.grant, c.asked), HalfOpened(cfg, c, w);
    if half.phase.Over? {
      OverStays(cfg, half, o[2]);
      OverStays(cfg, half, o[3]);
      OverStays(cfg, half, o[4]);
      assert c.(sent := []) == c;
    } else {
      SecondSend(cfg, half, w);
      var third := Step(cfg, half, o[2]);
      if third.phase.Over? {
        OverStays(cfg, third, o[3]);
        OverStays(cfg, third, o[4]);
      } else {
        assert third.sent == [offer[0], offer[1]];
        LastSend(cfg, third, w);
      }
    }
  }

  lemma LastSend(cfg: Config, c: Conn, w: World)
    requires c.phase == AwaitFdSent && c.input == []
    ensures Step(cfg, Step(cfg, c, Opening(w)[3]), Opening(w)[4])
            == if !SendGoesWell(w.sends, 2) then c.(phase := Over(Err(TransportFailed)))
               else if !w.ready then c.(sent := c.sent + [Fd(1)], phase := Over(Err(IoFailed)), troubled := true)
               else c.(sent := c.sent + [Fd(1)], phase := AwaitHead([]))
  {
    hide FirstHeadEnd;
    NoHeadInNothing();
    if SendGoesWell(w.sends, 2) {
      assert Step(cfg, c, Opening(w)[3]) == c.(phase := AwaitStream, sent := c.sent + [Fd(1)]);
    }
  }

  // ----- the request -----

  lemma EndIsIgnored(cfg: Config, c: Conn, broken: bool)
    requires c.phase.AwaitAnswer? || c.phase.AwaitWrite? || c.phase.Over?
    ensures RunOne(cfg, c, [EndOfStream(broken)]) == c
  {
    hide RunOne;
    EndIsMet(cfg, c, EndOfStream(broken));
  }

  /** The body, and the end of the stream after it. */
  lemma BodyPhaseRuns(cfg: Config, c: Conn, head: RequestHead, buf: bytes, segs: seq<bytes>, broken: bool)
      returns (input: bytes)
    requires Segments(segs)
    ensures var limit := cfg.grant.maxRequestBody;
            var q := BodyProgress(head.framing, limit, buf, segs);
            RunOne(cfg, OnBodyBytes(cfg, c, head, buf), Pieces(segs) + [EndOfStream(broken)])
            == match Interrupted<bytes>(broken, q, BodyResult(head.framing, limit, q))
               case Err(e) => GiveUp(cfg, c.(input := input), e)
               case Ok(body) => OnRequest(cfg, c.(input := input), head, body)
  {
    hide RunOne;
    hide Step;
    hide BodyProgress;
    hide BodyResult;
    hide BodyState;
    hide Refuse;
    hide OnRequest;
    hide Pieces;
    hide EndOfStream;
    var limit := cfg.grant.maxRequestBody;
    RunConcat(cfg, OnBodyBytes(cfg, c, head, buf), Pieces(segs), [EndOfStream(broken)]);
    input := BodyPieces(cfg, c, head, buf, segs);
    var p := BodyProgress(head.framing, limit, buf, segs);
    var d := c.(input := input);
    BodyVerdictIsState(head.framing, limit, buf, segs);
    VerdictOnly(head.framing, limit, p);
    if p.verdict == Ended {
      NoPieces();
      RunNothing(cfg, OnBodyBytes(cfg, d, head, p.buf));
      BodyEnds(cfg, d, head, p.buf, broken);
    } else {
      OnBodyVerdictPhase(cfg, d, head, p.buf, p.verdict);
      PiecesAreIgnored(cfg, OnBodyVerdict(cfg, d, head, p.buf, p.verdict), p.rest);
      EndIsIgnored(cfg, OnBodyVerdict(cfg, d, head, p.buf, p.verdict), broken);
    }
  }

  lemma NoPieces()
    ensures Pieces([]) == []
  {
  }

  lemma BodyEnds(cfg: Config, c: Conn, head: RequestHead, buf: bytes, broken: bool)
    requires BodyState(head.framing, cfg.grant.maxRequestBody, buf) == None
    ensures RunOne(cfg, OnBodyBytes(cfg, c, head, buf), [EndOfStream(broken)])
            == if broken then Refuse(cfg, c, IoFailed) else OnBodyVerdict(cfg, c, head, buf, Ended)
  {
    hide RunOne;
    hide BodyState;
    hide BodyResult;
    hide Applied;
    hide Binding;
    hide RefusalFor;
    EndIsMet(cfg, OnBodyBytes(cfg, c, head, buf), EndOfStream(broken));
  }

  lemma OnBodyVerdictPhase(cfg: Config, c: Conn, head: RequestHead, buf: bytes, verdict: Verdict)
    ensures var phase := OnBodyVerdict(cfg, c, head, buf, verdict).phase;
            phase.AwaitAnswer? || phase.AwaitWrite? || phase.Over?
  {
    hide BodyResult;
    hide Applied;
    hide Binding;
    hide RefusalFor;
  }

  lemma VerdictOnly(framing: BodyFraming, limit: nat, p: Progress)
    ensures BodyResult(framing, limit, p) == BodyResult(framing, limit, Progress(p.verdict, p.buf, []))
  {
  }

  lemma BodyVerdictIsState(framing: BodyFraming, limit: nat, buf: bytes, segs: seq<bytes>)
    requires Segments(segs)
    ensures var p := BodyProgress(framing, limit, buf, segs);
            && (p.verdict == Ended ==> BodyState(framing, limit, p.buf) == None && p.rest == [])
            && (p.verdict != Ended ==> BodyState(framing, limit, p.buf) == Some(p.verdict))
  {
    hide Accumulate;
    hide Reached;
    hide ExpectedVerdict;
    if ReadsBody(framing, limit) {
      AccumulateStops(BodyGoal(framing, limit), buf, segs);
    }
  }

  /** Why the accumulation stopped. */
  lemma {:induction false} AccumulateStops(g: Goal, buf: bytes, segs: seq<bytes>)
    ensures var p := Accumulate(g, buf, segs);
            match p.verdict
            case Finished => Reached(g, p.buf)
            case Overgrown => !Reached(g, p.buf) && PastGuard(g, |p.buf|)
            case Ended => !Reached(g, p.buf) && !PastGuard(g, |p.buf|) && p.rest == []
    decreases |segs|
  {
    hide Reached;
    if !Reached(g, buf) && !PastGuard(g, |buf|) && segs != [] {
      AccumulateStops(g, buf + segs[0], segs[1..]);
    }
  }

  /** The whole request: head, binding check, body. */
  function AfterRequest(cfg: Config, c: Conn, verb: string, target: string, segs: seq<bytes>, broken: bool): Conn {
    var p := Accumulate(WholeHead, [], segs);
    match Interrupted<(RequestHead, bytes)>(broken, p, HeadResult(p))
    case Err(e) => Refuse(cfg, c, e)
    case Ok((head, leftover)) =>
      if !Matches(head, verb, target) then Refuse(cfg, c, Denial(NotFixedRequest))
      else
        var limit := cfg.grant.maxRequestBody;
        var q := BodyProgress(head.framing, limit, leftover, p.rest);
        match Interrupted<bytes>(broken, q, BodyResult(head.framing, limit, q))
        case Err(e) => GiveUp(cfg, c, e)
        case Ok(body) => OnRequest(cfg, c, head, body)
  }

  lemma RequestPhaseRuns(cfg: Config, c: Conn, segs: seq<bytes>, broken: bool) returns (input: bytes)
    requires c.phase == AwaitHead([]) && c.input == [] && Bound(cfg, c) && Segments(segs)
    ensures var (verb, target) := BoundArgs(cfg.grant, c.asked);
            RunOne(cfg, c, Pieces(segs) + [EndOfStream(broken)])
            == AfterRequest(cfg, c.(input := input), verb, target, segs, broken)
  {
    hide RunOne;
    hide OnHeadBytes;
    hide OnBodyBytes;
    hide BodyProgress;
    hide BodyResult;
    hide HeadResult;
    hide Refuse;
    hide OnRequest;
    hide Accumulate;
    hide Binding;
    hide Matches;
    hide Pieces;
    hide EndOfStream;
    WaitingForHead(cfg, c);
    HeadPieces(cfg, c, [], segs);
    RunConcat(cfg, c, Pieces(segs), [EndOfStream(broken)]);
    var p := Accumulate(WholeHead, [], segs);
    AccumulateKeepsBytes(WholeHead, [], segs);
    AccumulateStops(WholeHead, [], segs);
    input := p.buf;
    var d := c.(input := p.buf);
    RunConcat(cfg, OnHeadBytes(cfg, d, p.buf), Pieces(p.rest), [EndOfStream(broken)]);
    if HeadResult(p).Err? {
      UnacceptedHead(cfg, d, p);
      if p.verdict == Ended {
        NoPieces();
        RunNothing(cfg, OnHeadBytes(cfg, d, p.buf));
        HeadEnds(cfg, d, p.buf, broken);
      } else {
        RefusePhase(cfg, d, HeadResult(p).error);
        PiecesAreIgnored(cfg, Refuse(cfg, d, HeadResult(p).error), p.rest);
        EndIsIgnored(cfg, Refuse(cfg, d, HeadResult(p).error), broken);
      }
    } else {
      var (head, leftover) := HeadResult(p).value;
      AcceptedHeadIsFinished(p);
      if Matches(head, BoundArgs(cfg.grant, c.asked).0, BoundArgs(cfg.grant, c.asked).1) {
        HeadIsAccepted(cfg, d, p, head);
        RunConcat(cfg, OnBodyBytes(cfg, d, head, leftover), Pieces(p.rest), [EndOfStream(broken)]);
        input := BodyPhaseRuns(cfg, d, head, leftover, p.rest, broken);
        assert d.(input := input) == c.(input := input);
      } else {
        MismatchedHead(cfg, d, p);
        RefusePhase(cfg, d, Denial(NotFixedRequest));
        PiecesAreIgnored(cfg, Refuse(cfg, d, Denial(NotFixedRequest)), p.rest);
        EndIsIgnored(cfg, Refuse(cfg, d, Denial(NotFixedRequest)), broken);
      }
    }
  }

  lemma RefusePhase(cfg: Config, c: Conn, e: CoreError)
    ensures Refuse(cfg, c, e).phase.AwaitWrite?
  {
    hide RefusalFor;
  }

  lemma UnacceptedHead(cfg: Config, c: Conn, p: Progress)
    requires HeadResult(p).Err?
    requires p.verdict == Finished ==> Reached(WholeHead, p.buf)
    requires p.verdict != Finished ==> !Reached(WholeHead, p.buf)
    requires p.verdict == Overgrown <==> p.verdict != Finished && PastGuard(WholeHead, |p.buf|)
    ensures p.verdict != Ended ==> OnHeadBytes(cfg, c, p.buf) == Refuse(cfg, c, HeadResult(p).error)
    ensures p.verdict == Ended ==> OnHeadBytes(cfg, c, p.buf) == c.(phase := AwaitHead(p.buf))
                                   && HeadResult(p).error == Handshake(ClosedBeforeHead)
  {
    hide Parse;
    hide Refuse;
    hide FirstHeadEnd;
  }

  lemma HeadEnds(cfg: Config, c: Conn, buf: bytes, broken: bool)
    requires OnHeadBytes(cfg, c, buf) == c.(phase := AwaitHead(buf))
    ensures RunOne(cfg, OnHeadBytes(cfg, c, buf), [EndOfStream(broken)])
            == Refuse(cfg, c, if broken then IoFailed else Handshake(ClosedBeforeHead))
  {
    hide RunOne;
    hide OnHeadBytes;
    hide RefusalFor;
    EndIsMet(cfg, OnHeadBytes(cfg, c, buf), EndOfStream(broken));
  }

  lemma MismatchedHead(cfg: Config, c: Conn, p: Progress)
    requires p.verdict == Finished && HeadResult(p).Ok? && Bound(cfg, c)
    requires !Matches(HeadResult(p).value.0, BoundArgs(cfg.grant, c.asked).0, BoundArgs(cfg.grant, c.asked).1)
    ensures OnHeadBytes(cfg, c, p.buf) == Refuse(cfg, c, Denial(NotFixedRequest))
  {
    hide Parse;
    hide Refuse;
    hide FirstHeadEnd;
    hide Matches;
    hide Resolve;
  }

  // ----- the answer -----

  /** The service ends as the origin's reply makes it end. */
  ghost predicate RepliesWith(cfg: Config, s: Service, reply: OriginReply) {
    var r := FetchOutcome(reply, cfg.grant.maxResponseBody);
    if r.Err? then s.response == RefusalFor(cfg, r.error) && s.outcome == Err(r.error)
    else s.response == (RelayHead(r.value), r.value.body) && s.outcome == Ok(())
  }

  /** The response this connection is about to write, and how it will end. */
  ghost predicate AboutToWrite(c: Conn, s: Service) {
    c.phase.AwaitWrite? && (c.phase.response, c.phase.body) == s.response && c.phase.outcome == s.outcome
  }

  /** The answer makes the response; a connection that has its response ignores it. */
  lemma AnswerMakesResponse(cfg: Config, c: Conn, s: Service, reply: OriginReply)
    requires AboutToWrite(c, s) || (c.phase.AwaitAnswer? && RepliesWith(cfg, s, reply))
    ensures var d := Step(cfg, c, Answered(reply));
            && AboutToWrite(d, s)
            && d.sent == c.sent && d.fetches == c.fetches && d.responses == c.responses
  {
    hide FetchOutcome;
    hide RelayHead;
    hide RefusalFor;
  }

  /** The program has stopped: nothing will be written. */
  ghost predicate HasStopped(c: Conn, s: Service) {
    c.phase == Over(Err(Stopped)) && s.outcome == Err(Stopped) && c.troubled
  }

  lemma StoppedFinish(cfg: Config, c: Conn, s: Service, first: bool, second: bool)
    requires HasStopped(c, s) && c.responses == [] && c.fetches == s.fetches
    ensures EndsAs(c, Finish(cfg, c.sent, s, first, second))
  {
  }

  /** Writing the response, and the refusal should the answer not be writable. */
  lemma WritingRuns(cfg: Config, c: Conn, s: Service, first: bool, second: bool)
    requires AboutToWrite(c, s) && c.responses == [] && c.fetches == s.fetches && !c.troubled
    requires s.outcome != Err(Stopped)
    ensures var d := Step(cfg, Step(cfg, c, WriteEvent(first)), WriteEvent(second));
            EndsAs(d, Finish(cfg, c.sent, s, first, second))
  {
    hide RefusalFor;
    if first {
      assert [] + [s.response] == [s.response];
      assert Step(cfg, c, Wrote) == c.(responses := [s.response], phase := Over(s.outcome));
    } else if s.outcome.Err? {
      assert Step(cfg, c, WriteFailed) == c.(troubled := true, phase := Over(s.outcome));
    } else {
      var r := RefusalFor(cfg, IoFailed);
      var d := c.(troubled := true, phase := AwaitWrite(r.0, r.1, Err(IoFailed)));
      assert Step(cfg, c, WriteFailed) == d;
      SecondWrite(cfg, d, second);
    }
  }

  lemma SecondWrite(cfg: Config, c: Conn, second: bool)
    requires c.phase.AwaitWrite? && c.phase.outcome.Err? && c.responses == [] && c.troubled
    ensures Step(cfg, c, WriteEvent(second))
            == c.(phase := Over(c.phase.outcome),
                  responses := if second then [(c.phase.response, c.phase.body)] else [])
  {
    var r := (c.phase.response, c.phase.body);
    assert [] + [r] == [r];
  }

  lemma AnswerPhaseRuns(cfg: Config, c: Conn, s: Service, reply: OriginReply, first: bool, second: bool)
    requires c.responses == [] && c.fetches == s.fetches && !c.troubled && s.outcome != Err(Stopped)
    requires AboutToWrite(c, s) || (c.phase.AwaitAnswer? && RepliesWith(cfg, s, reply))
    ensures EndsAs(RunOne(cfg, c, [Answered(reply), WriteEvent(first), WriteEvent(second)]),
                   Finish(cfg, c.sent, s, first, second))
  {
    hide RunOne;
    hide RepliesWith;
    hide Finish;
    hide AboutToWrite;
    hide WriteEvent;
    AnswerMakesResponse(cfg, c, s, reply);
    RunTwo(cfg, c, Answered(reply), WriteEvent(first), [WriteEvent(second)]);
    assert [Answered(reply), WriteEvent(first), WriteEvent(second)]
        == [Answered(reply), WriteEvent(first)] + [WriteEvent(second)];
    var d := Step(cfg, c, Answered(reply));
    EndIsMet(cfg, Step(cfg, d, WriteEvent(first)), WriteEvent(second));
    WritingRuns(cfg, d, s, first, second);
  }

  lemma OnlyBodiesStop(p: Progress, reply: OriginReply, limit: nat)
    ensures HeadResult(p) != Err(Stopped) && FetchOutcome(reply, limit) != Err(Stopped)
  {
    hide Parse;
    hide CappedFrom;
    FetchedBodyIsExact(reply, limit);
    if reply.Reply? {
      CappedIsExact([], reply.chunks, reply.broken, limit);
    }
  }

  /** The connection goes on as the service does. */
  ghost predicate GoesOnAs(cfg: Config, c: Conn, d: Conn, s: Service, reply: OriginReply) {
    && d.sent == c.sent && d.responses == c.responses && d.fetches == s.fetches
    && (if s.outcome == Err(Stopped) then HasStopped(d, s)
        else && d.troubled == c.troubled
             && (AboutToWrite(d, s) || (d.phase.AwaitAnswer? && RepliesWith(cfg, s, reply))))
  }

  lemma GivingUpGoesOn(cfg: Config, c: Conn, e: CoreError, reply: OriginReply)
    requires c.fetches == []
    ensures GoesOnAs(cfg, c, GiveUp(cfg, c, e), Declined(cfg, [], e), reply)
    ensures e != Stopped ==> GiveUp(cfg, c, e) == Refuse(cfg, c, e)
  {
    hide RefusalFor;
  }

  lemma RequestGoesOn(cfg: Config, c: Conn, head: RequestHead, body: bytes, reply: OriginReply)
    requires Bound(cfg, c) && c.fetches == []
    ensures var b := Binding(cfg.grant, c.asked).value;
            GoesOnAs(cfg, c, OnRequest(cfg, c, head, body), Relaying(cfg, b.0, b.2, head, body, reply), reply)
  {
    OnlyBodiesStop(Progress(Ended, [], []), reply, cfg.grant.maxResponseBody);
    hide Applied;
    hide WithoutLeg;
    hide FetchOutcome;
    hide RelayHead;
    hide RefusalFor;
    hide Binding;
  }

  lemma ServiceAfterRequest(cfg: Config, c: Conn, segs: seq<bytes>, broken: bool, reply: OriginReply)
    requires Bound(cfg, c) && c.fetches == []
    ensures var b := Binding(cfg.grant, c.asked).value;
            GoesOnAs(cfg, c, AfterRequest(cfg, c, b.0, b.1, segs, broken),
                     ServiceOf(cfg, b.0, b.1, b.2, segs, broken, reply), reply)
  {
    hide HeadResult;
    hide BodyResult;
    hide BodyProgress;
    hide Accumulate;
    hide Matches;
    hide Binding;
    hide GoesOnAs;
    hide GiveUp;
    hide Refuse;
    hide Declined;
    hide Relaying;
    hide OnRequest;
    var b, limit := Binding(cfg.grant, c.asked).value, cfg.grant.maxRequestBody;
    var p := Accumulate(WholeHead, [], segs);
    OnlyBodiesStop(p, reply, limit);
    GivingUpGoesOn(cfg, c, Denial(NotFixedRequest), reply);
    match Interrupted<(RequestHead, bytes)>(broken, p, HeadResult(p))
    case Err(e) => GivingUpGoesOn(cfg, c, e, reply);
    case Ok((head, leftover)) =>
      var q := BodyProgress(head.framing, limit, leftover, p.rest);
      match Interrupted<bytes>(broken, q, BodyResult(head.framing, limit, q))
      case Err(e) => GivingUpGoesOn(cfg, c, e, reply);
      case Ok(body) => RequestGoesOn(cfg, c, head, body, reply);
  }

  // ----- the whole run -----

  lemma ScriptOfResolvedMint(cfg: Config, w: World, verb: string, target: string, first: bool, second: bool)
    requires Segments(w.segs) && Resolve(cfg.grant, verb, target).Ok?
    ensures var (boundVerb, url) := Resolve(cfg.grant, verb, target).value;
            EndsAs(RunOne(cfg, OnMintRequest(cfg, FRESH, verb, target), Opening(w) + Serving(w, first, second)),
                   ServedEnd(cfg, w, boundVerb, BoundTarget(cfg.grant, target), url, first, second))
  {
    hide RunOne;
    hide Resolve;
    hide ServiceOf;
    hide AfterRequest;
    hide Opening;
    hide Finish;
    hide RepliesWith;
    var c1 := OnMintRequest(cfg, FRESH, verb, target);
    RunConcat(cfg, c1, Opening(w), Serving(w, first, second));
    OpeningRuns(cfg, c1, w);
    var c3 := Opened(cfg, c1, w);
    if c3.phase.Over? {
      OverIsOver(cfg, c3, Serving(w, first, second));
    } else {
      var answer := [Answered(w.reply), WriteEvent(first), WriteEvent(second)];
      RunConcat(cfg, c3, Pieces(w.segs) + [EndOfStream(w.broken)], answer);
      var input := RequestPhaseRuns(cfg, c3, w.segs, w.broken);
      var c4 := c3.(input := input);
      ServiceAfterRequest(cfg, c4, w.segs, w.broken, w.reply);
      var b := Binding(cfg.grant, c4.asked).value;
      var s := ServiceOf(cfg, b.0, b.1, b.2, w.segs, w.broken, w.reply);
      var c5 := AfterRequest(cfg, c4, b.0, b.1, w.segs, w.broken);
      if s.outcome == Err(Stopped) {
        OverIsOver(cfg, c5, answer);
        StoppedFinish(cfg, c5, s, first, second);
      } else {
        AnswerPhaseRuns(cfg, c5, s, w.reply, first, second);
      }
    }
  }

  /** Whatever happens to a connection, its run ends, and ends as summarized. */
  lemma ScriptsEnd(cfg: Config, w: World, first: bool, second: bool)
    requires Segments(w.segs)
    ensures EndsAs(RunOne(cfg, FRESH, Script(w, first, second)), EndOf(cfg, w, first, second))
  {
    hide RunOne;
    hide ReadArgs;
    hide Script;
    hide Resolve;
    hide Opening;
    hide Serving;
    hide ServedEnd;
    ScriptAfterMint(cfg, w, first, second);
    match ReadArgs(w.inbox, [], w.channelBroken)
    case Err(e) =>
      FailureIsSent(cfg, MintFails(FRESH, e), w, Serving(w, first, second));
    case Ok((verb, target)) =>
      if Resolve(cfg.grant, verb, target).Err? {
        FailureIsSent(cfg, OnMintRequest(cfg, FRESH, verb, target), w, Serving(w, first, second));
      } else {
        ScriptOfResolvedMint(cfg, w, verb, target, first, second);
      }
  }
}
