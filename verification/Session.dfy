/** One mint session of the daemon as a state machine, and many of them interleaved.

    A connection waits at one point at a time; an event is what that wait returns. The holder
    of the descriptor, the origin and every failure are the events; the daemon's step is a
    function. Connections share nothing but the configuration. */
module Session {
  import opened Octets
  import opened Errors
  import opened Framing
  import opened Request
  import opened Reading
  import opened Readers
  import opened Response
  import opened Grants
  import opened Mint
  import opened Upstream

  /** The grant, and how an error is put into words. */
  datatype Config = Config(grant: Grant, describe: CoreError -> string)

  datatype Event =
    | Received(message: Message) | ChannelClosed | ChannelFailed
    | Sent | SendFailed
    | SocketsMade | SocketsFailed
    | StreamReady | StreamFailed
    | Piece(data: bytes) | StreamEnded | ReadFailed
    | Answered(reply: OriginReply)
    | Wrote | WriteFailed

  datatype Phase =
    | AwaitMint(args: seq<string>)
    | AwaitErrorSent(error: CoreError, onFailure: CoreError)
    | AwaitSockets
    | AwaitVerbSent
    | AwaitTargetSent
    | AwaitFdSent
    | AwaitStream
    | AwaitHead(buf: bytes)
    | AwaitBody(head: RequestHead, buf: bytes)
    | AwaitAnswer
    | AwaitWrite(response: ResponseHead, body: bytes, outcome: Result<(), CoreError>)
    | Over(outcome: Result<(), CoreError>)

  datatype Fetch = Fetch(verb: string, url: Url, headers: seq<Header>, body: bytes)

  /** A connection: where it waits, and a record of all it has seen and done. */
  datatype Conn = Conn(
    phase: Phase,
    asked: Option<(string, string)>,
    sent: seq<Message>,
    input: bytes,
    fetches: seq<Fetch>,
    answer: Option<OriginReply>,
    responses: seq<(ResponseHead, bytes)>,
    troubled: bool)

  const FRESH: Conn := Conn(AwaitMint([]), None, [], [], [], None, [], false)

  // ----- what a mint binds -----

  function Binding(g: Grant, asked: Option<(string, string)>): Option<(string, string, Url)> {
    if asked.None? then None
    else
      var (verb, target) := asked.value;
      match Resolve(g, verb, target)
      case Err(_) => None
      case Ok((boundVerb, url)) => Some((boundVerb, BoundTarget(g, target), url))
  }

  /** What the daemon actually bound, which for a pinned endpoint is not what was asked. */
  function BoundTarget(g: Grant, target: string): string {
    match g.fixed
    case Some(fixed) => fixed.target
    case None => target
  }

  predicate Matches(head: RequestHead, boundVerb: string, boundTarget: string) {
    EqIgnoreCase(head.verb, boundVerb) && head.target == boundTarget
  }

  // ----- refusing -----

  function RefusalStatus(e: CoreError): (nat, string) {
    match e
    case Denial(TooLarge(RequestLeg, _)) => (413, "Content Too Large")
    case Denial(TooLarge(ResponseLeg, _)) => (502, "Bad Gateway")
    case Denial(_) => (403, "Forbidden")
    case Http(_) => (400, "Bad Request")
    case Upstream => (502, "Bad Gateway")
    case _ => (500, "Internal Server Error")
  }

  function RefusalFor(cfg: Config, e: CoreError): (ResponseHead, bytes) {
    var (status, reason) := RefusalStatus(e);
    Refusal(status, reason, cfg.describe(e))
  }

  function Refuse(cfg: Config, c: Conn, e: CoreError): Conn {
    var (head, body) := RefusalFor(cfg, e);
    c.(phase := AwaitWrite(head, body, Err(e)))
  }

  /** A program that has stopped writes no refusal. */
  function GiveUp(cfg: Config, c: Conn, e: CoreError): Conn {
    if e == Stopped then c.(phase := Over(Err(Stopped)), troubled := true) else Refuse(cfg, c, e)
  }

  // ----- the steps -----

  function MintFails(c: Conn, e: CoreError): Conn {
    c.(phase := AwaitErrorSent(e, e))
  }

  function OnMintRequest(cfg: Config, c: Conn, verb: string, target: string): Conn {
    var asked := c.(asked := Some((verb, target)));
    match Resolve(cfg.grant, verb, target)
    case Err(denied) => asked.(phase := AwaitErrorSent(Denial(denied), TransportFailed))
    case Ok(_) => asked.(phase := AwaitSockets)
  }

  function MintStep(cfg: Config, c: Conn, args: seq<string>, ev: Event): Conn {
    match ev
    case Received(Arg(text)) =>
      if |args| >= 2 then MintFails(c, Handshake(NotMethodAndTarget)) else c.(phase := AwaitMint(args + [text]))
    case Received(BadArg) => MintFails(c, if |args| >= 2 then Handshake(NotMethodAndTarget) else Malformed)
    case Received(End) =>
      if |args| == 2 then OnMintRequest(cfg, c, args[0], args[1])
      else MintFails(c, Handshake(NotMethodAndTarget))
    case Received(_) => MintFails(c, Handshake(UnexpectedMessage))
    case ChannelClosed => MintFails(c, Handshake(ClosedChannel))
    case ChannelFailed => MintFails(c, TransportFailed)
    case _ => c
  }

  function SendStep(c: Conn, m: Message, next: Phase, ev: Event): Conn {
    match ev
    case Sent => c.(sent := c.sent + [m], phase := next)
    case SendFailed => c.(phase := Over(Err(TransportFailed)))
    case _ => c
  }

  /** Client headers checked and the injections added: the fetch is issued. */
  function OnRequest(cfg: Config, c: Conn, head: RequestHead, body: bytes): Conn {
    match (Applied(cfg.grant, WithoutLeg(head.headers)), Binding(cfg.grant, c.asked))
    case (Ok(headers), Some((verb, _, url))) =>
      c.(phase := AwaitAnswer, fetches := c.fetches + [Fetch(verb, url, headers, body)])
    case (Err(denied), _) => Refuse(cfg, c, Denial(denied))
    case (_, None) => Refuse(cfg, c, Denial(NotFixedRequest))
  }

  /** How far the body has got with the bytes at hand. */
  function BodyState(framing: BodyFraming, limit: nat, buf: bytes): Option<Verdict> {
    if !ReadsBody(framing, limit) || Reached(BodyGoal(framing, limit), buf) then Some(Finished)
    else if PastGuard(BodyGoal(framing, limit), |buf|) then Some(Overgrown)
    else None
  }

  function OnBodyVerdict(cfg: Config, c: Conn, head: RequestHead, buf: bytes, verdict: Verdict): Conn {
    match BodyResult(head.framing, cfg.grant.maxRequestBody, Progress(verdict, buf, []))
    case Err(e) => GiveUp(cfg, c, e)
    case Ok(body) => OnRequest(cfg, c, head, body)
  }

  function OnBodyBytes(cfg: Config, c: Conn, head: RequestHead, buf: bytes): Conn {
    match BodyState(head.framing, cfg.grant.maxRequestBody, buf)
    case None => c.(phase := AwaitBody(head, buf))
    case Some(verdict) => OnBodyVerdict(cfg, c, head, buf, verdict)
  }

  function OnHead(cfg: Config, c: Conn, head: RequestHead, leftover: bytes): Conn {
    match Binding(cfg.grant, c.asked)
    case None => Refuse(cfg, c, Denial(NotFixedRequest))
    case Some((verb, target, _)) =>
      if !Matches(head, verb, target) then Refuse(cfg, c, Denial(NotFixedRequest))
      else OnBodyBytes(cfg, c, head, leftover)
  }

  function OnHeadBytes(cfg: Config, c: Conn, buf: bytes): Conn {
    match FindHeadEnd(buf)
    case Some(end) =>
      (match Parse(buf[..end])
       case Err(e) => Refuse(cfg, c, Http(e))
       case Ok(head) => OnHead(cfg, c, head, buf[end..]))
    case None =>
      if |buf| > MAX_HEAD_LEN then Refuse(cfg, c, Http(HeadTooLarge))
      else c.(phase := AwaitHead(buf))
  }

  function HeadStep(cfg: Config, c: Conn, buf: bytes, ev: Event): Conn {
    match ev
    case Piece(data) => OnHeadBytes(cfg, c.(input := c.input + data), buf + data)
    case StreamEnded => Refuse(cfg, c, Handshake(ClosedBeforeHead))
    case ReadFailed => Refuse(cfg, c, IoFailed)
    case _ => c
  }

  function BodyStep(cfg: Config, c: Conn, head: RequestHead, buf: bytes, ev: Event): Conn {
    match ev
    case Piece(data) => OnBodyBytes(cfg, c.(input := c.input + data), head, buf + data)
    case StreamEnded => OnBodyVerdict(cfg, c, head, buf, Ended)
    case ReadFailed => Refuse(cfg, c, IoFailed)
    case _ => c
  }

  function RelayHead(u: UpstreamResponse): ResponseHead {
    ResponseHead(u.status, u.reason, Relayed(u.headers, ConnectionOf(u.headers)))
  }

  function AnswerStep(cfg: Config, c: Conn, ev: Event): Conn {
    match ev
    case Answered(reply) =>
      var heard := c.(answer := Some(reply));
      (match FetchOutcome(reply, cfg.grant.maxResponseBody)
       case Err(e) => Refuse(cfg, heard, e)
       case Ok(u) => heard.(phase := AwaitWrite(RelayHead(u), u.body, Ok(()))))
    case _ => c
  }

  /** A relayed response that cannot be written is followed by an attempt at a refusal. */
  function WriteStep(cfg: Config, c: Conn, response: ResponseHead, body: bytes,
                     outcome: Result<(), CoreError>, ev: Event): Conn {
    match ev
    case Wrote => c.(responses := c.responses + [(response, body)], phase := Over(outcome))
    case WriteFailed =>
      var hurt := c.(troubled := true);
      if outcome.Ok? then Refuse(cfg, hurt, IoFailed) else hurt.(phase := Over(outcome))
    case _ => c
  }

  /** One step of the daemon. An event that is not awaited changes nothing. */
  function Step(cfg: Config, c: Conn, ev: Event): Conn {
    match c.phase
    case AwaitMint(args) => MintStep(cfg, c, args, ev)
    case AwaitErrorSent(error, onFailure) =>
      if ev.Sent? then c.(phase := Over(Err(error)), sent := c.sent + [Failure(error)])
      else if ev.SendFailed? then c.(phase := Over(Err(onFailure)))
      else c
    case AwaitSockets =>
      if ev.SocketsMade? then c.(phase := AwaitVerbSent)
      else if ev.SocketsFailed? then c.(phase := Over(Err(IoFailed)))
      else c
    case AwaitVerbSent => SendStep(c, Arg(BoundArgs(cfg.grant, c.asked).0), AwaitTargetSent, ev)
    case AwaitTargetSent => SendStep(c, Arg(BoundArgs(cfg.grant, c.asked).1), AwaitFdSent, ev)
    case AwaitFdSent => SendStep(c, Fd(1), AwaitStream, ev)
    case AwaitStream =>
      if ev.StreamReady? then OnHeadBytes(cfg, c, [])
      else if ev.StreamFailed? then c.(phase := Over(Err(IoFailed)), troubled := true)
      else c
    case AwaitHead(buf) => HeadStep(cfg, c, buf, ev)
    case AwaitBody(head, buf) => BodyStep(cfg, c, head, buf, ev)
    case AwaitAnswer => AnswerStep(cfg, c, ev)
    case AwaitWrite(response, body, outcome) => WriteStep(cfg, c, response, body, outcome, ev)
    case Over(_) => c
  }

  /** The method and target reported to the client. */
  function BoundArgs(g: Grant, asked: Option<(string, string)>): (string, string) {
    match Binding(g, asked)
    case None => ("", "")
    case Some((verb, target, _)) => (verb, target)
  }

  // ----- runs -----

  function RunOne(cfg: Config, c: Conn, events: seq<Event>): Conn
    decreases |events|
  {
    if events == [] then c else RunOne(cfg, Step(cfg, c, events[0]), events[1..])
  }

  /** All connections: one that has not been heard of is fresh. */
  type System = map<nat, Conn>

  function ConnOf(s: System, id: nat): Conn {
    if id in s then s[id] else FRESH
  }

  function RunAll(cfg: Config, s: System, trace: seq<(nat, Event)>): System
    decreases |trace|
  {
    if trace == [] then s
    else
      var (id, ev) := trace[0];
      RunAll(cfg, s[id := Step(cfg, ConnOf(s, id), ev)], trace[1..])
  }

  /** The events of one connection in an interleaving. */
  function EventsOf(trace: seq<(nat, Event)>, id: nat): seq<Event> {
    if trace == [] then []
    else (if trace[0].0 == id then [trace[0].1] else []) + EventsOf(trace[1..], id)
  }

  /** Interleaving is invisible: in every run each connection is where its own events alone
      would have brought it. */
  lemma {:induction false} ConnectionsAreIndependent(cfg: Config, s: System, trace: seq<(nat, Event)>, id: nat)
    ensures ConnOf(RunAll(cfg, s, trace), id) == RunOne(cfg, ConnOf(s, id), EventsOf(trace, id))
    decreases |trace|
  {
    hide Step;
    if trace != [] {
      var (who, ev) := trace[0];
      var next := s[who := Step(cfg, ConnOf(s, who), ev)];
      ConnectionsAreIndependent(cfg, next, trace[1..], id);
      if who == id {
        var events := EventsOf(trace, id);
        assert events[0] == ev && events[1..] == EventsOf(trace[1..], id);
      } else {
        assert EventsOf(trace, id) == EventsOf(trace[1..], id);
      }
    }
  }

  lemma {:induction false} RunConcat(cfg: Config, c: Conn, a: seq<Event>, b: seq<Event>)
    ensures RunOne(cfg, c, a + b) == RunOne(cfg, RunOne(cfg, c, a), b)
    decreases |a|
  {
    hide Step;
    if a == [] {
      assert a + b == b;
    } else {
      assert (a + b)[1..] == a[1..] + b;
      RunConcat(cfg, Step(cfg, c, a[0]), a[1..], b);
    }
  }
}
