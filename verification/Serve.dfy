/** The daemon's program for one connection, and that it is the state machine's run. */
module Serve {
  import opened Octets
  import opened Errors
  import opened Framing
  import opened Reading
  import opened Readers
  import opened Response
  import opened Grants
  import opened Mint
  import opened Upstream
  import opened Session
  import opened Safety
  import opened Scripts
  import opened OneShot

  /** The origin: what it was asked, and what it will answer. */
  class Origin {
    var requests: seq<Fetch>
    const reply: OriginReply

    constructor (reply: OriginReply)
      ensures this.reply == reply && requests == []
    {
      this.reply := reply;
      requests := [];
    }

    method Ask(f: Fetch) returns (answer: OriginReply)
      modifies this
      ensures requests == old(requests) + [f] && answer == reply
    {
      requests := requests + [f];
      answer := reply;
    }
  }

  // ----- the program -----

  /** What the writing of a response comes to. */
  function WriteOf(fates: seq<Option<nat>>, response: (ResponseHead, bytes)): Write {
    WriteTwo(fates, Encode(response.0, |response.1|), response.1)
  }

  /** Write head and body, until a write fails. */
  method WriteResponse(socket: Socket, head: ResponseHead, body: bytes) returns (ok: bool)
    modifies socket`written, socket`fates
    ensures var w := WriteOf(old(socket.fates), (head, body));
            ok == w.ok && socket.written == old(socket.written) + w.landed && socket.fates == w.fates
  {
    var encoded := EncodeHead(head, |body|);
    hide Encode;
    ok := socket.WriteAll(encoded);
    if ok {
      Assoc(old(socket.written), encoded, WriteOne(socket.fates, body).landed);
      ok := socket.WriteAll(body);
    }
  }

  method DropLegHeaders(headers: seq<Header>) returns (client: seq<Header>)
    ensures client == WithoutLeg(headers)
  {
    hide IsLegHeader;
    client := [];
    for i := 0 to |headers|
      invariant client + WithoutLeg(headers[i..]) == WithoutLeg(headers)
    {
      var h := headers[i];
      assert headers[i..][0] == h && headers[i..][1..] == headers[i + 1..];
      if !IsLegHeader(h) {
        Assoc(client, [h], WithoutLeg(headers[i + 1..]));
        client := client + [h];
      } else {
        Assoc(client, [], WithoutLeg(headers[i + 1..]));
      }
    }
    assert client + [] == client;
  }

  /** Ask the origin, within the response limit. */
  method FetchUpstream(cfg: Config, origin: Origin, f: Fetch) returns (r: Result<UpstreamResponse, CoreError>)
    modifies origin
    ensures origin.requests == old(origin.requests) + [f]
    ensures r == FetchOutcome(origin.reply, cfg.grant.maxResponseBody)
  {
    var limit := cfg.grant.maxResponseBody;
    var answer := origin.Ask(f);
    match answer {
      case NoReply => return Err(CoreError.Upstream);
      case Reply(status, reason, headers, declared, chunks, broken) =>
        if declared.Some? && declared.value > limit {
          return Err(TooLargeResponse(limit));
        }
        var body := ReadCapped(chunks, broken, limit);
        if body.Err? {
          return Err(body.error);
        }
        return Ok(UpstreamResponse(status, reason, headers, body.value));
    }
  }

  method RelayHeaders(u: UpstreamResponse) returns (head: ResponseHead)
    ensures head == RelayHead(u)
  {
    hide IsHopByHop;
    hide IsRelayable;
    var connection := ConnectionOf(u.headers);
    var out: seq<Header> := [];
    for i := 0 to |u.headers|
      invariant out + Relayed(u.headers[i..], connection) == Relayed(u.headers, connection)
    {
      var h := u.headers[i];
      assert u.headers[i..][0] == h && u.headers[i..][1..] == u.headers[i + 1..];
      if !IsHopByHop(h.0, connection) && IsRelayable(h.1) {
        Assoc(out, [h], Relayed(u.headers[i + 1..], connection));
        out := out + [h];
      } else {
        Assoc(out, [], Relayed(u.headers[i + 1..], connection));
      }
    }
    assert out + [] == out;
    return ResponseHead(u.status, u.reason, out);
  }

  /** Read the request off the descriptor, relay it, write the response back. */
  method ServeRequest(cfg: Config, socket: Socket, origin: Origin, boundVerb: string, boundTarget: string, url: Url)
    returns (outcome: Result<(), CoreError>)
    requires socket.Valid()
    modifies socket, origin
    ensures var s := ServiceOf(cfg, boundVerb, boundTarget, url, old(socket.segments), socket.broken, origin.reply);
            var w := WriteOf(old(socket.fates), s.response);
            && origin.requests == old(origin.requests) + s.fetches
            && (s.outcome.Err? ==>
                  outcome == s.outcome && socket.written == old(socket.written) && socket.fates == old(socket.fates))
            && (s.outcome.Ok? ==>
                  && outcome == (if w.ok then s.outcome else Err(IoFailed))
                  && socket.written == old(socket.written) + w.landed && socket.fates == w.fates)
  {
    hide HeadResult;
    hide BodyResult;
    hide BodyProgress;
    hide Accumulate;
    hide Matches;
    hide Applied;
    hide FetchOutcome;
    hide WithoutLeg;
    hide RefusalFor;
    hide RelayHead;
    hide WriteOf;
    hide Interrupted;
    Nothing(origin.requests);
    var request := ReadHead(socket);
    if request.Err? {
      return Err(request.error);
    }
    var (head, leftover) := request.value;
    if !Matches(head, boundVerb, boundTarget) {
      return Err(Denial(NotFixedRequest));
    }
    var body := ReadBody(socket, head.framing, leftover, cfg.grant.maxRequestBody);
    if body.Err? {
      return Err(body.error);
    }
    var client := DropLegHeaders(head.headers);
    var headers := ApplyHeaders(cfg.grant, client);
    if headers.Err? {
      return Err(Denial(headers.error));
    }
    var response := FetchUpstream(cfg, origin, Fetch(boundVerb, url, headers.value, body.value));
    if response.Err? {
      return Err(response.error);
    }
    var out := RelayHeaders(response.value);
    var ok := WriteResponse(socket, out, response.value.body);
    return if ok then Ok(()) else Err(IoFailed);
  }

  lemma Nothing<T>(s: seq<T>)
    ensures s + [] == s
  {
  }

  /** How the writes of one connection go, and the bytes that get out. */
  datatype Landing = Landing(first: bool, second: bool, landed: bytes)

  function LandingOfService(cfg: Config, s: Service, fates: seq<Option<nat>>): Landing {
    var w := WriteOf(fates, s.response);
    if s.outcome == Err(Stopped) then Landing(true, true, [])
    else if w.ok then Landing(true, true, w.landed)
    else if s.outcome.Err? then Landing(false, true, w.landed)
    else
      var v := WriteOf(w.fates, RefusalFor(cfg, IoFailed));
      Landing(false, v.ok, w.landed + v.landed)
  }

  function LandingOf(cfg: Config, w: World, fates: seq<Option<nat>>): Landing {
    match ServiceIn(cfg, w)
    case None => Landing(true, true, [])
    case Some(s) => LandingOfService(cfg, s, fates)
  }

  /** The run of the machine in this world ends so and is safe; and if the request is settled,
      another cutting of the same bytes ends and writes the same. */
  ghost predicate IsTheRun(cfg: Config, w: World, fates: seq<Option<nat>>, e: Summary) {
    var l := LandingOf(cfg, w, fates);
    var c := RunOne(cfg, FRESH, Script(w, l.first, l.second));
    && EndsAs(c, e) && Inv(cfg, c)
    && (!e.troubled ==> l.landed == if e.responses == [] then [] else ResponseBytes(e.responses[0]))
    && (SettledRequest(cfg.grant.maxRequestBody, Flatten(w.segs)) ==> CuttingIsNoMatter(cfg, w, fates, e))
  }

  ghost predicate CuttingIsNoMatter(cfg: Config, w: World, fates: seq<Option<nat>>, e: Summary) {
    forall segs :: Segments(segs) && Flatten(segs) == Flatten(w.segs) ==>
      var v := w.(segs := segs);
      var l := LandingOf(cfg, v, fates);
      l == LandingOf(cfg, w, fates) && EndsAs(RunOne(cfg, FRESH, Script(v, l.first, l.second)), e)
  }

  lemma LandedIsTheResponse(cfg: Config, w: World, fates: seq<Option<nat>>)
    ensures var l := LandingOf(cfg, w, fates);
            var e := EndOf(cfg, w, l.first, l.second);
            !e.troubled ==> l.landed == if e.responses == [] then [] else ResponseBytes(e.responses[0])
  {
    hide ReadArgs;
    hide Resolve;
    hide ServiceOf;
    hide GetThrough;
    hide RefusalFor;
    hide Encode;
    hide WriteTwo;
  }

  lemma EveryWorldRuns(cfg: Config, w: World, fates: seq<Option<nat>>)
    requires Segments(w.segs)
    ensures var l := LandingOf(cfg, w, fates);
            IsTheRun(cfg, w, fates, EndOf(cfg, w, l.first, l.second))
  {
    hide EndOf;
    hide RunOne;
    hide Script;
    hide Inv;
    hide EndsAs;
    hide LandingOf;
    hide SettledRequest;
    hide CuttingIsNoMatter;
    var l := LandingOf(cfg, w, fates);
    ScriptsEnd(cfg, w, l.first, l.second);
    LandedIsTheResponse(cfg, w, fates);
    FreshIsInv(cfg);
    RunKeepsInv(cfg, FRESH, Script(w, l.first, l.second));
    if SettledRequest(cfg.grant.maxRequestBody, Flatten(w.segs)) {
      SettledStreamsAreServedAlike(cfg, w, fates);
    }
  }

  lemma SettledStreamsAreServedAlike(cfg: Config, w: World, fates: seq<Option<nat>>)
    requires Segments(w.segs) && SettledRequest(cfg.grant.maxRequestBody, Flatten(w.segs))
    ensures var l := LandingOf(cfg, w, fates);
            CuttingIsNoMatter(cfg, w, fates, EndOf(cfg, w, l.first, l.second))
  {
    hide EndOf;
    hide ServiceIn;
    hide RunOne;
    hide Script;
    hide EndsAs;
    hide SettledRequest;
    hide LandingOfService;
    forall segs | Segments(segs) && Flatten(segs) == Flatten(w.segs)
      ensures var v := w.(segs := segs);
              var l := LandingOf(cfg, v, fates);
              && l == LandingOf(cfg, w, fates)
              && EndsAs(RunOne(cfg, FRESH, Script(v, l.first, l.second)), EndOf(cfg, w, l.first, l.second))
    {
      var v, l := w.(segs := segs), LandingOf(cfg, w, fates);
      CuttingLeavesTheEnd(cfg, w, segs);
      ScriptsEnd(cfg, v, l.first, l.second);
    }
  }

  /** Serve one client: the mint request, the offer, the one request it is good for. Whether the
      sockets can be made and the stream be opened is up to the system. */
  method ServeConnection(cfg: Config, transport: Transport, paired: bool, ready: bool, socket: Socket, origin: Origin)
    returns (outcome: Result<(), CoreError>)
    requires socket.Valid()
    modifies transport, socket, origin
    ensures var w := World(old(transport.inbox), transport.broken, old(transport.sends), paired, ready,
                           old(socket.segments), socket.broken, origin.reply);
            var l := LandingOf(cfg, w, old(socket.fates));
            var e := EndOf(cfg, w, l.first, l.second);
            && IsTheRun(cfg, w, old(socket.fates), e)
            && outcome == e.outcome && transport.outbox == old(transport.outbox) + e.sent
            && origin.requests == old(origin.requests) + e.fetches
            && socket.written == old(socket.written) + l.landed
  {
    hide IsTheRun;
    hide ServiceOf;
    hide ReadArgs;
    hide Resolve;
    hide RefusalFor;
    hide WriteOf;
    hide Finish;
    hide LandingOfService;
    hide GetThrough;
    ghost var w := World(transport.inbox, transport.broken, transport.sends, paired, ready,
                         socket.segments, socket.broken, origin.reply);
    ghost var written, fates := socket.written, socket.fates;
    Nothing(socket.written);
    Nothing(origin.requests);
    Nothing(transport.outbox);
    EveryWorldRuns(cfg, w, socket.fates);
    var request := ReadMintRequest(transport);
    if request.Err? {
      var _ := transport.Send(Failure(request.error));
      return Err(request.error);
    }
    var (verb, target) := request.value;
    var resolved := Resolve(cfg.grant, verb, target);
    if resolved.Err? {
      var ok := transport.Send(Failure(Denial(resolved.error)));
      return Err(if ok then Denial(resolved.error) else TransportFailed);
    }
    var (boundVerb, url) := resolved.value;
    var boundTarget := BoundTarget(cfg.grant, target);
    if !paired {
      return Err(IoFailed);
    }
    var offered := SendThree(transport, Arg(boundVerb), Arg(boundTarget), Fd(1));
    if !offered {
      return Err(TransportFailed);
    }
    if !ready {
      return Err(IoFailed);
    }
    ghost var s := ServiceOf(cfg, boundVerb, boundTarget, url, w.segs, w.broken, w.reply);
    assert ServiceIn(cfg, w) == Some(s);
    ServiceEnds(cfg, [Arg(boundVerb), Arg(boundTarget), Fd(1)], s, fates);
    outcome := ServeRequest(cfg, socket, origin, boundVerb, boundTarget, url);
    if outcome.Err? && outcome.error != Stopped {
      RefusalOfService(cfg, boundVerb, boundTarget, url, w.segs, w.broken, w.reply);
      Assoc(written, WriteOf(fates, s.response).landed,
            WriteOf(WriteOf(fates, s.response).fates, RefusalFor(cfg, IoFailed)).landed);
      var (head, body) := RefusalFor(cfg, outcome.error);
      var _ := WriteResponse(socket, head, body);
    }
  }

  /** How serving ends and what is written, when the writes meet these fates. */
  lemma ServiceEnds(cfg: Config, sent: seq<Message>, s: Service, fates: seq<Option<nat>>)
    ensures var l, w := LandingOfService(cfg, s, fates), WriteOf(fates, s.response);
            var e := Finish(cfg, sent, s, l.first, l.second);
            && e.sent == sent && e.fetches == s.fetches
            && (s.outcome == Err(Stopped) ==> e.outcome == s.outcome && l.landed == [])
            && (s.outcome != Err(Stopped) && (w.ok || s.outcome.Err?) ==>
                  e.outcome == s.outcome && l.landed == w.landed)
            && (!w.ok && s.outcome.Ok? ==>
                  && e.outcome == Err(IoFailed)
                  && l.landed == w.landed + WriteOf(w.fates, RefusalFor(cfg, IoFailed)).landed)
  {
    hide WriteOf;
    hide RefusalFor;
  }

  lemma RefusalOfService(cfg: Config, verb: string, target: string, url: Url,
                         segs: seq<bytes>, broken: bool, reply: OriginReply)
    ensures var s := ServiceOf(cfg, verb, target, url, segs, broken, reply);
            s.outcome.Err? ==> s.response == RefusalFor(cfg, s.outcome.error)
  {
    hide HeadResult;
    hide BodyResult;
    hide BodyProgress;
    hide Accumulate;
    hide Matches;
    hide Applied;
    hide FetchOutcome;
    hide RefusalFor;
    hide Interrupted;
  }
}
