/** What becomes of a descriptor, case by case, in terms of the bytes on it and of the origin's answer
    alone. */
module ServiceRules {
  import opened Octets
  import opened Errors
  import opened Framing
  import opened Request
  import opened RequestText
  import opened Reading
  import opened Readers
  import opened Grants
  import opened HeaderRules
  import opened ResponseRoundTrip
  import opened Upstream
  import opened Session
  import opened Relay
  import opened Honest
  import opened Scripts
  import opened OneShot

  // ----- the origin's part -----

  /** Why an answer is not relayed: there is none, it breaks off, or it is or announces more than the
      limit; and the last goes before the second as soon as the limit is passed. */
  ghost predicate IsReplyRefusal(reply: OriginReply, limit: nat, e: CoreError) {
    if reply.NoReply? then e == CoreError.Upstream
    else if (reply.declared.Some? && reply.declared.value > limit) || |Flatten(reply.chunks)| > limit then
      e == Denial(Denied.TooLarge(ResponseLeg, limit))
    else reply.broken && e == CoreError.Upstream
  }

  lemma ReplyRefusals(reply: OriginReply, limit: nat, e: CoreError)
    ensures FetchOutcome(reply, limit) == Err(e) <==> IsReplyRefusal(reply, limit, e)
  {
    if reply.Reply? {
      CappedIsExact([], reply.chunks, reply.broken, limit);
      assert [] + Flatten(reply.chunks) == Flatten(reply.chunks);
    }
  }

  // ----- the whole service -----

  /** Nothing is fetched, and the client sees a refusal for this reason. */
  ghost predicate IsRefusal(cfg: Config, s: Service, e: CoreError) {
    s.fetches == [] && s.outcome == Err(e) && IsRefusalSeenAs(cfg, e, Delivered(s.response.0, s.response.1))
  }

  /** One fetch, by the bound method, of the bound URL, with this body and with the headers that are to
      be forwarded; and the client sees the answer, or why it is not relayed. */
  ghost predicate IsRelay(cfg: Config, verb: string, url: Url, head: RequestHead, body: bytes,
                          reply: OriginReply, s: Service) {
    && |s.fetches| == 1 && s.fetches[0] == Fetch(verb, url, s.fetches[0].headers, body)
    && Forwards(cfg.grant, head.headers, s.fetches[0].headers)
    && match s.outcome
       case Ok(_) => IsAnswerSeenAs(reply, Delivered(s.response.0, s.response.1))
       case Err(e) =>
         && IsReplyRefusal(reply, cfg.grant.maxResponseBody, e)
         && IsRefusalSeenAs(cfg, e, Delivered(s.response.0, s.response.1))
  }

  /** A header that may not be sent is why. */
  ghost predicate IsForbidden(g: Grant, headers: seq<Header>, e: CoreError) {
    exists i :: 0 <= i < |headers| && !IsOfTheLeg(headers[i].0) && !MayBeSet(g, headers[i])
                && e == Denial(Denied.Header(Sanitize(headers[i].0, "<empty>")))
  }

  /** Once head and body are read. */
  ghost predicate IsAllowedOrNot(cfg: Config, verb: string, url: Url, head: RequestHead, body: bytes,
                                 reply: OriginReply, s: Service) {
    if MayAllBeSent(cfg.grant, head.headers) then IsRelay(cfg, verb, url, head, body, reply, s)
    else exists e :: IsForbidden(cfg.grant, head.headers, e) && IsRefusal(cfg, s, e)
  }

  /** Once the head is read. */
  ghost predicate IsMatchedOrNot(cfg: Config, verb: string, target: string, url: Url, head: RequestHead,
                                 rest: bytes, broken: bool, reply: OriginReply, s: Service) {
    if !EqIgnoreCase(head.verb, verb) || head.target != target then IsRefusal(cfg, s, Denial(NotFixedRequest))
    else match BodyOf(head.framing, cfg.grant.maxRequestBody, rest)
         case Err(_) =>
           exists e :: IsBodyRefusal(head.framing, cfg.grant.maxRequestBody, rest, broken, e) && IsRefusal(cfg, s, e)
         case Ok(body) => IsAllowedOrNot(cfg, verb, url, head, body, reply, s)
  }

  /** From the start. */
  ghost predicate IsServed(cfg: Config, verb: string, target: string, url: Url, stream: bytes, broken: bool,
                           reply: OriginReply, s: Service) {
    match HeadOf(stream)
    case Err(_) => exists e :: IsHeadRefusal(stream, broken, e) && IsRefusal(cfg, s, e)
    case Ok((head, rest)) => IsMatchedOrNot(cfg, verb, target, url, head, rest, broken, reply, s)
  }

  lemma DeclinedIsRefusal(cfg: Config, e: CoreError)
    ensures IsRefusal(cfg, Declined(cfg, [], e), e)
  {
    hide IsRefusalSeenAs;
    hide Delivered;
    RefusalIsSeenSo(cfg, e);
  }

  lemma RelayingByRule(cfg: Config, verb: string, url: Url, head: RequestHead, body: bytes, reply: OriginReply)
    ensures IsAllowedOrNot(cfg, verb, url, head, body, reply, Relaying(cfg, verb, url, head, body, reply))
  {
    hide Relaying;
    hide IsRelay;
    hide IsRefusal;
    hide IsForbidden;
    hide Applied;
    hide WithoutLeg;
    hide Forwards;
    RequestsForwardByRule(cfg.grant, head.headers);
    hide IsOfTheLeg;
    hide MayBeSet;
    if Applied(cfg.grant, WithoutLeg(head.headers)).Ok? {
      AllowedIsRelayed(cfg, verb, url, head, body, reply);
    } else {
      ForbiddenIsRefused(cfg, verb, url, head, body, reply);
    }
  }

  lemma ForbiddenIsRefused(cfg: Config, verb: string, url: Url, head: RequestHead, body: bytes, reply: OriginReply)
    requires Applied(cfg.grant, WithoutLeg(head.headers)).Err?
    ensures var e := Denial(Applied(cfg.grant, WithoutLeg(head.headers)).error);
            IsForbidden(cfg.grant, head.headers, e) && IsRefusal(cfg, Relaying(cfg, verb, url, head, body, reply), e)
  {
    hide IsRefusal;
    hide Applied;
    hide WithoutLeg;
    hide IsOfTheLeg;
    hide MayBeSet;
    hide Sanitize;
    hide Declined;
    RefusalNamesTheHeader(cfg.grant, head.headers);
    DeclinedIsRefusal(cfg, Denial(Applied(cfg.grant, WithoutLeg(head.headers)).error));
  }

  lemma AllowedIsRelayed(cfg: Config, verb: string, url: Url, head: RequestHead, body: bytes, reply: OriginReply)
    requires Applied(cfg.grant, WithoutLeg(head.headers)).Ok?
    ensures IsRelay(cfg, verb, url, head, body, reply, Relaying(cfg, verb, url, head, body, reply))
  {
    hide Applied;
    hide WithoutLeg;
    hide Forwards;
    RequestsForwardByRule(cfg.grant, head.headers);
    hide IsOfTheLeg;
    hide MayBeSet;
    hide FetchOutcome;
    hide RefusalFor;
    hide RelayHead;
    hide Delivered;
    hide IsRefusalSeenAs;
    hide IsAnswerSeenAs;
    hide IsReplyRefusal;
    var limit := cfg.grant.maxResponseBody;
    if FetchOutcome(reply, limit).Ok? {
      AcceptedReplyIsSeen(reply, limit);
    } else {
      ReplyRefusals(reply, limit, FetchOutcome(reply, limit).error);
      RefusalIsSeenSo(cfg, FetchOutcome(reply, limit).error);
    }
  }

  lemma StreamByRule(cfg: Config, verb: string, target: string, url: Url, stream: bytes, broken: bool,
                     reply: OriginReply)
    ensures IsServed(cfg, verb, target, url, stream, broken, reply,
                     ServiceOfStream(cfg, verb, target, url, stream, broken, reply))
  {
    hide HeadOf;
    hide BodyOf;
    hide HeadIsMissing;
    hide BodyIsMissing;
    hide Declined;
    hide Relaying;
    hide IsRefusal;
    hide IsAllowedOrNot;
    hide IsHeadRefusal;
    hide IsBodyRefusal;
    hide EqIgnoreCase;
    match HeadOf(stream)
    case Err(x) =>
      var e := if broken && HeadIsMissing(stream) then IoFailed else x;
      HeadRefusals(stream, broken, e);
      DeclinedIsRefusal(cfg, e);
    case Ok((head, rest)) =>
      DeclinedIsRefusal(cfg, Denial(NotFixedRequest));
      var limit := cfg.grant.maxRequestBody;
      match BodyOf(head.framing, limit, rest)
      case Err(x) =>
        var e := if broken && BodyIsMissing(head.framing, limit, rest) then IoFailed else x;
        BodyRefusals(head.framing, limit, rest, broken, e);
        DeclinedIsRefusal(cfg, e);
      case Ok(body) => RelayingByRule(cfg, verb, url, head, body, reply);
  }

  /** Serving a descriptor, on any settled stream and however it is cut: what is fetched and what the
      client sees is decided by the rules. */
  lemma ServiceByRule(cfg: Config, verb: string, target: string, url: Url, segs: seq<bytes>, broken: bool,
                      reply: OriginReply)
    requires Segments(segs) && SettledRequest(cfg.grant.maxRequestBody, Flatten(segs))
    ensures IsServed(cfg, verb, target, url, Flatten(segs), broken, reply,
                     ServiceOf(cfg, verb, target, url, segs, broken, reply))
  {
    hide ServiceOf;
    hide ServiceOfStream;
    hide IsServed;
    hide SettledRequest;
    ServiceIsOneShot(cfg, verb, target, url, segs, broken, reply);
    StreamByRule(cfg, verb, target, url, Flatten(segs), broken, reply);
  }
}
