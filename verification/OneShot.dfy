/** Serving a descriptor is one function of the bytes written on it, however they are cut. */
module OneShot {
  import opened Octets
  import opened Errors
  import opened Reading
  import opened Readers
  import opened Grants
  import opened Mint
  import opened Upstream
  import opened Session
  import opened Safety
  import opened Scripts

  /** Serving, as a function of the whole stream. */
  function ServiceOfStream(cfg: Config, verb: string, target: string, url: Url,
                           stream: bytes, broken: bool, reply: OriginReply): Service {
    match HeadOf(stream)
    case Err(e) => Declined(cfg, [], if broken && HeadIsMissing(stream) then IoFailed else e)
    case Ok((head, rest)) =>
      if !Matches(head, verb, target) then Declined(cfg, [], Denial(NotFixedRequest))
      else
        var limit := cfg.grant.maxRequestBody;
        match BodyOf(head.framing, limit, rest)
        case Err(e) => Declined(cfg, [], if broken && BodyIsMissing(head.framing, limit, rest) then IoFailed else e)
        case Ok(body) => Relaying(cfg, verb, url, head, body, reply)
  }

  lemma ServiceIsOneShot(cfg: Config, verb: string, target: string, url: Url,
                         segs: seq<bytes>, broken: bool, reply: OriginReply)
    requires Segments(segs) && SettledRequest(cfg.grant.maxRequestBody, Flatten(segs))
    ensures ServiceOf(cfg, verb, target, url, segs, broken, reply)
            == ServiceOfStream(cfg, verb, target, url, Flatten(segs), broken, reply)
  {
    hide Accumulate;
    hide HeadOf;
    hide HeadResult;
    hide HeadIsMissing;
    hide BodyOf;
    hide BodyResult;
    hide BodyProgress;
    hide BodyIsMissing;
    hide Settled;
    hide Matches;
    hide Declined;
    hide Relaying;
    var limit, p := cfg.grant.maxRequestBody, Accumulate(WholeHead, [], segs);
    HeadIsOneShot(segs);
    AccumulateKeepsBytes(WholeHead, [], segs);
    if HeadResult(p).Ok? {
      AcceptedHeadIsFinished(p);
      var (head, leftover) := HeadResult(p).value;
      BodyIsOneShot(head.framing, limit, leftover, p.rest);
      MissingBodyIsRefused(head.framing, limit, leftover + Flatten(p.rest));
    }
  }

  /** After a resolved mint the origin is asked exactly when the bytes on the descriptor begin
      with a request that the binding and the policy admit, and then exactly that. */
  lemma FetchedIffIntended(cfg: Config, verb: string, target: string,
                           segs: seq<bytes>, broken: bool, reply: OriginReply)
    requires Resolve(cfg.grant, verb, target).Ok?
    requires Segments(segs) && SettledRequest(cfg.grant.maxRequestBody, Flatten(segs))
    ensures var (boundVerb, url) := Resolve(cfg.grant, verb, target).value;
            var intended := Intended(cfg, Some((verb, target)), Flatten(segs));
            ServiceOf(cfg, boundVerb, BoundTarget(cfg.grant, target), url, segs, broken, reply).fetches
            == if intended.Some? then [intended.value] else []
  {
    hide Resolve;
    hide ServiceOf;
    hide HeadOf;
    hide BodyOf;
    hide Matches;
    hide Applied;
    hide WithoutLeg;
    hide FetchOutcome;
    hide SettledRequest;
    hide RefusalFor;
    var (boundVerb, url) := Resolve(cfg.grant, verb, target).value;
    ServiceIsOneShot(cfg, boundVerb, BoundTarget(cfg.grant, target), url, segs, broken, reply);
  }

  /** Two cuttings of one settled stream come to the same service, and so to the same end. */
  lemma CuttingLeavesTheEnd(cfg: Config, w: World, other: seq<bytes>)
    requires Segments(w.segs) && Segments(other) && Flatten(other) == Flatten(w.segs)
    requires SettledRequest(cfg.grant.maxRequestBody, Flatten(w.segs))
    ensures ServiceIn(cfg, w.(segs := other)) == ServiceIn(cfg, w)
    ensures forall first, second :: EndOf(cfg, w.(segs := other), first, second) == EndOf(cfg, w, first, second)
  {
    hide ReadArgs;
    hide ServiceOf;
    hide Resolve;
    hide SettledRequest;
    hide GetThrough;
    hide Finish;
    if ReadArgs(w.inbox, [], w.channelBroken).Ok? {
      var (verb, target) := ReadArgs(w.inbox, [], w.channelBroken).value;
      if Resolve(cfg.grant, verb, target).Ok? {
        var (boundVerb, url) := Resolve(cfg.grant, verb, target).value;
        ServiceIsOneShot(cfg, boundVerb, BoundTarget(cfg.grant, target), url, w.segs, w.broken, w.reply);
        ServiceIsOneShot(cfg, boundVerb, BoundTarget(cfg.grant, target), url, other, w.broken, w.reply);
      }
    }
  }
}
