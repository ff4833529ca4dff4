/** The mint handshake case by case: what each side makes of any messages, and what the client is told. */
module MintRules {
  import opened Octets
  import opened Errors
  import opened Grants
  import opened Mint
  import opened Session
  import opened Scripts

  /** How many arguments stand in front. */
  function LeadingArgs(inbox: seq<Message>): (k: nat)
    ensures k <= |inbox| && forall i :: 0 <= i < k ==> inbox[i].Arg?
    ensures k < |inbox| ==> !inbox[k].Arg?
  {
    if inbox == [] || !inbox[0].Arg? then 0 else LeadingArgs(inbox[1..]) + 1
  }

  // ----- the daemon's half -----

  /** Why a mint request is not read: too many or too few arguments, an argument that is no text, the
      end of the channel, or a message that has no place there. */
  ghost predicate IsMintRefusal(inbox: seq<Message>, k: nat, before: nat, broken: bool, e: CoreError)
    requires k <= |inbox|
  {
    if before + k > 2 then e == Handshake(NotMethodAndTarget)
    else if k == |inbox| then e == if broken then TransportFailed else Handshake(ClosedChannel)
    else match inbox[k]
         case BadArg => e == if before + k == 2 then Handshake(NotMethodAndTarget) else Malformed
         case End => before + k != 2 && e == Handshake(NotMethodAndTarget)
         case _ => e == Handshake(UnexpectedMessage)
  }

  lemma {:induction false} ArgsRefusals(inbox: seq<Message>, args: seq<string>, broken: bool, e: CoreError)
    requires |args| <= 2
    ensures ReadArgs(inbox, args, broken) == Err(e)
            <==> IsMintRefusal(inbox, LeadingArgs(inbox), |args|, broken, e)
    decreases |inbox|
  {
    if inbox != [] && inbox[0].Arg? && |args| < 2 {
      ArgsRefusals(inbox[1..], args + [inbox[0].text], broken, e);
    }
  }

  lemma MintRefusals(inbox: seq<Message>, broken: bool, e: CoreError)
    ensures ReadArgs(inbox, [], broken) == Err(e) <==> IsMintRefusal(inbox, LeadingArgs(inbox), 0, broken, e)
  {
    hide ReadArgs;
    ArgsRefusals(inbox, [], broken, e);
  }

  // ----- the client's half -----

  /** What the client makes of the reply: at most two reports, the first of the method and the second of
      the target; then one descriptor, a failure, or a message that has no place there. */
  ghost predicate IsMintResult(inbox: seq<Message>, k: nat, broken: bool, verb: string, target: string, r: MintResult)
    requires k <= |inbox| && forall i :: 0 <= i < k ==> inbox[i].Arg?
  {
    if k > 2 then r == Broken(Handshake(TooManyBoundArgs))
    else if k == |inbox| then r == Broken(if broken then TransportFailed else Handshake(ClosedChannel))
    else match inbox[k]
         case Fd(n) =>
           r == if n == 1 then Minted(if k > 0 then inbox[0].text else verb, if k > 1 then inbox[1].text else target)
                else Broken(Handshake(WrongDescriptorCount(n)))
         case Failure(reason) => r == Refused(reason)
         case Unauthorized => r == NotAuthorized
         case BadArg => r == Broken(Malformed)
         case _ => r == Broken(Handshake(UnexpectedMessage))
  }

  lemma ReplyStep(inbox: seq<Message>, broken: bool, verb: string, target: string, seen: nat)
    requires inbox != [] && inbox[0].Arg? && seen < 2
    ensures ReadReply(inbox, broken, verb, target, seen)
            == if seen == 0 then ReadReply(inbox[1..], broken, inbox[0].text, target, 1)
               else ReadReply(inbox[1..], broken, verb, inbox[0].text, 2)
  {
  }

  /** The reply by cases. */
  lemma RepliesByCase(inbox: seq<Message>, broken: bool, verb: string, target: string)
    ensures IsMintResult(inbox, LeadingArgs(inbox), broken, verb, target, ReadReply(inbox, broken, verb, target, 0))
  {
    var k := LeadingArgs(inbox);
    if k > 0 {
      ReplyStep(inbox, broken, verb, target, 0);
      if k > 1 {
        ReplyStep(inbox[1..], broken, inbox[0].text, target, 1);
      }
    }
  }

  // ----- what the client is told -----

  /** When no send fails, the client is told just why its request is refused, or what is bound. */
  lemma ClientIsTold(cfg: Config, w: World, first: bool, second: bool, broken: bool, verb: string, target: string)
    requires forall i :: 0 <= i < |w.sends| ==> w.sends[i]
    ensures ReadReply(EndOf(cfg, w, first, second).sent, broken, verb, target, 0)
            == match ReadArgs(w.inbox, [], w.channelBroken)
               case Err(e) => Refused(e)
               case Ok((askedVerb, askedTarget)) =>
                 match Resolve(cfg.grant, askedVerb, askedTarget)
                 case Err(denied) => Refused(Denial(denied))
                 case Ok((boundVerb, _)) =>
                   if w.paired then Minted(boundVerb, BoundTarget(cfg.grant, askedTarget))
                   else Broken(if broken then TransportFailed else Handshake(ClosedChannel))
  {
    hide ReadArgs;
    hide Resolve;
    hide ServiceOf;
    hide RefusalFor;
    match ReadArgs(w.inbox, [], w.channelBroken)
    case Err(_) =>
    case Ok((askedVerb, askedTarget)) =>
      match Resolve(cfg.grant, askedVerb, askedTarget)
      case Err(_) =>
      case Ok((boundVerb, _)) =>
        if w.paired {
          OfferIsRead(boundVerb, BoundTarget(cfg.grant, askedTarget), broken, verb, target);
        }
  }

  lemma OfferIsRead(boundVerb: string, boundTarget: string, broken: bool, verb: string, target: string)
    ensures ReadReply([Arg(boundVerb), Arg(boundTarget), Fd(1)], broken, verb, target, 0)
            == Minted(boundVerb, boundTarget)
  {
    ReplyIsExact([Arg(boundVerb), Arg(boundTarget), Fd(1)], broken, verb, target, boundVerb, boundTarget);
  }
}
