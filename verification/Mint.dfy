/** The mint handshake: what each side sends, and what it makes of what it receives. */
module Mint {
  import opened Octets
  import opened Errors

  /** A message on the capability channel. The text of an error is not modelled; it stands
      for the error it describes. */
  datatype Message =
    | Arg(text: string)
    | BadArg
    | End
    | Fd(count: nat)
    | Failure(reason: CoreError)
    | Unauthorized
    | Other

  /** One end of the channel: the messages still to arrive, then its end or a failure; and what
      has been sent, and how the coming sends will go. */
  class Transport {
    var inbox: seq<Message>
    const broken: bool
    var outbox: seq<Message>
    var sends: seq<bool>

    constructor (inbox: seq<Message>, broken: bool, sends: seq<bool>)
      ensures this.inbox == inbox && this.broken == broken && this.sends == sends && outbox == []
    {
      this.inbox := inbox;
      this.broken := broken;
      this.sends := sends;
      outbox := [];
    }

    /** No message is the end of the channel, and no result is a failure. */
    method Recv() returns (received: Option<Option<Message>>)
      modifies this`inbox
      ensures old(inbox) == [] ==> received == (if broken then None else Some(None)) && inbox == []
      ensures old(inbox) != [] ==> received.Some? && received.value.Some?
                                   && [received.value.value] + inbox == old(inbox)
    {
      if inbox == [] {
        received := if broken then None else Some(None);
      } else {
        received := Some(Some(inbox[0]));
        inbox := inbox[1..];
      }
    }

    /** What cannot be sent leaves no trace. */
    method Send(m: Message) returns (ok: bool)
      modifies this`outbox, this`sends
      ensures ok == SendGoesWell(old(sends), 0)
      ensures sends == (if old(sends) == [] then [] else old(sends)[1..])
      ensures outbox == if ok then old(outbox) + [m] else old(outbox)
    {
      ok := SendGoesWell(sends, 0);
      sends := if sends == [] then [] else sends[1..];
      if ok {
        outbox := outbox + [m];
      }
    }
  }

  /** Sends beyond the recorded ones go well. */
  predicate SendGoesWell(sends: seq<bool>, i: nat) {
    i < |sends| ==> sends[i]
  }

  /** Of three messages, those before the first send that fails. */
  function GetThrough(sends: seq<bool>, a: Message, b: Message, c: Message): seq<Message> {
    if !SendGoesWell(sends, 0) then []
    else if !SendGoesWell(sends, 1) then [a]
    else if !SendGoesWell(sends, 2) then [a, b]
    else [a, b, c]
  }

  /** How a channel is met at its end. */
  function EndOfChannel(broken: bool): CoreError {
    if broken then TransportFailed else Handshake(ClosedChannel)
  }

  /** Send three messages, until a send fails. */
  method SendThree(transport: Transport, a: Message, b: Message, c: Message) returns (ok: bool)
    modifies transport`outbox, transport`sends
    ensures var out := GetThrough(old(transport.sends), a, b, c);
            && transport.outbox == old(transport.outbox) + out
            && (if ok then out == [a, b, c] else |out| < 3)
  {
    ghost var sends := transport.sends;
    ok := transport.Send(a);
    if !ok {
      return;
    }
    ok := transport.Send(b);
    if !ok {
      return;
    }
    ok := transport.Send(c);
  }

  // ----- the daemon's half -----

  function ReadArgs(inbox: seq<Message>, args: seq<string>, broken: bool): Result<(string, string), CoreError>
    decreases |inbox|
  {
    if inbox == [] then Err(EndOfChannel(broken))
    else match inbox[0]
         case Arg(text) =>
           if |args| >= 2 then Err(Handshake(NotMethodAndTarget)) else ReadArgs(inbox[1..], args + [text], broken)
         case BadArg => Err(if |args| >= 2 then Handshake(NotMethodAndTarget) else Malformed)
         case End => if |args| == 2 then Ok((args[0], args[1])) else Err(Handshake(NotMethodAndTarget))
         case _ => Err(Handshake(UnexpectedMessage))
  }

  method ReadMintRequest(transport: Transport) returns (r: Result<(string, string), CoreError>)
    modifies transport`inbox
    ensures r == ReadArgs(old(transport.inbox), [], transport.broken)
  {
    var args: seq<string> := [];
    var ended := false;
    while !ended
      invariant !ended ==> ReadArgs(transport.inbox, args, transport.broken)
                           == ReadArgs(old(transport.inbox), [], transport.broken)
      invariant ended ==> ReadArgs(old(transport.inbox), [], transport.broken)
                          == if |args| == 2 then Ok((args[0], args[1])) else Err(Handshake(NotMethodAndTarget))
      decreases !ended, |transport.inbox|
    {
      ghost var before := transport.inbox;
      var received := transport.Recv();
      if received.None? {
        return Err(TransportFailed);
      }
      if received.value.None? {
        return Err(Handshake(ClosedChannel));
      }
      var message := received.value.value;
      assert before[0] == message && before[1..] == transport.inbox;
      match message {
        case Arg(text) =>
          if |args| >= 2 {
            return Err(Handshake(NotMethodAndTarget));
          }
          args := args + [text];
        case BadArg =>
          return Err(if |args| >= 2 then Handshake(NotMethodAndTarget) else Malformed);
        case End =>
          ended := true;
        case _ =>
          return Err(Handshake(UnexpectedMessage));
      }
    }
    if |args| == 2 {
      return Ok((args[0], args[1]));
    }
    return Err(Handshake(NotMethodAndTarget));
  }

  /** A mint request is read exactly when the channel brings two arguments and an end. */
  lemma MintRequestIsExact(inbox: seq<Message>, broken: bool, verb: string, target: string)
    ensures ReadArgs(inbox, [], broken) == Ok((verb, target))
            <==> [Arg(verb), Arg(target), End] <= inbox
  {
    ArgsAreExact(inbox, [], broken, verb, target);
    var whole := [Arg(verb), Arg(target), End];
    assert whole[0..] == whole;
  }

  /** The messages still due once some arguments have been read. */
  lemma {:induction false} ArgsAreExact(inbox: seq<Message>, args: seq<string>, broken: bool,
                                         verb: string, target: string)
    requires |args| <= 2
    ensures ReadArgs(inbox, args, broken) == Ok((verb, target))
            <==> args <= [verb, target] && [Arg(verb), Arg(target), End][|args|..] <= inbox
    decreases |inbox|
  {
    var whole := [Arg(verb), Arg(target), End];
    var due := whole[|args|..];
    if inbox != [] {
      assert due[0] == whole[|args|] && (due <= inbox ==> inbox[0] == due[0]);
      if inbox[0].Arg? && |args| < 2 {
        ArgsAreExact(inbox[1..], args + [inbox[0].text], broken, verb, target);
        assert due == [due[0]] + whole[|args| + 1..];
        assert due <= inbox <==> due[0] == inbox[0] && whole[|args| + 1..] <= inbox[1..];
      } else if inbox[0].End? && |args| == 2 {
        assert due == [End];
      }
    }
  }

  // ----- the client's half -----

  datatype MintResult =
    | Minted(verb: string, target: string)
    | Refused(reason: CoreError)
    | NotAuthorized
    | Broken(error: CoreError)

  function ReadReply(inbox: seq<Message>, broken: bool, verb: string, target: string, seen: nat): MintResult
    decreases |inbox|
  {
    if inbox == [] then Broken(EndOfChannel(broken))
    else match inbox[0]
         case Arg(text) =>
           if seen == 0 then ReadReply(inbox[1..], broken, text, target, 1)
           else if seen == 1 then ReadReply(inbox[1..], broken, verb, text, 2)
           else Broken(Handshake(TooManyBoundArgs))
         case BadArg => Broken(Malformed)
         case Fd(count) =>
           if count != 1 then Broken(Handshake(WrongDescriptorCount(count))) else Minted(verb, target)
         case Failure(reason) => Refused(reason)
         case Unauthorized => NotAuthorized
         case _ => Broken(Handshake(UnexpectedMessage))
  }

  /** A capability is minted exactly when at most two reports and one descriptor arrive; what
      is not reported is taken to be what was asked. */
  lemma ReplyIsExact(inbox: seq<Message>, broken: bool, verb: string, target: string,
                     boundVerb: string, boundTarget: string)
    ensures ReadReply(inbox, broken, verb, target, 0) == Minted(boundVerb, boundTarget)
            <==> || ([Arg(boundVerb), Arg(boundTarget), Fd(1)] <= inbox)
                 || ([Arg(boundVerb), Fd(1)] <= inbox && boundTarget == target)
                 || ([Fd(1)] <= inbox && boundVerb == verb && boundTarget == target)
  {
    if inbox != [] && inbox[0].Arg? {
      var rest := inbox[1..];
      assert inbox == [inbox[0]] + rest;
      if rest != [] && rest[0].Arg? {
        assert rest == [rest[0]] + rest[1..];
        ReplyAfterTwo(rest[1..], broken, inbox[0].text, rest[0].text);
      }
    }
  }

  lemma ReplyAfterTwo(inbox: seq<Message>, broken: bool, verb: string, target: string)
    ensures forall v, t :: ReadReply(inbox, broken, verb, target, 2) == Minted(v, t)
                           <==> [Fd(1)] <= inbox && v == verb && t == target
  {
  }

  method MintCapability(transport: Transport, verb: string, target: string) returns (r: MintResult)
    modifies transport
    ensures var requested := GetThrough(old(transport.sends), Arg(verb), Arg(target), End);
            && transport.outbox == old(transport.outbox) + requested
            && r == if |requested| == 3
                    then ReadReply(old(transport.inbox), transport.broken, verb, target, 0)
                    else Broken(TransportFailed)
  {
    var ok := SendThree(transport, Arg(verb), Arg(target), End);
    if !ok {
      return Broken(TransportFailed);
    }
    var boundVerb, boundTarget, argsSeen := verb, target, 0;
    while true
      invariant transport.outbox == old(transport.outbox) + [Arg(verb), Arg(target), End]
      invariant ReadReply(transport.inbox, transport.broken, boundVerb, boundTarget, argsSeen)
                == ReadReply(old(transport.inbox), transport.broken, verb, target, 0)
      decreases |transport.inbox|
    {
      ghost var before := transport.inbox;
      var received := transport.Recv();
      if received.None? {
        return Broken(TransportFailed);
      }
      if received.value.None? {
        return Broken(Handshake(ClosedChannel));
      }
      var message := received.value.value;
      assert before[0] == message && before[1..] == transport.inbox;
      match message {
        case Arg(text) =>
          if argsSeen == 0 {
            boundVerb := text;
          } else if argsSeen == 1 {
            boundTarget := text;
          } else {
            return Broken(Handshake(TooManyBoundArgs));
          }
          argsSeen := argsSeen + 1;
        case BadArg =>
          return Broken(Malformed);
        case Fd(count) =>
          if count != 1 {
            return Broken(Handshake(WrongDescriptorCount(count)));
          }
          return Minted(boundVerb, boundTarget);
        case Failure(reason) =>
          return Refused(reason);
        case Unauthorized =>
          return NotAuthorized;
        case _ =>
          return Broken(Handshake(UnexpectedMessage));
      }
    }
  }
}
