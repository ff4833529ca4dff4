/** What the daemon has written on a finished descriptor is what the client reads back, be it the
    origin's answer or a refusal. */
module Delivery {
  import opened Octets
  import opened Errors
  import opened Framing
  import opened Request
  import opened RequestGrammar
  import opened Response
  import opened ResponseRoundTrip
  import opened Mint
  import opened Upstream
  import opened Session
  import opened Relay
  import opened Safety

  // ----- refusals are short -----

  lemma {:induction false} JoinBound(ls: seq<bytes>, k: nat)
    requires forall i :: 0 <= i < |ls| ==> |ls[i]| <= k
    ensures |JoinLines(ls)| <= |ls| * (k + 2)
  {
    if ls != [] {
      assert forall i :: 0 <= i < |ls[1..]| ==> ls[1..][i] == ls[i + 1];
      JoinBound(ls[1..], k);
    }
  }

  lemma RefusalHeadIsShort(status: nat, reason: string, detail: string, bodyLen: nat)
    requires status <= MAX_U16 && bodyLen <= MAX_U64
    ensures |Encode(Refusal(status, reason, detail).0, bodyLen)| <= MAX_HEAD_LEN
  {
    hide Decimal;
    hide JoinLines;
    hide SanitizeReason;
    var head := Refusal(status, reason, detail).0;
    var ls := EncodedLines(head, bodyLen);
    DecimalFits(status);
    DecimalFits(bodyLen);
    ReasonIsShort(reason);
    forall i | 0 <= i < |ls| ensures |ls[i]| <= 200 {
      if i > 0 {
        assert ls[i] == HeaderLine((head.headers + OwnFraming(bodyLen))[i - 1]);
      }
    }
    JoinBound(ls, 200);
  }

  lemma ReasonIsShort(reason: string)
    ensures |SanitizeReason(reason)| <= 64
  {
    SanitizeIsPrintable(reason, "Unknown");
  }

  /** Exactly when the client takes a relayed answer for a refusal: the origin itself sent a header
      of the marker's name, and it was passed on. */
  lemma RelayIsSeenAsRefusalExactly(u: UpstreamResponse)
    ensures Delivered(RelayHead(u), u.body).refused
            <==> exists h :: h in u.headers && IsPassedOn(u.headers, h) && EqIgnoreCase(h.0, X_REFUSED)
  {
    forall h ensures IsRelayed(h, ConnectionOf(u.headers)) <==> IsPassedOn(u.headers, h) {
      RelayedByRule(u.headers, h);
    }
    hide IsRelayed;
    hide IsPassedOn;
    hide EqIgnoreCase;
    hide Kept;
    hide Trim;
    var connection := ConnectionOf(u.headers);
    var relayed: seq<Header> := Relayed(u.headers, connection);
    var own: seq<Header> := OwnFraming(|u.body|);
    var all: seq<Header> := TrimmedHeaders(relayed + own);
    FindHeaderIsExact(all, X_REFUSED);
    OwnFramingIsNoMarker(|u.body|);
    TrimmedByPlace(relayed + own);
    if i :| 0 <= i < |all| && EqIgnoreCase(all[i].0, X_REFUSED) {
      assert all[i].0 == (relayed + own)[i].0;
      if i < |relayed| {
        KeptMembers(u.headers, RelayedUnder(connection), relayed[i]);
      }
    }
    if h :| h in u.headers && IsRelayed(h, connection) && EqIgnoreCase(h.0, X_REFUSED) {
      KeptMembers(u.headers, RelayedUnder(connection), h);
      var i :| 0 <= i < |relayed| && relayed[i] == h;
      assert all[i].0 == (relayed + own)[i].0;
    }
  }

  lemma OwnFramingIsNoMarker(n: nat)
    ensures forall i :: 0 <= i < |OwnFraming(n)| ==> !EqIgnoreCase(OwnFraming(n)[i].0, X_REFUSED)
  {
    LengthsDiffer("Content-Length", X_REFUSED);
    LengthsDiffer("Connection", X_REFUSED);
  }

  // ----- finished descriptors -----

  /** The response can be written, is a refusal that is seen as one if serving failed, and is
      read back under every segmentation exactly when its head is not too long. */
  ghost predicate IsReadBack(response: (ResponseHead, bytes), refused: bool) {
    var (head, body) := response;
    && IsWritable(head)
    && (refused ==> Delivered(head, body).refused)
    && (|body| <= MAX_U64 ==>
          && (IsAlwaysDelivered(head, body) <==> |Encode(head, |body|)| <= MAX_HEAD_LEN + 1)
          && (refused ==> IsAlwaysDelivered(head, body)))
  }

  lemma RefusalIsReadBack(cfg: Config, e: CoreError)
    ensures IsReadBack(RefusalFor(cfg, e), true)
  {
    hide Refusal;
    hide Delivered;
    hide Encode;
    hide IsAlwaysDelivered;
    hide IsWritable;
    var (status, reason) := RefusalStatus(e);
    var (head, body) := RefusalFor(cfg, e);
    RefusalIsWritable(status, reason, cfg.describe(e));
    RefusalIsSeen(status, reason, cfg.describe(e));
    if |body| <= MAX_U64 {
      RefusalHeadIsShort(status, reason, cfg.describe(e), |body|);
      DeliveredExactly(head, body);
    }
  }

  lemma RelayIsReadBack(u: UpstreamResponse)
    requires u.status <= MAX_U16 && forall i :: 0 <= i < |u.headers| ==> IsToken(u.headers[i].0)
    ensures IsReadBack((RelayHead(u), u.body), false)
  {
    hide Relayed;
    hide Delivered;
    hide Encode;
    hide IsAlwaysDelivered;
    RelayedIsWritable(u.headers, ConnectionOf(u.headers));
    if |u.body| <= MAX_U64 {
      DeliveredExactly(RelayHead(u), u.body);
    }
  }

  /** On every run: what was written on a finished descriptor, when no write failed, is one
      response, and the client reads it back. */
  lemma FinishedResponsesAreRead(cfg: Config, trace: seq<(nat, Event)>, id: nat)
    requires var c := ConnOf(RunAll(cfg, map[], trace), id);
             c.phase.Over? && Fd(1) in c.sent && !c.troubled && (c.answer.Some? ==> SpeaksHttp(c.answer.value))
    ensures var c := ConnOf(RunAll(cfg, map[], trace), id);
            |c.responses| == 1 && IsReadBack(c.responses[0], c.phase.outcome.Err?)
  {
    hide RunAll;
    hide IsReadBack;
    hide RefusalFor;
    hide RelayHead;
    hide CappedFrom;
    var c := ConnOf(RunAll(cfg, map[], trace), id);
    FinishedDescriptorsAreAnswered(cfg, trace, id);
    if c.phase.outcome.Err? {
      RefusalIsReadBack(cfg, c.phase.outcome.error);
    } else {
      FetchedBodyIsExact(c.answer.value, cfg.grant.maxResponseBody);
      RelayIsReadBack(FetchOutcome(c.answer.value, cfg.grant.maxResponseBody).value);
    }
  }
}
