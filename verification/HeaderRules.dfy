/** Which headers travel, in terms of their literal names: what a client may set, what belongs to
    the descriptor leg, and what an origin's answer loses. */
module HeaderRules {
  import opened Octets
  import opened Errors
  import opened Framing
  import opened Grants
  import opened Response

  // ----- literal names -----

  /** Never accepted from a client. */
  ghost predicate IsDenied(name: string) {
    Lower(name) in {"authorization", "connection", "content-length", "cookie", "expect", "host", "keep-alive",
                    "proxy-authenticate", "proxy-authorization", "proxy-connection", "te", "trailer",
                    "transfer-encoding", "upgrade"}
  }

  /** Computed by any client for its own connection. */
  ghost predicate IsOfTheLeg(name: string) {
    Lower(name) in {"connection", "content-length", "expect", "host", "keep-alive", "proxy-connection", "te",
                    "trailer", "transfer-encoding", "upgrade"}
  }

  /** About one connection only. */
  ghost predicate IsOfOneHop(name: string) {
    Lower(name) in {"connection", "content-length", "keep-alive", "proxy-authenticate", "proxy-authorization",
                    "proxy-connection", "te", "trailer", "transfer-encoding", "upgrade"}
  }

  lemma DeniedByName(name: string)
    ensures IsDenied(name) <==> Lower(name) in DENIED_CLIENT_HEADERS
  {
    DeniedTable(Lower(name));
  }

  lemma DeniedTable(x: string)
    ensures x in DENIED_CLIENT_HEADERS
            <==> x in {"authorization", "connection", "content-length", "cookie", "expect", "host", "keep-alive",
                       "proxy-authenticate", "proxy-authorization", "proxy-connection", "te", "trailer",
                       "transfer-encoding", "upgrade"}
  {
  }

  lemma LegByName(h: Header)
    ensures IsOfTheLeg(h.0) <==> IsLegHeader(h)
  {
    LegTable(Lower(h.0));
  }

  lemma LegTable(x: string)
    ensures x in DESCRIPTOR_LEG_HEADERS
            <==> x in {"connection", "content-length", "expect", "host", "keep-alive", "proxy-connection", "te",
                       "trailer", "transfer-encoding", "upgrade"}
  {
  }

  lemma HopByName(name: string)
    ensures IsOfOneHop(name) <==> Lower(name) in HOP_BY_HOP
  {
    HopTable(Lower(name));
  }

  lemma HopTable(x: string)
    ensures x in HOP_BY_HOP
            <==> x in {"connection", "content-length", "keep-alive", "proxy-authenticate", "proxy-authorization",
                       "proxy-connection", "te", "trailer", "transfer-encoding", "upgrade"}
  {
  }

  // ----- towards the origin -----

  /** A client header is admitted when its name is not denied, not injected, and granted. */
  ghost predicate MayBeSet(g: Grant, h: Header) {
    && !IsDenied(h.0)
    && (forall i :: 0 <= i < |g.injections| ==> !EqIgnoreCase(g.injections[i].0, h.0))
    && match g.policy
       case NoHeaders => false
       case AllExceptDenied => true
       case Allowed(names) => Lower(h.0) in names
  }

  lemma AdmittedByRule(g: Grant, h: Header)
    ensures Admitted(g, h) <==> MayBeSet(g, h)
  {
    DeniedByName(h.0);
    hide IsDenied;
  }

  /** What goes upstream: of the headers sent, every one outside the descriptor leg, each of which
      may be set, in order, and then the injections. */
  ghost predicate Forwards(g: Grant, sent: seq<Header>, upstream: seq<Header>) {
    exists client, places :: upstream == client + g.injections && IsTheRest(sent, client, places) && MaySet(g, client)
  }

  ghost predicate MaySet(g: Grant, client: seq<Header>) {
    forall k :: 0 <= k < |client| ==> MayBeSet(g, client[k])
  }

  /** `client` consists of the headers outside the descriptor leg, at these places. */
  ghost predicate IsTheRest(sent: seq<Header>, client: seq<Header>, places: seq<nat>) {
    && |places| == |client|
    && (forall k :: 0 <= k < |places| ==> places[k] < |sent| && client[k] == sent[places[k]])
    && (forall j, k :: 0 <= j < k < |places| ==> places[j] < places[k])
    && (forall i: nat :: i < |sent| ==> (!IsOfTheLeg(sent[i].0) <==> i in places))
  }

  lemma RestIsPicked(sent: seq<Header>) returns (places: seq<nat>)
    ensures IsTheRest(sent, WithoutLeg(sent), places)
  {
    hide Kept;
    hide IsOfTheLeg;
    places := KeptPicks(sent, IsOwnHeader);
    forall i: nat | i < |sent| ensures !IsOfTheLeg(sent[i].0) <==> i in places {
      LegByName(sent[i]);
    }
  }

  /** A request is passed on exactly when each of its headers is of the descriptor leg or may be
      set; and then with just those headers and the injections. */
  lemma RequestsForwardByRule(g: Grant, sent: seq<Header>)
    ensures Applied(g, WithoutLeg(sent)).Ok?
            <==> forall i :: 0 <= i < |sent| ==> IsOfTheLeg(sent[i].0) || MayBeSet(g, sent[i])
    ensures Applied(g, WithoutLeg(sent)).Ok? ==> Forwards(g, sent, Applied(g, WithoutLeg(sent)).value)
  {
    hide IsOfTheLeg;
    hide MayBeSet;
    hide Admitted;
    hide IsLegHeader;
    hide WithoutLeg;
    UpstreamHeadersAreExact(g, sent);
    forall i | 0 <= i < |sent|
      ensures (IsOfTheLeg(sent[i].0) <==> IsLegHeader(sent[i])) && (MayBeSet(g, sent[i]) <==> Admitted(g, sent[i]))
    {
      LegByName(sent[i]);
      AdmittedByRule(g, sent[i]);
    }
    if Applied(g, WithoutLeg(sent)).Ok? {
      var client := WithoutLeg(sent);
      var places := RestIsPicked(sent);
      forall k | 0 <= k < |client| ensures MayBeSet(g, client[k]) {
        AdmittedByRule(g, client[k]);
      }
      assert Applied(g, client).value == client + g.injections;
    }
  }

  /** Under the policy that admits nothing, only the injections go upstream. */
  lemma NoHeadersMeansInjectionsOnly(g: Grant, sent: seq<Header>, upstream: seq<Header>)
    requires g.policy == NoHeaders && Forwards(g, sent, upstream)
    ensures upstream == g.injections
  {
    var client, places :| upstream == client + g.injections && IsTheRest(sent, client, places) && MaySet(g, client);
    hide IsTheRest;
    assert client != [] ==> MayBeSet(g, client[0]);
    assert [] + g.injections == g.injections;
  }

  /** What is refused is reported by its name. */
  lemma RefusalNamesTheHeader(g: Grant, sent: seq<Header>)
    requires Applied(g, WithoutLeg(sent)).Err?
    ensures exists i :: 0 <= i < |sent| && !IsOfTheLeg(sent[i].0) && !MayBeSet(g, sent[i])
                        && Applied(g, WithoutLeg(sent)) == Err(Denied.Header(Sanitize(sent[i].0, "<empty>")))
  {
    hide IsOfTheLeg;
    hide MayBeSet;
    hide Admitted;
    hide IsLegHeader;
    hide Kept;
    hide Sanitize;
    var client := WithoutLeg(sent);
    var h := client[FirstRefused(g, client).value];
    KeptMembers(sent, IsOwnHeader, h);
    LegByName(h);
    AdmittedByRule(g, h);
    var i :| 0 <= i < |sent| && sent[i] == h;
  }
}
