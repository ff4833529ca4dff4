/** What the client sees of the origin's answer, in terms of the answer itself. */
module Relay {
  import opened Octets
  import opened Errors
  import opened Framing
  import opened FramingRules
  import opened Request
  import opened Reading
  import opened Response
  import opened ResponseRoundTrip
  import opened HeaderRules
  import Containment
  import opened Upstream
  import opened Session

  // ----- nominated headers -----

  /** An item of a comma-separated list: the text between two commas or ends. */
  ghost predicate IsItem(list: string, item: string) {
    ',' !in item && exists before, after :: StandsBetween(list, before, item, after)
  }

  ghost predicate StandsBetween(list: string, before: string, item: string, after: string) {
    && list == before + item + after
    && (before == [] || before[|before| - 1] == ',') && (after == [] || after[0] == ',')
  }

  lemma FirstStands(first: string, rest: string)
    ensures StandsBetween(first, [], first, [])
    ensures StandsBetween(first + [','] + rest, [], first, [','] + rest)
  {
    assert first == [] + first + [];
    Assoc(first, [','], rest);
    assert [] + first == first;
  }

  lemma LaterStands(first: string, rest: string, before: string, item: string, after: string)
    requires StandsBetween(rest, before, item, after)
    ensures StandsBetween(first + [','] + rest, first + [','] + before, item, after)
  {
    var lead := first + [','];
    Assoc(lead, before + item, after);
    Assoc(lead, before, item);
    var wider := lead + before;
    assert wider[|wider| - 1] == ',';
  }

  lemma {:induction false} PiecesAreItems(list: string, k: nat)
    requires k < |SplitOn(list, ',')|
    ensures IsItem(list, SplitOn(list, ',')[k])
    decreases |list|
  {
    hide StandsBetween;
    match FirstOf(list, ',')
    case None =>
      FirstStands(list, []);
    case Some(i) =>
      var first, rest := list[..i], list[i + 1..];
      assert list == first + [','] + rest;
      if k == 0 {
        FirstStands(first, rest);
      } else {
        var item := SplitOn(rest, ',')[k - 1];
        PiecesAreItems(rest, k - 1);
        var before, after :| StandsBetween(rest, before, item, after);
        LaterStands(first, rest, before, item, after);
      }
  }

  lemma ItemsArePieces(list: string, item: string)
    requires IsItem(list, item)
    ensures exists k :: 0 <= k < |SplitOn(list, ',')| && SplitOn(list, ',')[k] == item
  {
    hide SplitOn;
    var before, after :| StandsBetween(list, before, item, after);
    var tail := item + after;
    ItemIsFirst(item, after);
    Assoc(before, item, after);
    if before == [] {
      assert list == tail;
    } else {
      var b := before[..|before| - 1];
      assert before == b + [','];
      SplitPieces(b, tail);
      assert SplitOn(list, ',')[|SplitOn(b, ',')|] == item;
    }
  }

  lemma SplitPieces(a: string, b: string)
    ensures SplitOn(a + [','] + b, ',') == SplitOn(a, ',') + SplitOn(b, ',')
  {
    Containment.SplitConcat(a, ',', b);
  }

  lemma ItemIsFirst(item: string, after: string)
    requires ',' !in item && (after == [] || after[0] == ',')
    ensures SplitOn(item + after, ',')[0] == item
  {
    if after == [] {
      assert item + after == item;
    } else {
      assert item + after == item + [','] + after[1..];
      SplitFirst(item, ',', after[1..]);
    }
  }

  /** The first `Connection` header, if its value is visible text, names this header. */
  ghost predicate IsNominated(headers: seq<Header>, name: string) {
    exists i :: 0 <= i < |headers| && IsFirstNamed(headers, i, "connection")
                && IsVisible(headers[i].1) && Lists(headers[i].1, name)
  }

  ghost predicate IsFirstNamed(headers: seq<Header>, i: int, name: string) {
    0 <= i < |headers| && EqIgnoreCase(headers[i].0, name)
    && forall j :: 0 <= j < i ==> !EqIgnoreCase(headers[j].0, name)
  }

  ghost predicate Lists(list: string, name: string) {
    exists item :: IsItem(list, item) && EqIgnoreCase(Trim(item), name)
  }

  ghost predicate IsVisible(value: bytes) {
    forall i :: 0 <= i < |value| ==> 0x20 <= value[i] as int <= 0x7E || value[i] as int == 0x09
  }

  lemma VisibleIsRelayable(value: bytes)
    ensures IsVisible(value) <==> IsRelayable(value)
  {
  }

  lemma {:induction false} FoundIsFirst(headers: seq<Header>, name: string, value: string)
    ensures FindHeader(headers, name) == Some(value)
            <==> exists i :: 0 <= i < |headers| && IsFirstNamed(headers, i, name) && headers[i].1 == value
  {
    hide EqIgnoreCase;
    if headers != [] {
      var rest := headers[1..];
      assert forall j :: 0 <= j < |rest| ==> rest[j] == headers[j + 1];
      FoundIsFirst(rest, name, value);
      if EqIgnoreCase(headers[0].0, name) {
        assert IsFirstNamed(headers, 0, name);
      } else {
        forall i | 0 <= i < |rest| ensures IsFirstNamed(rest, i, name) <==> IsFirstNamed(headers, i + 1, name) {
        }
        if i :| 0 <= i < |headers| && IsFirstNamed(headers, i, name) && headers[i].1 == value {
          assert IsFirstNamed(rest, i - 1, name);
        }
      }
    }
  }

  lemma NominatesLists(value: string, name: string)
    ensures Nominates(Some(value), name) <==> Lists(value, name)
  {
    hide SplitOn;
    hide EqIgnoreCase;
    hide Trim;
    hide IsItem;
    if k :| 0 <= k < |SplitOn(value, ',')| && EqIgnoreCase(Trim(SplitOn(value, ',')[k]), name) {
      PiecesAreItems(value, k);
    }
    if item :| IsItem(value, item) && EqIgnoreCase(Trim(item), name) {
      ItemsArePieces(value, item);
    }
  }

  lemma NominatedByConnection(headers: seq<Header>, name: string)
    ensures Nominates(ConnectionOf(headers), name) <==> IsNominated(headers, name)
  {
    hide Nominates;
    hide Lists;
    hide IsVisible;
    hide IsRelayable;
    hide IsFirstNamed;
    var found := FindHeader(headers, "connection");
    if found.Some? {
      FoundIsFirst(headers, "connection", found.value);
      VisibleIsRelayable(found.value);
      NominatesLists(found.value, name);
      OneIsFirst(headers, "connection");
    } else {
      NothingNominates(name);
      if i :| 0 <= i < |headers| && IsFirstNamed(headers, i, "connection") {
        FoundIsFirst(headers, "connection", headers[i].1);
      }
    }
    NothingNominates(name);
  }

  lemma NothingNominates(name: string)
    ensures !Nominates(None, name)
  {
  }

  lemma OneIsFirst(headers: seq<Header>, name: string)
    ensures forall i, j :: IsFirstNamed(headers, i, name) && IsFirstNamed(headers, j, name) ==> i == j
  {
    hide EqIgnoreCase;
  }

  // ----- what is passed on -----

  /** A header reaches the client when its name is about the message, not about one hop nor named
      by the origin's `Connection`, and its value is visible text. */
  ghost predicate IsPassedOn(headers: seq<Header>, h: Header) {
    !IsOfOneHop(h.0) && !IsNominated(headers, Lower(h.0)) && IsVisible(h.1)
  }

  lemma RelayedByRule(headers: seq<Header>, h: Header)
    ensures IsRelayed(h, ConnectionOf(headers)) <==> IsPassedOn(headers, h)
  {
    hide Nominates;
    hide IsNominated;
    hide IsOfOneHop;
    hide IsVisible;
    hide IsRelayable;
    hide ConnectionOf;
    HopByName(h.0);
    NominatedByConnection(headers, Lower(h.0));
    VisibleIsRelayable(h.1);
  }

  /** These are the headers passed on: each one, in order. */
  ghost predicate ArePassedOn(headers: seq<Header>, passed: seq<Header>, places: seq<nat>) {
    && |places| == |passed|
    && (forall k :: 0 <= k < |places| ==> places[k] < |headers| && passed[k] == headers[places[k]])
    && (forall j, k :: 0 <= j < k < |places| ==> places[j] < places[k])
    && (forall i: nat :: i < |headers| ==> (IsPassedOn(headers, headers[i]) <==> i in places))
  }

  lemma RelayedArePassedOn(headers: seq<Header>) returns (places: seq<nat>)
    ensures ArePassedOn(headers, Relayed(headers, ConnectionOf(headers)), places)
  {
    hide Kept;
    hide IsRelayed;
    hide IsPassedOn;
    var connection := ConnectionOf(headers);
    hide ConnectionOf;
    places := KeptPicks(headers, RelayedUnder(connection));
    forall i: nat | i < |headers| ensures IsPassedOn(headers, headers[i]) <==> i in places {
      RelayedByRule(headers, headers[i]);
    }
  }

  // ----- the answer, as the client sees it -----

  /** The client sees the origin's status, its reason made safe, its body, and its headers as far
      as they are passed on, trimmed, followed by the daemon's own two. */
  ghost predicate IsSeenAs(status: nat, reason: string, headers: seq<Header>, body: bytes, seen: ClientResponse) {
    && seen.status == status && seen.reason == Sanitize(reason, "Unknown") && seen.body == body
    && (seen.refused <==> IsMarked(seen.headers))
    && exists passed, places ::
         ArePassedOn(headers, passed, places) && AreTrimmedAndFramed(passed, |body|, seen.headers)
  }

  ghost predicate AreTrimmedAndFramed(passed: seq<Header>, bodyLen: nat, seen: seq<Header>) {
    && |seen| == |passed| + 2
    && (forall k :: 0 <= k < |passed| ==> seen[k] == (passed[k].0, Trim(passed[k].1)))
    && seen[|passed|] == ("Content-Length", Decimal(bodyLen)) && seen[|passed| + 1] == ("Connection", "close")
  }

  /** A header bears the name that marks refusals, in any case. */
  ghost predicate IsMarked(hs: seq<Header>) {
    exists i :: 0 <= i < |hs| && EqIgnoreCase(hs[i].0, "X-Capcurl-Refused")
  }

  lemma MarkedByName(hs: seq<Header>)
    ensures FindHeader(hs, X_REFUSED).Some? <==> IsMarked(hs)
  {
    assert Lower("X-Capcurl-Refused") == Lower("x-capcurl-refused");
    FindHeaderIsExact(hs, X_REFUSED);
  }

  /** What header maps and status codes guarantee of an origin's answer. */
  ghost predicate SpeaksHttp(reply: OriginReply) {
    reply.Reply? ==> reply.status <= MAX_U16 && forall i :: 0 <= i < |reply.headers| ==> IsToken(reply.headers[i].0)
  }

  ghost predicate IsAnswerSeenAs(reply: OriginReply, seen: ClientResponse) {
    reply.Reply? && IsSeenAs(reply.status, reply.reason, reply.headers, Flatten(reply.chunks), seen)
  }

  lemma {:induction false} TrimmedByPlace(hs: seq<Header>)
    ensures |TrimmedHeaders(hs)| == |hs|
    ensures forall k :: 0 <= k < |hs| ==> TrimmedHeaders(hs)[k] == (hs[k].0, Trim(hs[k].1))
  {
    hide Trim;
    if hs != [] {
      TrimmedByPlace(hs[1..]);
    }
  }

  lemma OwnHeadersAreTrimmed(n: nat)
    ensures Trim(Decimal(n)) == Decimal(n) && Trim("close") == "close"
  {
    DecimalIsPlain(n);
    TrimOfTrimmed(Decimal(n), IsWhite);
    TrimOfTrimmed("close", IsWhite);
  }

  /** The relayed answer, delivered, is the answer seen so. */
  lemma RelayIsSeen(u: UpstreamResponse)
    ensures IsSeenAs(u.status, u.reason, u.headers, u.body, Delivered(RelayHead(u), u.body))
  {
    var passed := Relayed(u.headers, ConnectionOf(u.headers));
    assert RelayHead(u).status == u.status && RelayHead(u).reason == u.reason && RelayHead(u).headers == passed;
    var places := RelayedArePassedOn(u.headers);
    var own := OwnFraming(|u.body|);
    OwnHeadersAreTrimmed(|u.body|);
    TrimmedByPlace(passed + own);
    MarkedByName(TrimmedHeaders(passed + own));
    hide IsMarked;
    hide Relayed;
    hide ArePassedOn;
    hide Trim;
    hide Decimal;
    hide TrimmedHeaders;
    hide Sanitize;
    hide FindHeader;
    var seen := Delivered(RelayHead(u), u.body);
    assert seen.headers == TrimmedHeaders(passed + own);
    assert forall k :: 0 <= k < |passed| ==> (passed + own)[k] == passed[k];
    assert (passed + own)[|passed|] == own[0] && (passed + own)[|passed| + 1] == own[1];
  }

  /** An accepted reply, relayed and delivered, is seen as it was sent. */
  lemma AcceptedReplyIsSeen(reply: OriginReply, limit: nat)
    requires FetchOutcome(reply, limit).Ok?
    ensures var u := FetchOutcome(reply, limit).value;
            IsAnswerSeenAs(reply, Delivered(RelayHead(u), u.body))
  {
    hide RelayHead;
    hide Delivered;
    hide IsSeenAs;
    FetchedBodyIsExact(reply, limit);
    hide FetchOutcome;
    RelayIsSeen(FetchOutcome(reply, limit).value);
  }

  // ----- refusals, as the client sees them -----

  /** Who is refused for what: a request too large, any other denial, bad HTTP, an origin that
      sends too much or does not answer, and everything else. */
  ghost predicate IsStatusFor(e: CoreError, status: nat, reason: string) {
    match e
    case Denial(denied) =>
      if denied.TooLarge? && denied.what == RequestLeg then status == 413 && reason == "Content Too Large"
      else if denied.TooLarge? then status == 502 && reason == "Bad Gateway"
      else status == 403 && reason == "Forbidden"
    case Http(_) => status == 400 && reason == "Bad Request"
    case Upstream => status == 502 && reason == "Bad Gateway"
    case _ => status == 500 && reason == "Internal Server Error"
  }

  /** A refusal as the client sees it: the status of its cause, marked, with the error in words. */
  ghost predicate IsRefusalSeenAs(cfg: Config, e: CoreError, seen: ClientResponse) {
    && IsStatusFor(e, seen.status, seen.reason) && seen.refused
    && seen.body == "capcurl: " + cfg.describe(e) + "\n"
    && seen.headers == [("Content-Type", "text/plain; charset=utf-8"), ("X-Capcurl-Refused", "1"),
                        ("Content-Length", Decimal(|seen.body|)), ("Connection", "close")]
  }

  lemma ReasonsAreKept()
    ensures Sanitize("Content Too Large", "Unknown") == "Content Too Large"
    ensures Sanitize("Bad Gateway", "Unknown") == "Bad Gateway" && Sanitize("Forbidden", "Unknown") == "Forbidden"
    ensures Sanitize("Bad Request", "Unknown") == "Bad Request"
    ensures Sanitize("Internal Server Error", "Unknown") == "Internal Server Error"
  {
    SanitizeIsExact("Content Too Large", "Unknown");
    SanitizeIsExact("Bad Gateway", "Unknown");
    SanitizeIsExact("Forbidden", "Unknown");
    SanitizeIsExact("Bad Request", "Unknown");
    SanitizeIsExact("Internal Server Error", "Unknown");
    hide Sanitize;
  }

  lemma RefusalIsSeenSo(cfg: Config, e: CoreError)
    ensures var (head, body) := RefusalFor(cfg, e); IsRefusalSeenAs(cfg, e, Delivered(head, body))
  {
    hide Refusal;
    hide Delivered;
    hide Sanitize;
    hide IsStatusFor;
    hide Decimal;
    var (status, reason) := RefusalStatus(e);
    StatusIsFor(e);
    RefusalIsSeen(status, reason, cfg.describe(e));
    RefusalIsDelivered(status, reason, cfg.describe(e));
  }

  lemma StatusIsFor(e: CoreError)
    ensures var (status, reason) := RefusalStatus(e); IsStatusFor(e, status, Sanitize(reason, "Unknown"))
  {
    ReasonsAreKept();
    hide Sanitize;
  }

  lemma RefusalIsDelivered(status: nat, reason: string, detail: string)
    ensures var (head, body) := Refusal(status, reason, detail);
            var seen := Delivered(head, body);
            && seen.status == status && seen.reason == Sanitize(reason, "Unknown")
            && seen.body == "capcurl: " + detail + "\n"
            && seen.headers == [("Content-Type", "text/plain; charset=utf-8"), ("X-Capcurl-Refused", "1"),
                                ("Content-Length", Decimal(|seen.body|)), ("Connection", "close")]
  {
    var (head, body) := Refusal(status, reason, detail);
    OwnHeadersAreTrimmed(|body|);
    RefusalValuesAreTrimmed();
    TrimmedByPlace(head.headers + OwnFraming(|body|));
    hide Sanitize;
    hide Trim;
    hide Decimal;
    hide TrimmedHeaders;
    hide FindHeader;
    var hs := head.headers + OwnFraming(|body|);
    assert |hs| == 4 && hs[0] == head.headers[0] && hs[1] == head.headers[1];
    assert hs[2] == OwnFraming(|body|)[0] && hs[3] == OwnFraming(|body|)[1];
  }

  lemma RefusalValuesAreTrimmed()
    ensures Trim("text/plain; charset=utf-8") == "text/plain; charset=utf-8" && Trim("1") == "1"
  {
    TrimOfTrimmed("text/plain; charset=utf-8", IsWhite);
    TrimOfTrimmed("1", IsWhite);
  }

  /** The client sees that a refusal is one. */
  lemma RefusalIsSeen(status: nat, reason: string, detail: string)
    ensures var (head, body) := Refusal(status, reason, detail); Delivered(head, body).refused
  {
    hide EqIgnoreCase;
    var (head, body) := Refusal(status, reason, detail);
    var hs := head.headers;
    RefusedMarkerFolds();
    LengthsDiffer("Content-Type", X_REFUSED);
    assert hs + OwnFraming(|body|) == [hs[0]] + ([hs[1]] + OwnFraming(|body|));
    FindTrimmed([hs[0]], [hs[1]] + OwnFraming(|body|), X_REFUSED);
  }

  /** Exactly one header says a length, with this text, and none names a coding. */
  ghost predicate SaysOnlyLength(hs: seq<Header>, text: string) {
    NoEncoding(hs) && exists i :: IsOnlyLength(hs, i, text)
  }

  ghost predicate IsOnlyLength(hs: seq<Header>, i: int, text: string) {
    0 <= i < |hs| && hs[i].1 == text && forall j :: 0 <= j < |hs| ==> (SaysLength(hs[j]) <==> j == i)
  }

  lemma PassedSaysNoFraming(headers: seq<Header>, passed: seq<Header>, places: seq<nat>, k: int)
    requires ArePassedOn(headers, passed, places) && 0 <= k < |passed|
    ensures IsPassedOn(headers, passed[k])
  {
    hide IsPassedOn;
    assert passed[k] == headers[places[k]] && places[k] in places;
  }

  /** What the client sees has exactly one framing: its own length. */
  lemma SeenHasOneFraming(status: nat, reason: string, headers: seq<Header>, body: bytes, seen: ClientResponse)
    requires IsSeenAs(status, reason, headers, body, seen)
    ensures SaysOnlyLength(seen.headers, Decimal(|body|))
  {
    hide ArePassedOn;
    hide AreTrimmedAndFramed;
    hide SaysOnlyLength;
    hide SaysLength;
    hide SaysEncoding;
    var passed, places :| ArePassedOn(headers, passed, places) && AreTrimmedAndFramed(passed, |body|, seen.headers);
    var hs := seen.headers;
    OwnAreFraming(passed, |body|, hs);
    forall k | 0 <= k < |passed| ensures !SaysLength(hs[k]) && !SaysEncoding(hs[k]) {
      PassedSaysNoFraming(headers, passed, places, k);
      PassedOnIsNoFraming(headers, passed[k], hs[k]);
    }
    LengthIsOnlyOne(hs, |passed|, Decimal(|body|));
  }

  lemma OwnAreFraming(passed: seq<Header>, n: nat, hs: seq<Header>)
    requires AreTrimmedAndFramed(passed, n, hs)
    ensures |hs| == |passed| + 2 && forall k :: 0 <= k < |passed| ==> hs[k].0 == passed[k].0
    ensures SaysLength(hs[|passed|]) && !SaysEncoding(hs[|passed|]) && hs[|passed|].1 == Decimal(n)
    ensures !SaysLength(hs[|passed| + 1]) && !SaysEncoding(hs[|passed| + 1])
  {
    hide SaysLength;
    hide SaysEncoding;
    hide Decimal;
    hide Trim;
    OwnNamesAreFraming(hs[|passed|], hs[|passed| + 1]);
  }

  lemma LengthIsOnlyOne(hs: seq<Header>, n: nat, text: string)
    requires |hs| == n + 2 && hs[n].1 == text && SaysLength(hs[n]) && !SaysEncoding(hs[n])
    requires !SaysLength(hs[n + 1]) && !SaysEncoding(hs[n + 1])
    requires forall k :: 0 <= k < n ==> !SaysLength(hs[k]) && !SaysEncoding(hs[k])
    ensures SaysOnlyLength(hs, text)
  {
    hide SaysLength;
    hide SaysEncoding;
    assert IsOnlyLength(hs, n, text);
  }

  /** And the strictest reader takes it for just that. */
  lemma SeenIsFramedStrictly(status: nat, reason: string, headers: seq<Header>, body: bytes, seen: ClientResponse)
    requires IsSeenAs(status, reason, headers, body, seen) && |body| < 0x1_0000_0000_0000_0000
    ensures FramingOf(seen.headers) == Ok(if |body| == 0 then NoBody else Length(|body|))
  {
    var n, hs := |body|, seen.headers;
    var f := if n == 0 then NoBody else Length(n);
    SeenHasOneFraming(status, reason, headers, body, seen);
    FramingFollowsTheRules(hs, f);
    OwnHeadersAreTrimmed(n);
    DecimalRoundTrip(n);
    LengthOfDecimal(n);
    hide IsSeenAs;
    hide FramingOf;
    hide IsLength;
    hide SaysLength;
    hide SaysEncoding;
    hide Decimal;
    var i :| IsOnlyLength(hs, i, Decimal(n));
    assert SaysLength(hs[i]);
    assert LengthsAre(hs, n);
  }

  lemma LengthOfDecimal(n: nat)
    requires n < 0x1_0000_0000_0000_0000
    ensures IsLength(Decimal(n), n)
  {
    OwnHeadersAreTrimmed(n);
    DecimalRoundTrip(n);
    hide Decimal;
    hide Trim;
  }

  lemma PassedOnIsNoFraming(headers: seq<Header>, h: Header, seen: Header)
    requires IsPassedOn(headers, h) && seen.0 == h.0
    ensures !SaysLength(seen) && !SaysEncoding(seen)
  {
    FramingIsOfOneHop(h.0);
  }

  lemma FramingIsOfOneHop(name: string)
    requires !IsOfOneHop(name)
    ensures !EqIgnoreCase(name, "Content-Length") && !EqIgnoreCase(name, "Transfer-Encoding")
  {
    LowerNames();
  }

  lemma LowerNames()
    ensures Lower("Content-Length") == "content-length" && Lower("Transfer-Encoding") == "transfer-encoding"
  {
  }

  lemma OwnNamesAreFraming(length: Header, connection: Header)
    requires length.0 == "Content-Length" && connection.0 == "Connection"
    ensures SaysLength(length) && !SaysEncoding(length) && !SaysLength(connection) && !SaysEncoding(connection)
  {
    LengthsDiffer("Content-Length", "Transfer-Encoding");
    LengthsDiffer("Connection", "Content-Length");
    LengthsDiffer("Connection", "Transfer-Encoding");
  }
}
