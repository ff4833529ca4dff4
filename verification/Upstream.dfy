/** The origin's answer, capped before it is relayed. */
module Upstream {
  import opened Octets
  import opened Errors
  import opened Framing
  import opened Reading

  /** What an origin may do: answer with a status, headers and a body in pieces that may
      break off, or fail. */
  datatype OriginReply =
    | Reply(status: nat, reason: string, headers: seq<Header>, declared: Option<nat>, chunks: seq<bytes>, broken: bool)
    | NoReply

  datatype UpstreamResponse = UpstreamResponse(status: nat, reason: string, headers: seq<Header>, body: bytes)

  function TooLargeResponse(limit: nat): CoreError {
    Denial(Denied.TooLarge(ResponseLeg, limit))
  }

  function CappedFrom(body: bytes, chunks: seq<bytes>, broken: bool, limit: nat): Result<bytes, CoreError>
    decreases |chunks|
  {
    if chunks == [] then (if broken then Err(CoreError.Upstream) else Ok(body))
    else if |body| + |chunks[0]| > limit then Err(TooLargeResponse(limit))
    else CappedFrom(body + chunks[0], chunks[1..], broken, limit)
  }

  method ReadCapped(chunks: seq<bytes>, broken: bool, limit: nat) returns (r: Result<bytes, CoreError>)
    ensures r == CappedFrom([], chunks, broken, limit)
  {
    var body: bytes := [];
    var i := 0;
    while i < |chunks|
      invariant i <= |chunks|
      invariant CappedFrom(body, chunks[i..], broken, limit) == CappedFrom([], chunks, broken, limit)
    {
      var chunk := chunks[i];
      assert chunks[i..][1..] == chunks[i + 1..];
      if |body| + |chunk| > limit {
        return Err(TooLargeResponse(limit));
      }
      body := body + chunk;
      i := i + 1;
    }
    if broken {
      return Err(CoreError.Upstream);
    }
    return Ok(body);
  }

  lemma {:induction false} CappedIsExact(body: bytes, chunks: seq<bytes>, broken: bool, limit: nat)
    requires |body| <= limit
    ensures CappedFrom(body, chunks, broken, limit)
            == if |body + Flatten(chunks)| > limit then Err(TooLargeResponse(limit))
               else if broken then Err(CoreError.Upstream) else Ok(body + Flatten(chunks))
    decreases |chunks|
  {
    if chunks == [] {
      assert body + Flatten(chunks) == body;
    } else {
      Assoc(body, chunks[0], Flatten(chunks[1..]));
      if |body| + |chunks[0]| <= limit {
        CappedIsExact(body + chunks[0], chunks[1..], broken, limit);
      }
    }
  }

  /** What `fetch` returns for a reply. */
  function FetchOutcome(reply: OriginReply, limit: nat): Result<UpstreamResponse, CoreError> {
    match reply
    case NoReply => Err(CoreError.Upstream)
    case Reply(status, reason, headers, declared, chunks, broken) =>
      if declared.Some? && declared.value > limit then Err(TooLargeResponse(limit))
      else match CappedFrom([], chunks, broken, limit)
           case Err(e) => Err(e)
           case Ok(body) => Ok(UpstreamResponse(status, reason, headers, body))
  }

  /** The response body fits the limit and is all that the origin sent; and a body that fits
      and ends properly is never refused, unless the origin announced a longer one. */
  lemma FetchedBodyIsExact(reply: OriginReply, limit: nat)
    ensures FetchOutcome(reply, limit).Ok?
            <==> reply.Reply? && !reply.broken && |Flatten(reply.chunks)| <= limit
                 && (reply.declared.Some? ==> reply.declared.value <= limit)
    ensures FetchOutcome(reply, limit).Ok? ==>
              FetchOutcome(reply, limit).value
              == UpstreamResponse(reply.status, reply.reason, reply.headers, Flatten(reply.chunks))
  {
    if reply.Reply? {
      CappedIsExact([], reply.chunks, reply.broken, limit);
      assert [] + Flatten(reply.chunks) == Flatten(reply.chunks);
    }
  }
}
