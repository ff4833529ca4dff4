/** What the client makes of any stream it reads a response from, case by case. */
module ClientRules {
  import opened Octets
  import opened Errors
  import opened Request
  import opened RequestText
  import opened Reading
  import opened Readers
  import opened Response
  import opened ResponseRoundTrip
  import opened Relay

  /** Once the head is cut off: an error of its lines; no length; too few bytes; or just the length
      declared of what follows. */
  ghost predicate IsReadAs(stream: bytes, end: nat, broken: bool, r: Result<ClientResponse, CoreError>)
    requires end <= |stream|
  {
    match ParseStatusAndHeaders(stream[..end])
    case Err(e) => r == Err(e)
    case Ok(head) =>
      match DeclaredLength(head.headers)
      case Err(e) => r == Err(e)
      case Ok(len) =>
        if |stream| - end < len then
          r == Err(if broken then IoFailed else Handshake(ClosedInBody(|stream| - end, len)))
        else
          && r.Ok? && r.value.status == head.status && r.value.reason == head.reason
          && r.value.headers == head.headers && r.value.body == stream[end..end + len]
          && (r.value.refused <==> IsMarked(head.headers))
  }

  ghost predicate IsUnread(stream: bytes, broken: bool, r: Result<ClientResponse, CoreError>) {
    r == if |stream| > 65536 then Err(Http(HeadTooLarge))
         else Err(if broken then IoFailed else Handshake(ClosedBeforeHead))
  }

  /** The body, or too little of it, whichever way it is cut. */
  lemma BodyIsCounted(len: nat, held: bytes, segs: seq<bytes>)
    requires Segments(segs)
    ensures var p, s := Accumulate(Bytes(len), held, segs), held + Flatten(segs);
            if len <= |s| then p.verdict == Finished && len <= |p.buf| && p.buf[..len] == s[..len]
            else p.verdict == Ended && p.buf == s
  {
    hide Accumulate;
    hide Deciding;
    var p, s := Accumulate(Bytes(len), held, segs), held + Flatten(segs);
    AccumulateKeepsBytes(Bytes(len), held, segs);
    SettledIsIndependent(Bytes(len), held, segs);
    VerdictOfStream(Bytes(len), held, segs);
    ReachedFromDeciding(Bytes(len), s, |s|);
    assert s[..|s|] == s;
    if len <= |s| {
      assert s[..len] == p.buf[..len];
    } else {
      assert p.buf + Flatten(p.rest) == s;
    }
  }

  lemma HeadIsFinished(segs: seq<bytes>, end: nat)
    requires Segments(segs) && EndsAt(Flatten(segs), end) && end <= 65537
    ensures var p, stream := Accumulate(WholeHead, [], segs), Flatten(segs);
            && p.verdict == Finished && Segments(p.rest) && FindHeadEnd(p.buf) == Some(end)
            && end <= |stream| && p.buf[..end] == stream[..end]
            && p.buf[end..] + Flatten(p.rest) == stream[end..]
  {
    hide Accumulate;
    hide FindHeadEnd;
    hide EndsAt;
    hide Deciding;
    var stream := Flatten(segs);
    EndIsFound(stream, end);
    assert stream == stream[..end] + stream[end..];
    HeadArrives(stream[..end], stream[end..], segs);
    HeadDecides(stream, end);
    assert [] + stream == stream;
    SettledIsIndependent(WholeHead, [], segs);
    VerdictOfStream(WholeHead, [], segs);
  }

  lemma HeadIsUnfinished(segs: seq<bytes>)
    requires Segments(segs) && forall end :: !EndsAt(Flatten(segs), end)
    ensures Accumulate(WholeHead, [], segs).verdict == if |Flatten(segs)| > 65536 then Overgrown else Ended
  {
    hide Accumulate;
    hide FindHeadEnd;
    hide EndsAt;
    hide Deciding;
    var stream := Flatten(segs);
    if FindHeadEnd(stream).Some? {
      EndIsFound(stream, FindHeadEnd(stream).value);
    }
    HeadEndReached(stream);
    assert [] + stream == stream;
    SettledIsIndependent(WholeHead, [], segs);
  }

  /** Any stream whose head ends by byte 65537, or never, is read by these rules, however it is cut. */
  lemma ResponsesByRule(segs: seq<bytes>, broken: bool)
    requires Segments(segs)
    ensures forall end: nat :: EndsAt(Flatten(segs), end) && end <= 65537
              ==> end <= |Flatten(segs)| && IsReadAs(Flatten(segs), end, broken, ResponseResult(segs, broken))
    ensures (forall end :: !EndsAt(Flatten(segs), end))
            ==> IsUnread(Flatten(segs), broken, ResponseResult(segs, broken))
  {
    hide ResponseResult;
    hide EndsAt;
    hide IsReadAs;
    forall end: nat | EndsAt(Flatten(segs), end) && end <= 65537
      ensures end <= |Flatten(segs)| && IsReadAs(Flatten(segs), end, broken, ResponseResult(segs, broken))
    {
      WholeHeadIsRead(segs, broken, end);
    }
    if forall end :: !EndsAt(Flatten(segs), end) {
      NoHeadIsRead(segs, broken);
    }
  }

  lemma NoHeadIsRead(segs: seq<bytes>, broken: bool)
    requires Segments(segs) && forall end :: !EndsAt(Flatten(segs), end)
    ensures IsUnread(Flatten(segs), broken, ResponseResult(segs, broken))
  {
    hide Accumulate;
    hide ParseStatusAndHeaders;
    hide DeclaredLength;
    hide EndsAt;
    HeadIsUnfinished(segs);
  }

  lemma WholeHeadIsRead(segs: seq<bytes>, broken: bool, end: nat)
    requires Segments(segs) && EndsAt(Flatten(segs), end) && end <= 65537
    ensures end <= |Flatten(segs)| && IsReadAs(Flatten(segs), end, broken, ResponseResult(segs, broken))
  {
    hide Accumulate;
    hide ParseStatusAndHeaders;
    hide DeclaredLength;
    hide FindHeader;
    hide IsMarked;
    hide FindHeadEnd;
    hide EndsAt;
    var p, stream := Accumulate(WholeHead, [], segs), Flatten(segs);
    HeadIsFinished(segs, end);
    if ParseStatusAndHeaders(stream[..end]).Ok? {
      var head := ParseStatusAndHeaders(stream[..end]).value;
      MarkedByName(head.headers);
      if DeclaredLength(head.headers).Ok? {
        var len := DeclaredLength(head.headers).value;
        BodyIsCounted(len, p.buf[end..], p.rest);
        assert |stream[end..]| == |stream| - end;
        assert len <= |stream[end..]| ==> stream[end..][..len] == stream[end..end + len];
      }
    }
  }
}
