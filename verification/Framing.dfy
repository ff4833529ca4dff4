/** How a request body is delimited: section 6.3 of RFC 9112, every ambiguity refused. */
module Framing {
  import opened Octets
  import opened Errors

  type Header = (string, string)

  datatype BodyFraming = NoBody | Length(len: nat) | ChunkedBody

  const CONTENT_LENGTH := "content-length"
  const TRANSFER_ENCODING := "transfer-encoding"

  predicate IsLengthHeader(h: Header) {
    EqIgnoreCase(h.0, CONTENT_LENGTH)
  }

  predicate IsEncodingHeader(h: Header) {
    EqIgnoreCase(h.0, TRANSFER_ENCODING)
  }

  /** A plain decimal number of at most 64 bits; no sign, no prefix. */
  function LengthValue(value: string): Option<nat> {
    var v := Trim(value);
    if v == [] || !AllOf(v, IsDigit) || DecimalValue(v) > MAX_U64 then None else Some(DecimalValue(v))
  }

  predicate NamesChunked(value: string) {
    EqIgnoreCase(Trim(value), "chunked")
  }

  datatype Seen = Seen(length: Option<nat>, encoding: bool)

  function FramingStep(seen: Seen, h: Header): Result<Seen, HttpError> {
    if IsLengthHeader(h) then
      match LengthValue(h.1)
      case None => Err(BadContentLength)
      case Some(n) =>
        if seen.length.Some? && seen.length.value != n then Err(BadContentLength)
        else Ok(seen.(length := Some(n)))
    else if IsEncodingHeader(h) then
      if !NamesChunked(h.1) || seen.encoding then Err(BadTransferEncoding)
      else Ok(seen.(encoding := true))
    else Ok(seen)
  }

  function Scan(headers: seq<Header>): Result<Seen, HttpError> {
    if headers == [] then Ok(Seen(None, false))
    else
      match Scan(headers[..|headers| - 1])
      case Err(e) => Err(e)
      case Ok(seen) => FramingStep(seen, headers[|headers| - 1])
  }

  function Conclude(seen: Seen): Result<BodyFraming, HttpError> {
    match seen
    case Seen(Some(_), true) => Err(ConflictingFraming)
    case Seen(Some(n), false) => Ok(if n == 0 then NoBody else Length(n))
    case Seen(None, true) => Ok(ChunkedBody)
    case Seen(None, false) => Ok(NoBody)
  }

  /** What `framing_of` returns. */
  function FramingOf(headers: seq<Header>): Result<BodyFraming, HttpError> {
    match Scan(headers)
    case Err(e) => Err(e)
    case Ok(seen) => Conclude(seen)
  }

  lemma {:induction false} ScanFailsEarly(headers: seq<Header>, n: nat)
    requires n <= |headers| && Scan(headers[..n]).Err?
    ensures Scan(headers) == Scan(headers[..n])
    decreases |headers| - n
  {
    if n < |headers| {
      assert headers[..n + 1][..n] == headers[..n];
      ScanFailsEarly(headers, n + 1);
    } else {
      assert headers[..n] == headers;
    }
  }

  method ComputeFraming(headers: seq<Header>) returns (r: Result<BodyFraming, HttpError>)
    ensures r == FramingOf(headers)
  {
    var contentLength: Option<nat> := None;
    var sawTransferEncoding := false;
    for i := 0 to |headers|
      invariant Scan(headers[..i]) == Ok(Seen(contentLength, sawTransferEncoding))
    {
      var (name, value) := headers[i];
      assert headers[..i + 1][..i] == headers[..i];
      if Scan(headers[..i + 1]).Err? {
        ScanFailsEarly(headers, i + 1);
      }
      if EqIgnoreCase(name, CONTENT_LENGTH) {
        var parsed := LengthValue(value);
        if parsed.None? {
          return Err(BadContentLength);
        }
        if contentLength.Some? && contentLength.value != parsed.value {
          return Err(BadContentLength);
        }
        contentLength := parsed;
      } else if EqIgnoreCase(name, TRANSFER_ENCODING) {
        if !NamesChunked(value) {
          return Err(BadTransferEncoding);
        }
        if sawTransferEncoding {
          return Err(BadTransferEncoding);
        }
        sawTransferEncoding := true;
      }
    }
    assert headers[..|headers|] == headers;
    match contentLength {
      case Some(n) =>
        if sawTransferEncoding {
          return Err(ConflictingFraming);
        }
        return Ok(if n == 0 then NoBody else Length(n));
      case None =>
        return Ok(if sawTransferEncoding then ChunkedBody else NoBody);
    }
  }

  // ----- framing as a function of the header multiset -----

  /** Every length is a number and they agree on `length`; at most one encoding, and it is
      `chunked`. Nothing here depends on the order of the headers. */
  ghost predicate Summarizes(m: multiset<Header>, seen: Seen) {
    && (forall h :: h in m && IsLengthHeader(h) ==> LengthValue(h.1) == seen.length && seen.length.Some?)
    && (seen.length.Some? ==> exists h :: h in m && IsLengthHeader(h))
    && (forall h :: h in m && IsEncodingHeader(h) ==> NamesChunked(h.1) && m[h] == 1 && seen.encoding)
    && (forall h, k :: h in m && k in m && IsEncodingHeader(h) && IsEncodingHeader(k) ==> h == k)
    && (seen.encoding ==> exists h :: h in m && IsEncodingHeader(h))
  }

  /** The declarative framing of a header multiset. */
  ghost predicate Framed(m: multiset<Header>, f: BodyFraming) {
    exists seen :: Summarizes(m, seen) && Conclude(seen) == Ok(f)
  }

  lemma NamesDiffer(h: Header)
    ensures !(IsLengthHeader(h) && IsEncodingHeader(h))
  {
    assert |CONTENT_LENGTH| == 14 && |TRANSFER_ENCODING| == 17;
  }

  lemma StepSummarizes(m: multiset<Header>, seen: Seen, h: Header, next: Seen)
    requires Summarizes(m, seen) && FramingStep(seen, h) == Ok(next)
    ensures Summarizes(m + multiset{h}, next)
  {
    hide EqIgnoreCase;
    NamesDiffer(h);
    var all := m + multiset{h};
    assert forall k :: k in all <==> k in m || k == h;
    assert h in all;
  }

  lemma StepIsForced(m: multiset<Header>, h: Header, next: Seen) returns (seen: Seen)
    requires Summarizes(m + multiset{h}, next)
    ensures Summarizes(m, seen) && FramingStep(seen, h) == Ok(next)
  {
    hide EqIgnoreCase;
    NamesDiffer(h);
    var all := m + multiset{h};
    assert forall k :: k in all <==> k in m || k == h;
    assert h in all;
    assert forall k :: k in m ==> m[k] <= all[k];
    seen := Seen(if exists k :: k in m && IsLengthHeader(k) then next.length else None,
                 exists k :: k in m && IsEncodingHeader(k));
  }

  lemma {:induction false} ScanIsExact(headers: seq<Header>, seen: Seen)
    ensures Scan(headers) == Ok(seen) <==> Summarizes(multiset(headers), seen)
  {
    if headers != [] {
      var n := |headers| - 1;
      var init, h := headers[..n], headers[n];
      assert headers == init + [h];
      assert multiset(headers) == multiset(init) + multiset{h};
      if Scan(headers) == Ok(seen) {
        var before := Scan(init).value;
        ScanIsExact(init, before);
        StepSummarizes(multiset(init), before, h, seen);
      }
      if Summarizes(multiset(headers), seen) {
        var before := StepIsForced(multiset(init), h, seen);
        ScanIsExact(init, before);
      }
    }
  }

  /** The framing is decided by the multiset of headers, exactly as declared. */
  lemma FramingIsExact(headers: seq<Header>, f: BodyFraming)
    ensures FramingOf(headers) == Ok(f) <==> Framed(multiset(headers), f)
  {
    if FramingOf(headers) == Ok(f) {
      ScanIsExact(headers, Scan(headers).value);
    }
    if seen :| Summarizes(multiset(headers), seen) && Conclude(seen) == Ok(f) {
      ScanIsExact(headers, seen);
    }
  }

  /** Reordering headers changes neither acceptance nor the framing. */
  lemma FramingIgnoresOrder(headers: seq<Header>, other: seq<Header>)
    requires multiset(headers) == multiset(other)
    ensures FramingOf(headers).Ok? == FramingOf(other).Ok?
    ensures FramingOf(headers).Ok? ==> FramingOf(other) == FramingOf(headers)
  {
    if FramingOf(headers).Ok? {
      FramingIsExact(headers, FramingOf(headers).value);
      FramingIsExact(other, FramingOf(headers).value);
    } else if FramingOf(other).Ok? {
      FramingIsExact(headers, FramingOf(other).value);
      FramingIsExact(other, FramingOf(other).value);
    }
  }

  predicate IsUnrelated(h: Header) {
    !IsLengthHeader(h) && !IsEncodingHeader(h)
  }

  /** Headers under other names are invisible to the framing, wherever they stand. */
  lemma {:induction false} FramingIgnoresUnrelated(before: seq<Header>, extra: seq<Header>, after: seq<Header>)
    requires forall i :: 0 <= i < |extra| ==> IsUnrelated(extra[i])
    ensures FramingOf(before + extra + after) == FramingOf(before + after)
    decreases |after|, |extra|
  {
    ScanIgnoresUnrelated(before, extra, after);
  }

  lemma {:induction false} ScanIgnoresUnrelated(before: seq<Header>, extra: seq<Header>, after: seq<Header>)
    requires forall i :: 0 <= i < |extra| ==> IsUnrelated(extra[i])
    ensures Scan(before + extra + after) == Scan(before + after)
    decreases |after|, |extra|
  {
    if after != [] {
      var n := |after| - 1;
      ScanIgnoresUnrelated(before, extra, after[..n]);
      ScanAppend(before + extra + after[..n], after[n]);
      ScanAppend(before + after[..n], after[n]);
      assert before + extra + after == before + extra + after[..n] + [after[n]];
      assert before + after == before + after[..n] + [after[n]];
    } else if extra != [] {
      var n := |extra| - 1;
      ScanIgnoresUnrelated(before, extra[..n], []);
      ScanAppend(before + extra[..n], extra[n]);
      assert before + extra + after == before + extra[..n] + [extra[n]];
      assert before + extra[..n] + [] == before + extra[..n];
      assert IsUnrelated(extra[n]);
    } else {
      assert before + extra + after == before + after;
    }
  }

  lemma ScanAppend(headers: seq<Header>, h: Header)
    ensures Scan(headers + [h]) == match Scan(headers)
                                   case Err(e) => Err(e)
                                   case Ok(seen) => FramingStep(seen, h)
  {
    assert (headers + [h])[..|headers|] == headers;
  }
}
